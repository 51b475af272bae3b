/** The bundle writer: pairs the keys with one locale's terms, line by line,
    and names the bundle after the locale. */
module Writer {
  import opened Text
  import opened Results

  /** The folder every bundle is written to. */
  const OutputFolder: JString := Str("resources/output/")
  const BundlePrefix: JString := Str("i18n_")
  const BundleSuffix: JString := Str(".properties")

  /** What stands between a key and its term on a line. */
  const Separator: JString := Str(" = ")

  /** A bundle as the file system would hold it: its path and its lines. The
      platform line separator `println` adds is not part of this model. */
  datatype Bundle = Bundle(name: JString, lines: seq<JString>)

  /** `write`'s exception: its message names no counts. */
  datatype WriteError = TermsKeysCountMismatch

  /** The path of the bundle for a locale, the locale taken verbatim: it
      lies in the output folder and the locale is read back from between
      the prefix and the suffix. */
  function BundleName(locale: JString): (r: JString)
    ensures |r| == |OutputFolder| + |BundlePrefix| + |locale| + |BundleSuffix|
    ensures r[..|OutputFolder|] == OutputFolder
    ensures r[|OutputFolder| + |BundlePrefix|..|r| - |BundleSuffix|] == locale
  {
    var r := OutputFolder + BundlePrefix + locale + BundleSuffix;
    assert r[..|OutputFolder|] == OutputFolder;
    assert r[|OutputFolder| + |BundlePrefix|..|r| - |BundleSuffix|] == locale;
    r
  }

  /** The locale can be read back from the bundle name, so different locales
      never share a bundle. */
  lemma BundleNameInjective(a: JString, b: JString)
    ensures BundleName(a) == BundleName(b) <==> a == b
  {
    if BundleName(a) == BundleName(b) {
      assert |a| == |b|;
    }
  }

  /** One line of a bundle. */
  function Line(key: JString, term: JString): JString {
    key + Separator + term
  }

  /** The lines of a bundle: key `i` paired with term `i`, in key order. */
  function RenderLines(keys: seq<JString>, terms: seq<JString>): (r: seq<JString>)
    requires |terms| == |keys|
    ensures |r| == |keys|
    ensures forall i | 0 <= i < |keys| :: r[i] == keys[i] + Separator + terms[i]
  {
    if keys == [] then []
    else [Line(keys[0], terms[0])] + RenderLines(keys[1..], terms[1..])
  }

  /** What `write` produces: a bundle, or the mismatch it throws before it
      touches the file system. */
  function Render(keys: seq<JString>, locale: JString, terms: seq<JString>): (r: Result<Bundle, WriteError>)
    ensures r.Failure? <==> |terms| != |keys|
    ensures r.Success? ==> r.value.name == BundleName(locale) && r.value.lines == RenderLines(keys, terms)
  {
    if |terms| != |keys| then Failure(TermsKeysCountMismatch)
    else Success(Bundle(BundleName(locale), RenderLines(keys, terms)))
  }

  /** `PropertiesFileWriter`: holds the keys, fixed when it is created, and
      renders a bundle for each locale it is given. */
  class PropertiesFileWriter {
    const keys: seq<JString>

    constructor (keys: seq<JString>)
      ensures this.keys == keys
    {
      this.keys := keys;
    }

    /** `write`: refuses terms whose count differs from the keys'; otherwise
        emits one line per key, in key order. */
    method Write(locale: JString, terms: seq<JString>) returns (r: Result<Bundle, WriteError>)
      ensures r == Render(keys, locale, terms)
      ensures r.Success? ==> |r.value.lines| == |keys|
      ensures r.Success? ==> forall i | 0 <= i < |keys| :: r.value.lines[i] == keys[i] + Separator + terms[i]
    {
      if |terms| != |keys| {
        return Failure(TermsKeysCountMismatch);
      }
      var name := OutputFolder + BundlePrefix + locale + BundleSuffix;
      var lines: seq<JString> := [];
      for i := 0 to |keys|
        invariant |lines| == i
        invariant forall j | 0 <= j < i :: lines[j] == keys[j] + Separator + terms[j]
      {
        lines := lines + [keys[i] + Separator + terms[i]];
      }
      assert lines == RenderLines(keys, terms);
      r := Success(Bundle(name, lines));
    }
  }
}
