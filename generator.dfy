/** The run driver: recognises terms files and keys files by name, chooses
    the file that supplies the keys, and writes one bundle per terms file.
    The resources directory is a snapshot: its entries in listing order,
    each with its lines. */
module Generator {
  import opened Text
  import opened Results
  import opened Reader
  import opened Writer

  const TermsPrefix: JString := Str("terms_")
  const TxtSuffix: JString := Str(".txt")
  const KeysName: JString := Str("keys")
  const KeysTxtName: JString := Str("keys.txt")
  const English: JString := Str("en")

  /** One entry of the resources directory. */
  datatype Entry = Entry(name: JString, lines: seq<JString>)

  type Listing = seq<Entry>

  // ---------------------------------------------------------------------
  // File names
  // ---------------------------------------------------------------------

  /** What the group `([^.]+)` matches: one or more code units, none a dot. */
  predicate IsLocale(s: JString) {
    |s| >= 1 && forall i | 0 <= i < |s| :: s[i] != Dot
  }

  /** A name that starts with `prefix` is `prefix` and the rest. */
  lemma SplitPrefix(name: JString, prefix: JString)
    requires |name| >= |prefix| && name[..|prefix|] == prefix
    ensures name == prefix + name[|prefix|..]
  {
    assert name == name[..|prefix|] + name[|prefix|..];
  }

  /** A name that ends with `suffix` is the rest and `suffix`. */
  lemma SplitSuffix(name: JString, suffix: JString)
    requires |name| >= |suffix| && name[|name| - |suffix|..] == suffix
    ensures name == name[..|name| - |suffix|] + suffix
  {
    assert name == name[..|name| - |suffix|] + name[|name| - |suffix|..];
  }

  /** `name.matches("terms\\_([^\\.]+)(\\.txt)?$")`, and `group(1)` when it
      matches: the locale. A match is always `terms_` + a locale, with or
      without `.txt`. */
  function MatchTermsFileName(name: JString): (r: Option<JString>)
    ensures r.Some? ==> IsLocale(r.value)
    ensures r.Some? ==> name == TermsPrefix + r.value || name == TermsPrefix + r.value + TxtSuffix
  {
    if |name| >= |TermsPrefix| && name[..|TermsPrefix|] == TermsPrefix then
      var rest := name[|TermsPrefix|..];
      SplitPrefix(name, TermsPrefix);
      if IsLocale(rest) then Some(rest)
      else if |rest| >= |TxtSuffix| && rest[|rest| - |TxtSuffix|..] == TxtSuffix
              && IsLocale(rest[..|rest| - |TxtSuffix|])
      then
        var locale := rest[..|rest| - |TxtSuffix|];
        SplitSuffix(rest, TxtSuffix);
        Some(locale)
      else None
    else None
  }

  predicate IsTermsFileName(name: JString) {
    MatchTermsFileName(name).Some?
  }

  /** `name.matches("keys(\\.txt)?$")`: `keys`, then nothing or `.txt`. */
  function IsKeysFileName(name: JString): (r: bool)
    ensures r <==> |name| >= |KeysName| && name[..|KeysName|] == KeysName
                   && (name[|KeysName|..] == [] || name[|KeysName|..] == TxtSuffix)
  {
    StrConcat("keys", ".txt");
    assert "keys" + ".txt" == "keys.txt";
    assert KeysTxtName[..|KeysName|] == KeysName && KeysTxtName[|KeysName|..] == TxtSuffix;
    assert |name| >= |KeysName| && name[..|KeysName|] == KeysName && name[|KeysName|..] == TxtSuffix
           ==> name == KeysName + TxtSuffix;
    assert |name| >= |KeysName| && name[..|KeysName|] == KeysName && name[|KeysName|..] == []
           ==> name == KeysName;
    name == KeysName || name == KeysTxtName
  }

  /** Every `terms_` + locale, with or without `.txt`, matches, and the
      captured group is that locale. */
  lemma TermsFileNameComplete(locale: JString)
    requires IsLocale(locale)
    ensures MatchTermsFileName(TermsPrefix + locale) == Some(locale)
    ensures MatchTermsFileName(TermsPrefix + locale + TxtSuffix) == Some(locale)
  {
    var plain := TermsPrefix + locale;
    assert plain[..|TermsPrefix|] == TermsPrefix && plain[|TermsPrefix|..] == locale;
    var txt := TermsPrefix + locale + TxtSuffix;
    var rest := locale + TxtSuffix;
    assert txt[..|TermsPrefix|] == TermsPrefix && txt[|TermsPrefix|..] == rest;
    assert rest[|locale|] == Dot;
    assert rest[|rest| - |TxtSuffix|..] == TxtSuffix && rest[..|rest| - |TxtSuffix|] == locale;
  }

  /** A terms file name is parsed one way only: its locale and whether it
      ends in `.txt` are determined by the name. */
  lemma TermsFileNameUnique(a: JString, txtA: bool, b: JString, txtB: bool)
    requires IsLocale(a) && IsLocale(b)
    requires TermsPrefix + a + (if txtA then TxtSuffix else []) == TermsPrefix + b + (if txtB then TxtSuffix else [])
    ensures a == b && txtA == txtB
  {
    var name := TermsPrefix + a + (if txtA then TxtSuffix else []);
    assert !txtA ==> name == TermsPrefix + a;
    assert !txtB ==> name == TermsPrefix + b;
    TermsFileNameComplete(a);
    TermsFileNameComplete(b);
  }

  /** No name is both a keys candidate and a terms file. */
  lemma KeysAndTermsNamesDisjoint(name: JString)
    ensures !(IsKeysFileName(name) && IsTermsFileName(name))
  {
    if name == KeysTxtName {
      assert name[..|TermsPrefix|][0] != TermsPrefix[0];
    }
  }

  // ---------------------------------------------------------------------
  // Listings
  // ---------------------------------------------------------------------

  /** The two `FilenameFilter`s the driver lists the directory with. */
  datatype NameFilter = TermsFilter | KeysFilter

  predicate Accepts(filter: NameFilter, name: JString) {
    match filter
    case TermsFilter => IsTermsFileName(name)
    case KeysFilter => IsKeysFileName(name)
  }

  /** `listFiles` with a name filter: the entries whose name is kept, in
      listing order. */
  function Filter(listing: Listing, filter: NameFilter): (r: Listing)
  {
    if listing == [] then []
    else (if Accepts(filter, listing[0].name) then [listing[0]] else []) + Filter(listing[1..], filter)
  }

  /** `getTermsFiles`: every entry it returns is named like a terms file. */
  function TermsFiles(listing: Listing): (r: Listing)
    ensures forall t | 0 <= t < |r| :: IsTermsFileName(r[t].name)
  {
    var r := Filter(listing, TermsFilter);
    FilterSound(listing, TermsFilter);
    assert forall t | 0 <= t < |r| :: Accepts(TermsFilter, r[t].name);
    r
  }

  /** The keys candidates, as the first `listFiles` of `getKeysFile`: every
      entry it returns is named `keys` or `keys.txt`. */
  function KeysCandidates(listing: Listing): (r: Listing)
    ensures forall t | 0 <= t < |r| :: r[t].name == KeysName || r[t].name == KeysTxtName
  {
    var r := Filter(listing, KeysFilter);
    FilterSound(listing, KeysFilter);
    assert forall t | 0 <= t < |r| :: Accepts(KeysFilter, r[t].name);
    r
  }

  /** The terms files are exactly the listed entries named like terms files. */
  lemma TermsFilesExact(listing: Listing)
    ensures var r := TermsFiles(listing);
      && (forall t | 0 <= t < |r| :: r[t] in listing && IsTermsFileName(r[t].name))
      && (forall k | 0 <= k < |listing| && IsTermsFileName(listing[k].name) :: listing[k] in r)
  {
    var r := TermsFiles(listing);
    FilterSound(listing, TermsFilter);
    forall t | 0 <= t < |r| ensures r[t] in listing && IsTermsFileName(r[t].name) {
      assert r[t] == Filter(listing, TermsFilter)[t];
    }
    forall k | 0 <= k < |listing| && IsTermsFileName(listing[k].name) ensures listing[k] in r {
      FilterKeeps(listing, TermsFilter, k);
    }
  }

  /** The keys candidates are exactly the listed entries named `keys` or
      `keys.txt`. */
  lemma KeysCandidatesExact(listing: Listing)
    ensures var r := KeysCandidates(listing);
      && (forall t | 0 <= t < |r| :: r[t] in listing && IsKeysFileName(r[t].name))
      && (forall k | 0 <= k < |listing| && IsKeysFileName(listing[k].name) :: listing[k] in r)
  {
    var r := KeysCandidates(listing);
    FilterSound(listing, KeysFilter);
    forall t | 0 <= t < |r| ensures r[t] in listing && IsKeysFileName(r[t].name) {
      assert r[t] == Filter(listing, KeysFilter)[t];
    }
    forall k | 0 <= k < |listing| && IsKeysFileName(listing[k].name) ensures listing[k] in r {
      FilterKeeps(listing, KeysFilter, k);
    }
  }

  /** Filtering keeps listing order: it distributes over concatenation. */
  lemma {:induction false} FilterConcat(a: Listing, b: Listing, filter: NameFilter)
    ensures Filter(a + b, filter) == Filter(a, filter) + Filter(b, filter)
  {
    if a == [] {
      assert a + b == b;
    } else {
      var ab := a + b;
      assert ab[0] == a[0] && ab[1..] == a[1..] + b;
      FilterConcat(a[1..], b, filter);
      if Accepts(filter, a[0].name) {
        calc {
          Filter(ab, filter);
          [a[0]] + Filter(a[1..] + b, filter);
          [a[0]] + (Filter(a[1..], filter) + Filter(b, filter));
          ([a[0]] + Filter(a[1..], filter)) + Filter(b, filter);
        }
      } else {
        calc {
          Filter(ab, filter);
          [] + Filter(a[1..] + b, filter);
          Filter(a[1..], filter) + Filter(b, filter);
        }
      }
    }
  }

  /** The filter holds only listed entries that are kept. */
  lemma {:induction false} FilterSound(listing: Listing, filter: NameFilter)
    ensures forall t | 0 <= t < |Filter(listing, filter)| :: Accepts(filter, Filter(listing, filter)[t].name)
    ensures forall t | 0 <= t < |Filter(listing, filter)| :: Filter(listing, filter)[t] in listing
  {
    if listing != [] {
      FilterSound(listing[1..], filter);
      var head := if Accepts(filter, listing[0].name) then [listing[0]] else [];
      var r := Filter(listing, filter);
      assert r == head + Filter(listing[1..], filter);
      forall t | 0 <= t < |r| ensures r[t] in listing && Accepts(filter, r[t].name) {
        if t >= |head| {
          assert r[t] == Filter(listing[1..], filter)[t - |head|];
        }
      }
    }
  }

  /** Every entry kept is in the filter. */
  lemma {:induction false} FilterKeeps(listing: Listing, filter: NameFilter, k: nat)
    requires k < |listing| && Accepts(filter, listing[k].name)
    ensures listing[k] in Filter(listing, filter)
  {
    if k > 0 {
      assert listing[1..][k - 1] == listing[k];
      FilterKeeps(listing[1..], filter, k - 1);
    }
  }

  lemma {:induction false} FilterNoneRange(listing: Listing, lo: nat, hi: nat, filter: NameFilter)
    requires lo <= hi <= |listing|
    requires forall j | lo <= j < hi :: !Accepts(filter, listing[j].name)
    ensures Filter(listing[lo..hi], filter) == []
    decreases hi - lo
  {
    if lo < hi {
      assert listing[lo..hi][1..] == listing[lo + 1..hi];
      FilterNoneRange(listing, lo + 1, hi, filter);
    }
  }

  lemma FilterNone(listing: Listing, filter: NameFilter)
    requires forall j | 0 <= j < |listing| :: !Accepts(filter, listing[j].name)
    ensures Filter(listing, filter) == []
  {
    FilterNoneRange(listing, 0, |listing|, filter);
    assert listing[0..|listing|] == listing;
  }

  lemma {:induction false} FilterAll(listing: Listing, filter: NameFilter)
    requires forall j | 0 <= j < |listing| :: Accepts(filter, listing[j].name)
    ensures Filter(listing, filter) == listing
  {
    if listing != [] {
      assert forall j | 0 <= j < |listing[1..]| :: listing[1..][j] == listing[j + 1];
      FilterAll(listing[1..], filter);
    }
  }

  /** Splits a listing around index `k`. */
  lemma Split(listing: Listing, k: nat, filter: NameFilter)
    requires k < |listing|
    ensures listing == listing[..k] + [listing[k]] + listing[k + 1..]
    ensures Filter(listing, filter)
         == Filter(listing[..k], filter) + Filter([listing[k]], filter) + Filter(listing[k + 1..], filter)
    ensures Filter([listing[k]], filter) == if Accepts(filter, listing[k].name) then [listing[k]] else []
  {
    assert listing == listing[..k] + [listing[k]] + listing[k + 1..];
    FilterConcat(listing[..k] + [listing[k]], listing[k + 1..], filter);
    FilterConcat(listing[..k], [listing[k]], filter);
    assert [listing[k]][1..] == [];
  }

  /** When the entry at `k` is the only one kept, the filter yields it alone. */
  lemma FilterSole(listing: Listing, k: nat, filter: NameFilter)
    requires k < |listing| && Accepts(filter, listing[k].name)
    requires forall j | 0 <= j < |listing| && j != k :: !Accepts(filter, listing[j].name)
    ensures Filter(listing, filter) == [listing[k]]
  {
    Split(listing, k, filter);
    assert listing[0..k] == listing[..k] && listing[k + 1..|listing|] == listing[k + 1..];
    FilterNoneRange(listing, 0, k, filter);
    FilterNoneRange(listing, k + 1, |listing|, filter);
    assert Filter(listing, filter) == [] + [listing[k]] + [];
  }

  /** When the entry at `k` is the first one kept, the filter starts with it. */
  lemma FilterFirst(listing: Listing, k: nat, filter: NameFilter)
    requires k < |listing| && Accepts(filter, listing[k].name)
    requires forall j | 0 <= j < k :: !Accepts(filter, listing[j].name)
    ensures |Filter(listing, filter)| >= 1 && Filter(listing, filter)[0] == listing[k]
  {
    Split(listing, k, filter);
    FilterNoneRange(listing, 0, k, filter);
    assert listing[0..k] == listing[..k];
  }

  // ---------------------------------------------------------------------
  // Choosing the keys file
  // ---------------------------------------------------------------------

  /** A terms file whose locale contains `en`. */
  predicate IsEnglishTermsFile(e: Entry) {
    var m := MatchTermsFileName(e.name);
    m.Some? && IndexOf(m.value, English) != -1
  }

  /** The position of the first English terms file, if any. */
  function FirstEnglish(files: Listing): (r: Option<nat>)
    ensures r.Some? ==> r.value < |files| && IsEnglishTermsFile(files[r.value])
    ensures r.Some? ==> forall j | 0 <= j < r.value :: !IsEnglishTermsFile(files[j])
    ensures r.None? ==> forall j | 0 <= j < |files| :: !IsEnglishTermsFile(files[j])
  {
    if files == [] then None
    else if IsEnglishTermsFile(files[0]) then Some(0)
    else match FirstEnglish(files[1..])
      case None => None
      case Some(i) => Some(i + 1)
  }

  /** The first English terms file is at `i`, or there is none when `i` is
      the length. */
  lemma {:induction false} FirstEnglishAt(files: Listing, i: nat)
    requires i <= |files|
    requires forall j | 0 <= j < i :: !IsEnglishTermsFile(files[j])
    requires i < |files| ==> IsEnglishTermsFile(files[i])
    ensures FirstEnglish(files) == if i < |files| then Some(i) else None
    decreases i
  {
    if files != [] && i > 0 {
      assert !IsEnglishTermsFile(files[0]);
      forall j | 0 <= j < i - 1
        ensures !IsEnglishTermsFile(files[1..][j])
      {
        assert files[1..][j] == files[j + 1];
      }
      FirstEnglishAt(files[1..], i - 1);
    }
  }

  /** `getKeysFile`, as a value: none stands for the out-of-bounds
      `keysFiles[0]` when there is neither a sole keys candidate nor any
      terms file. */
  function SelectKeysFile(listing: Listing): (r: Option<Entry>)
    ensures r.None? <==> |KeysCandidates(listing)| != 1 && |TermsFiles(listing)| == 0
    ensures r.Some? ==> r.value in listing
    ensures r.Some? ==> IsKeysFileName(r.value.name) || IsTermsFileName(r.value.name)
  {
    KeysCandidatesExact(listing);
    TermsFilesExact(listing);
    var candidates := KeysCandidates(listing);
    if |candidates| == 1 then Some(candidates[0])
    else
      var terms := TermsFiles(listing);
      if |terms| == 1 then Some(terms[0])
      else match FirstEnglish(terms)
        case Some(i) => Some(terms[i])
        case None => if terms == [] then None else Some(terms[0])
  }

  /** `getKeysFile`: the guarded early returns and the first-match loop. */
  method GetKeysFile(listing: Listing) returns (keysFile: Option<Entry>)
    ensures keysFile == SelectKeysFile(listing)
  {
    var keysFiles := KeysCandidates(listing);
    if |keysFiles| == 1 {
      return Some(keysFiles[0]);
    }
    keysFiles := TermsFiles(listing);
    if |keysFiles| == 1 {
      return Some(keysFiles[0]);
    }
    for i := 0 to |keysFiles|
      invariant forall j | 0 <= j < i :: !IsEnglishTermsFile(keysFiles[j])
    {
      var matcher := MatchTermsFileName(keysFiles[i].name);
      if matcher.Some? && IndexOf(matcher.value, English) != -1 {
        assert IsEnglishTermsFile(keysFiles[i]);
        FirstEnglishAt(keysFiles, i);
        return Some(keysFiles[i]);
      }
    }
    FirstEnglishAt(keysFiles, |keysFiles|);
    if |keysFiles| == 0 {
      return None;
    }
    keysFile := Some(keysFiles[0]);
  }

  /** Rule 1: a sole keys candidate is chosen, whatever terms files exist. */
  lemma SelectsSoleKeysCandidate(listing: Listing, k: nat)
    requires k < |listing| && IsKeysFileName(listing[k].name)
    requires forall j | 0 <= j < |listing| && j != k :: !IsKeysFileName(listing[j].name)
    ensures SelectKeysFile(listing) == Some(listing[k])
  {
    FilterSole(listing, k, KeysFilter);
  }

  /** With both `keys` and `keys.txt` present, neither is chosen: the choice
      is the one made from the terms files alone. */
  lemma BothKeysCandidatesIgnored(listing: Listing, i: nat, j: nat)
    requires i < j < |listing|
    requires IsKeysFileName(listing[i].name) && IsKeysFileName(listing[j].name)
    ensures SelectKeysFile(listing) == SelectKeysFile(TermsFiles(listing))
  {
    var terms := TermsFiles(listing);
    assert listing == listing[..j] + listing[j..];
    FilterConcat(listing[..j], listing[j..], KeysFilter);
    assert listing[..j][i] == listing[i] && listing[j..][0] == listing[j];
    FilterKeeps(listing[..j], KeysFilter, i);
    FilterKeeps(listing[j..], KeysFilter, 0);
    assert |KeysCandidates(listing)| >= 2;
    TermsFilesExact(listing);
    forall t | 0 <= t < |terms| ensures !IsKeysFileName(terms[t].name) && IsTermsFileName(terms[t].name) {
      KeysAndTermsNamesDisjoint(terms[t].name);
    }
    FilterNone(terms, KeysFilter);
    FilterAll(terms, TermsFilter);
  }

  /** Rule 2: without a sole keys candidate, a sole terms file is chosen. */
  lemma SelectsSoleTermsFile(listing: Listing, t: nat)
    requires |KeysCandidates(listing)| != 1
    requires t < |listing| && IsTermsFileName(listing[t].name)
    requires forall j | 0 <= j < |listing| && j != t :: !IsTermsFileName(listing[j].name)
    ensures SelectKeysFile(listing) == Some(listing[t])
  {
    FilterSole(listing, t, TermsFilter);
  }

  /** Rule 3: otherwise the first terms file, in listing order, whose locale
      contains `en` is chosen. */
  lemma SelectsFirstEnglish(listing: Listing, k: nat)
    requires |KeysCandidates(listing)| != 1
    requires k < |listing| && IsEnglishTermsFile(listing[k])
    requires forall j | 0 <= j < k :: !IsEnglishTermsFile(listing[j])
    ensures SelectKeysFile(listing) == Some(listing[k])
  {
    var terms := TermsFiles(listing);
    Split(listing, k, TermsFilter);
    var before := TermsFiles(listing[..k]);
    assert terms == before + [listing[k]] + TermsFiles(listing[k + 1..]);
    assert terms[|before|] == listing[k];
    FilterSound(listing[..k], TermsFilter);
    forall j | 0 <= j < |before| ensures !IsEnglishTermsFile(terms[j]) {
      assert terms[j] == before[j] && before[j] in listing[..k];
      var m :| 0 <= m < k && listing[..k][m] == before[j];
    }
    if |terms| == 1 {
      assert before == [];
    } else {
      var r := FirstEnglish(terms);
      assert r.Some?;
      assert r.value == |before|;
    }
  }

  /** Rule 4: with no English terms file, the first terms file in listing
      order is chosen. */
  lemma SelectsFirstTermsFile(listing: Listing, k: nat)
    requires |KeysCandidates(listing)| != 1
    requires forall j | 0 <= j < |listing| :: !IsEnglishTermsFile(listing[j])
    requires k < |listing| && IsTermsFileName(listing[k].name)
    requires forall j | 0 <= j < k :: !IsTermsFileName(listing[j].name)
    ensures SelectKeysFile(listing) == Some(listing[k])
  {
    var terms := TermsFiles(listing);
    FilterFirst(listing, k, TermsFilter);
    FilterSound(listing, TermsFilter);
    forall j | 0 <= j < |terms| ensures !IsEnglishTermsFile(terms[j]) {
      var m :| 0 <= m < |listing| && listing[m] == terms[j];
    }
  }

  // ---------------------------------------------------------------------
  // The run
  // ---------------------------------------------------------------------

  datatype RunError =
    | NoTermsFiles
    | Mismatch(cause: WriteError)

  /** How a run ends: every bundle written, or an exception together with
      the bundles written before it. The bundles are listed in the order of
      their writes; `OnDisk` gives what the output folder then holds. */
  datatype RunOutcome =
    | Completed(bundles: seq<Bundle>)
    | Aborted(error: RunError, written: seq<Bundle>)
  {
    function Written(): seq<Bundle> {
      if Completed? then bundles else written
    }
  }

  /** The loop of `main` from the given terms files on, with `written` the
      bundles already written. An entry whose name does not match is
      skipped, as `main` does. */
  function WriteBundles(keys: seq<JString>, files: Listing, written: seq<Bundle>): (o: RunOutcome)
    ensures |written| <= |o.Written()| <= |written| + |files|
    ensures o.Aborted? ==> o.error.Mismatch?
    decreases |files|
  {
    if files == [] then Completed(written)
    else match MatchTermsFileName(files[0].name)
      case None => WriteBundles(keys, files[1..], written)
      case Some(locale) =>
        match Render(keys, locale, TermsList(files[0].lines))
        case Failure(e) => Aborted(Mismatch(e), written)
        case Success(b) => WriteBundles(keys, files[1..], written + [b])
  }

  /** The output folder after the given writes, as a map from bundle name
      to lines: `write` opens each bundle with a `PrintWriter`, which
      replaces a file of the same name, so the last write of a name wins. */
  function OnDisk(written: seq<Bundle>): (disk: map<JString, seq<JString>>)
    ensures forall b | b in written :: b.name in disk
    ensures forall n | n in disk :: exists j | 0 <= j < |written| :: written[j].name == n
  {
    if written == [] then map[]
    else
      var init := written[..|written| - 1];
      var rest := OnDisk(init);
      var last := written[|written| - 1];
      assert written == init + [last];
      assert forall n | n in rest :: exists j | 0 <= j < |written| :: written[j].name == n by {
        forall n | n in rest ensures exists j | 0 <= j < |written| :: written[j].name == n {
          var j :| 0 <= j < |init| && init[j].name == n;
          assert written[j] == init[j];
        }
      }
      assert written[|written| - 1].name == last.name;
      rest[last.name := last.lines]
  }

  /** A bundle is on disk with its own lines unless a later write has the
      same name. */
  lemma {:induction false} OnDiskLastWriteWins(written: seq<Bundle>, k: nat)
    requires k < |written|
    requires forall j | k < j < |written| :: written[j].name != written[k].name
    ensures OnDisk(written)[written[k].name] == written[k].lines
  {
    var init := written[..|written| - 1];
    if k < |written| - 1 {
      assert init[k] == written[k];
      forall j | k < j < |init| ensures init[j].name != init[k].name {
        assert init[j] == written[j];
      }
      OnDiskLastWriteWins(init, k);
    }
  }

  /** When the bundles have pairwise distinct names, every one of them is on
      disk with its own lines. */
  lemma OnDiskDistinct(written: seq<Bundle>)
    requires forall i, j | 0 <= i < j < |written| :: written[i].name != written[j].name
    ensures forall k | 0 <= k < |written| :: OnDisk(written)[written[k].name] == written[k].lines
  {
    forall k | 0 <= k < |written| ensures OnDisk(written)[written[k].name] == written[k].lines {
      OnDiskLastWriteWins(written, k);
    }
  }

  /** The keys of a run: the chosen keys file's lines, normalised. */
  function RunKeys(nfd: JString -> JString, listing: Listing): seq<JString>
    requires |TermsFiles(listing)| > 0
  {
    KeysList(nfd, SelectKeysFile(listing).value.lines)
  }

  /** What `main` does, as a value: it fails with nothing written exactly
      when there are no terms files. */
  function Generate(nfd: JString -> JString, listing: Listing): (o: RunOutcome)
    ensures o == Aborted(NoTermsFiles, []) <==> |TermsFiles(listing)| == 0
  {
    var terms := TermsFiles(listing);
    if |terms| == 0 then Aborted(NoTermsFiles, [])
    else WriteBundles(RunKeys(nfd, listing), terms, [])
  }

  /** `main`: checks that there are terms files, reads the keys, then
      converts the terms files one by one. */
  method Run(nfd: JString -> JString, listing: Listing) returns (outcome: RunOutcome)
    ensures outcome == Generate(nfd, listing)
  {
    var termsFiles := TermsFiles(listing);
    if |termsFiles| == 0 {
      return Aborted(NoTermsFiles, []);
    }
    var keysFile := GetKeysFile(listing);
    var keysFileReader := new TermsFileReader(keysFile.value.lines);
    var keys := keysFileReader.GetKeysList(nfd);
    var fileWriter := new PropertiesFileWriter(keys);
    var written: seq<Bundle> := [];
    for k := 0 to |termsFiles|
      invariant WriteBundles(keys, termsFiles[k..], written) == Generate(nfd, listing)
    {
      var file := termsFiles[k];
      var termsFileReader := new TermsFileReader(file.lines);
      var terms := termsFileReader.GetTermsList();
      var matcher := MatchTermsFileName(file.name);
      assert termsFiles[k..][1..] == termsFiles[k + 1..];
      if matcher.Some? {
        var r := fileWriter.Write(matcher.value, terms);
        if r.Failure? {
          return Aborted(Mismatch(r.error), written);
        }
        written := written + [r.value];
      }
    }
    outcome := Completed(written);
  }

  /** The bundle a terms file yields when its line count fits the keys. */
  function BundleOf(keys: seq<JString>, file: Entry): Bundle
    requires IsTermsFileName(file.name) && |file.lines| == |keys|
  {
    Bundle(BundleName(MatchTermsFileName(file.name).value), RenderLines(keys, TermsList(file.lines)))
  }

  /** The loop only appends: the bundles written before it come first. */
  lemma {:induction false} WriteBundlesKeepsWritten(keys: seq<JString>, files: Listing, written: seq<Bundle>)
    ensures var o := WriteBundles(keys, files, written); o.Written()[..|written|] == written
    decreases |files|
  {
    if files != [] {
      match MatchTermsFileName(files[0].name)
      case None =>
        WriteBundlesKeepsWritten(keys, files[1..], written);
      case Some(locale) =>
        match Render(keys, locale, TermsList(files[0].lines))
        case Failure(_) =>
        case Success(b) =>
          var w := written + [b];
          WriteBundlesKeepsWritten(keys, files[1..], w);
          var o := WriteBundles(keys, files[1..], w);
          assert o.Written()[..|written|] == o.Written()[..|w|][..|written|];
    }
  }

  /** The loop stops exactly at the first terms file whose line count
      differs from the keys', and only there. */
  lemma {:induction false} WriteBundlesStops(keys: seq<JString>, files: Listing, written: seq<Bundle>)
    requires forall j | 0 <= j < |files| :: IsTermsFileName(files[j].name)
    ensures var o := WriteBundles(keys, files, written);
      var n := |o.Written()| - |written|;
      && (o.Completed? <==> n == |files|)
      && (o.Aborted? ==> (n < |files| && |files[n].lines| != |keys|
                          && o.error == Mismatch(TermsKeysCountMismatch)))
    decreases |files|
  {
    if files != [] {
      var locale := MatchTermsFileName(files[0].name).value;
      var r := Render(keys, locale, TermsList(files[0].lines));
      assert forall j | 0 <= j < |files[1..]| :: IsTermsFileName(files[1..][j].name) by {
        forall j | 0 <= j < |files[1..]| ensures IsTermsFileName(files[1..][j].name) {
          assert files[1..][j] == files[j + 1];
        }
      }
      assert IsTermsFileName(files[0].name);
      if r.Failure? {
        assert WriteBundles(keys, files, written) == Aborted(Mismatch(r.error), written);
      } else {
        var w := written + [r.value];
        WriteBundlesStops(keys, files[1..], w);
        var o := WriteBundles(keys, files[1..], w);
        assert o == WriteBundles(keys, files, written);
        var n := |o.Written()| - |w|;
        if o.Aborted? {
          assert files[n + 1] == files[1..][n];
        }
      }
    }
  }

  /** Bundle `j` written by the loop is terms file `j`'s, whose line count
      fits the keys. */
  lemma {:induction false} WriteBundlesAppends(keys: seq<JString>, files: Listing, written: seq<Bundle>)
    requires forall j | 0 <= j < |files| :: IsTermsFileName(files[j].name)
    ensures var o := WriteBundles(keys, files, written);
      var n := |o.Written()| - |written|;
      forall j | 0 <= j < n :: |files[j].lines| == |keys|
                            && o.Written()[|written| + j] == BundleOf(keys, files[j])
    decreases |files|
  {
    if files != [] {
      var locale := MatchTermsFileName(files[0].name).value;
      var r := Render(keys, locale, TermsList(files[0].lines));
      assert IsTermsFileName(files[0].name);
      if r.Success? {
        assert forall j | 0 <= j < |files[1..]| :: IsTermsFileName(files[1..][j].name) by {
          forall j | 0 <= j < |files[1..]| ensures IsTermsFileName(files[1..][j].name) {
            assert files[1..][j] == files[j + 1];
          }
        }
        var w := written + [r.value];
        WriteBundlesAppends(keys, files[1..], w);
        WriteBundlesKeepsWritten(keys, files[1..], w);
        var o := WriteBundles(keys, files[1..], w);
        assert o == WriteBundles(keys, files, written);
        var n := |o.Written()| - |written|;
        assert r.value == BundleOf(keys, files[0]);
        assert o.Written()[|written|] == o.Written()[..|w|][|written|] == r.value;
        forall j | 0 <= j < n
          ensures |files[j].lines| == |keys| && o.Written()[|written| + j] == BundleOf(keys, files[j])
        {
          if j > 0 {
            assert files[j] == files[1..][j - 1];
            assert |written| + j == |w| + (j - 1);
          }
        }
      }
    }
  }

  /** The loop writes the terms files' bundles in order until the first one
      whose line count differs from the keys', and stops there. */
  lemma WriteBundlesSpec(keys: seq<JString>, files: Listing, written: seq<Bundle>)
    requires forall j | 0 <= j < |files| :: IsTermsFileName(files[j].name)
    ensures var o := WriteBundles(keys, files, written);
      var n := |o.Written()| - |written|;
      && 0 <= n <= |files|
      && o.Written()[..|written|] == written
      && (forall j | 0 <= j < n :: |files[j].lines| == |keys|
                                && o.Written()[|written| + j] == BundleOf(keys, files[j]))
      && (o.Completed? <==> n == |files|)
      && (o.Aborted? ==> (n < |files| && |files[n].lines| != |keys|
                          && o.error == Mismatch(TermsKeysCountMismatch)))
  {
    WriteBundlesKeepsWritten(keys, files, written);
    WriteBundlesStops(keys, files, written);
    WriteBundlesAppends(keys, files, written);
  }

  /** Without terms files the run fails before any keys file is chosen and
      writes nothing; no other failure reports this error. */
  lemma NoTermsFilesFailsFirst(nfd: JString -> JString, listing: Listing)
    ensures Generate(nfd, listing).Aborted? && Generate(nfd, listing).error == NoTermsFiles
        <==> forall j | 0 <= j < |listing| :: !IsTermsFileName(listing[j].name)
    ensures (forall j | 0 <= j < |listing| :: !IsTermsFileName(listing[j].name))
        ==> Generate(nfd, listing) == Aborted(NoTermsFiles, [])
  {
    var terms := TermsFiles(listing);
    if forall j | 0 <= j < |listing| :: !IsTermsFileName(listing[j].name) {
      FilterNone(listing, TermsFilter);
    } else {
      var j :| 0 <= j < |listing| && IsTermsFileName(listing[j].name);
      FilterKeeps(listing, TermsFilter, j);
      WriteBundlesSpec(RunKeys(nfd, listing), terms, []);
    }
  }

  /** A run completes exactly when there are terms files and each has as
      many lines as the keys file; then every terms file, in listing order,
      has its bundle, named for its locale, with one line per key. */
  lemma RunCompletes(nfd: JString -> JString, listing: Listing)
    ensures var terms := TermsFiles(listing);
      Generate(nfd, listing).Completed? <==>
        |terms| > 0 && forall j | 0 <= j < |terms| :: |terms[j].lines| == |SelectKeysFile(listing).value.lines|
    ensures var terms, o := TermsFiles(listing), Generate(nfd, listing);
      o.Completed? ==>
        && |o.bundles| == |terms|
        && forall j | 0 <= j < |terms| ::
             && o.bundles[j].name == BundleName(MatchTermsFileName(terms[j].name).value)
             && |o.bundles[j].lines| == |RunKeys(nfd, listing)|
             && o.bundles[j] == BundleOf(RunKeys(nfd, listing), terms[j])
  {
    var terms := TermsFiles(listing);
    if |terms| > 0 {
      WriteBundlesSpec(RunKeys(nfd, listing), terms, []);
    }
  }

  /** When a terms file's count differs, the run stops at the first such
      file; the bundles of the files before it were written. */
  lemma RunStopsAtFirstMismatch(nfd: JString -> JString, listing: Listing)
    requires Generate(nfd, listing).Aborted? && Generate(nfd, listing).error.Mismatch?
    ensures var terms, o := TermsFiles(listing), Generate(nfd, listing);
      var n := |o.written|;
      && n < |terms|
      && |terms[n].lines| != |RunKeys(nfd, listing)|
      && forall j | 0 <= j < n ::
           |terms[j].lines| == |RunKeys(nfd, listing)| && o.written[j] == BundleOf(RunKeys(nfd, listing), terms[j])
  {
    var terms := TermsFiles(listing);
    WriteBundlesSpec(RunKeys(nfd, listing), terms, []);
  }

  /** When no sole keys candidate exists, the keys come from a terms file,
      and that file is still rendered into its own bundle: each of its lines
      becomes that line as a key, ` = `, and that line as a term. */
  lemma KeysSourceAlsoRendered(nfd: JString -> JString, listing: Listing, t: nat)
    requires |KeysCandidates(listing)| != 1
    requires t < |TermsFiles(listing)| && TermsFiles(listing)[t] == SelectKeysFile(listing).value
    requires Generate(nfd, listing).Completed?
    ensures var source, o := SelectKeysFile(listing).value.lines, Generate(nfd, listing);
      t < |o.bundles| && |o.bundles[t].lines| == |source|
      && forall i | 0 <= i < |source| ::
           o.bundles[t].lines[i] == NormalizeKey(nfd, source[i]) + Separator + Encode(source[i])
  {
    RunCompletes(nfd, listing);
  }

  /** Without a sole keys candidate the keys source is one of the terms files. */
  lemma KeysSourceIsTermsFile(listing: Listing)
    requires |KeysCandidates(listing)| != 1 && |TermsFiles(listing)| > 0
    ensures SelectKeysFile(listing).value in TermsFiles(listing)
  {
  }
}
