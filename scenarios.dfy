/** Whole runs over small resources directories. */
module Scenarios {
  import opened Text
  import opened Results
  import opened Reader
  import opened Writer
  import opened Generator

  function TermsTxt(locale: JString): JString {
    TermsPrefix + locale + TxtSuffix
  }

  lemma TermsTxtIsNotKeys(locale: JString)
    requires IsLocale(locale)
    ensures IsTermsFileName(TermsTxt(locale)) && !IsKeysFileName(TermsTxt(locale))
    ensures MatchTermsFileName(TermsTxt(locale)) == Some(locale)
  {
    TermsFileNameComplete(locale);
    KeysAndTermsNamesDisjoint(TermsTxt(locale));
  }

  const Portuguese: JString := Str("pt")
  const French: JString := Str("fr")

  /** The keys come from `keys.txt`; the terms files are the other two. */
  lemma KeysFileListing(listing: Listing)
    requires |listing| == 3 && listing[0].name == KeysTxtName
    requires listing[1].name == TermsTxt(English) && listing[2].name == TermsTxt(Portuguese)
    ensures SelectKeysFile(listing) == Some(listing[0])
    ensures TermsFiles(listing) == listing[1..]
  {
    TermsTxtIsNotKeys(English);
    TermsTxtIsNotKeys(Portuguese);
    FirstIsSoleKeysCandidate(listing);
    KeysThenTwoTerms(listing);
  }

  lemma FirstIsSoleKeysCandidate(listing: Listing)
    requires |listing| == 3 && listing[0].name == KeysTxtName
    requires !IsKeysFileName(listing[1].name) && !IsKeysFileName(listing[2].name)
    ensures SelectKeysFile(listing) == Some(listing[0])
  {
    SelectsSoleKeysCandidate(listing, 0);
  }

  lemma KeysThenTwoTerms(listing: Listing)
    requires |listing| == 3 && IsKeysFileName(listing[0].name)
    requires IsTermsFileName(listing[1].name) && IsTermsFileName(listing[2].name)
    ensures TermsFiles(listing) == listing[1..]
  {
    KeysFirstThenTerms(listing);
  }

  lemma KeysFirstThenTerms(listing: Listing)
    requires |listing| >= 1 && IsKeysFileName(listing[0].name)
    requires forall j | 1 <= j < |listing| :: IsTermsFileName(listing[j].name)
    ensures TermsFiles(listing) == listing[1..]
  {
    KeysAndTermsNamesDisjoint(listing[0].name);
    assert forall j | 0 <= j < |listing[1..]| :: IsTermsFileName(listing[1..][j].name) by {
      forall j | 0 <= j < |listing[1..]| ensures IsTermsFileName(listing[1..][j].name) {
        assert listing[1..][j] == listing[j + 1];
      }
    }
    FilterAll(listing[1..], TermsFilter);
  }

  /** `keys.txt`, `terms_en.txt` and `terms_pt.txt`: the keys come from
      `keys.txt`, and `i18n_en.properties` and `i18n_pt.properties` are
      written, in that order. */
  lemma KeysFileAndTwoLocales(nfd: JString -> JString, keys: seq<JString>, en: seq<JString>, pt: seq<JString>)
    requires |en| == |keys| && |pt| == |keys|
    ensures var listing := [Entry(KeysTxtName, keys), Entry(TermsTxt(English), en), Entry(TermsTxt(Portuguese), pt)];
      var o := Generate(nfd, listing);
      && SelectKeysFile(listing) == Some(listing[0])
      && o.Completed? && |o.bundles| == 2
      && o.bundles[0].name == BundleName(English)
      && o.bundles[1].name == BundleName(Portuguese)
  {
    var listing := [Entry(KeysTxtName, keys), Entry(TermsTxt(English), en), Entry(TermsTxt(Portuguese), pt)];
    KeysFileListing(listing);
    TermsTxtIsNotKeys(English);
    TermsTxtIsNotKeys(Portuguese);
    RunCompletes(nfd, listing);
  }

  /** The keys come from `terms_en.txt`, listed second; both files are
      terms files. */
  lemma EnglishListing(listing: Listing)
    requires |listing| == 2 && listing[0].name == TermsTxt(French) && listing[1].name == TermsTxt(English)
    ensures SelectKeysFile(listing) == Some(listing[1])
    ensures TermsFiles(listing) == listing
  {
    TermsTxtIsNotKeys(English);
    TermsTxtIsNotKeys(French);
    TwoTermsFiles(listing);
    EnglishIsEnglish(listing[1]);
    FrenchIsNotEnglish(listing[0]);
    SelectsFirstEnglish(listing, 1);
  }

  lemma TwoTermsFiles(listing: Listing)
    requires |listing| == 2
    requires IsTermsFileName(listing[0].name) && !IsKeysFileName(listing[0].name)
    requires IsTermsFileName(listing[1].name) && !IsKeysFileName(listing[1].name)
    ensures KeysCandidates(listing) == [] && TermsFiles(listing) == listing
  {
    FilterNone(listing, KeysFilter);
    FilterAll(listing, TermsFilter);
  }

  lemma EnglishIsEnglish(e: Entry)
    requires e.name == TermsTxt(English)
    ensures IsEnglishTermsFile(e)
  {
    TermsTxtIsNotKeys(English);
    IndexOfFound(English, English, 0);
  }

  lemma FrenchIsNotEnglish(e: Entry)
    requires e.name == TermsTxt(French)
    ensures !IsEnglishTermsFile(e)
  {
    TermsTxtIsNotKeys(French);
    assert French[0] != English[0];
    assert !OccursAt(French, English, 0);
  }

  /** `terms_fr.txt` and `terms_en.txt` without a keys file: the keys come
      from `terms_en.txt`, and both files, that one included, get their
      bundle. */
  lemma EnglishTermsFileSuppliesKeys(nfd: JString -> JString, fr: seq<JString>, en: seq<JString>)
    requires |fr| == |en|
    ensures var listing := [Entry(TermsTxt(French), fr), Entry(TermsTxt(English), en)];
      var o := Generate(nfd, listing);
      && SelectKeysFile(listing) == Some(listing[1])
      && o.Completed? && |o.bundles| == 2
      && o.bundles[0].name == BundleName(French)
      && o.bundles[1].name == BundleName(English)
      && o.bundles[1].lines == RenderLines(KeysList(nfd, en), TermsList(en))
  {
    var listing := [Entry(TermsTxt(French), fr), Entry(TermsTxt(English), en)];
    EnglishListing(listing);
    TermsTxtIsNotKeys(English);
    TermsTxtIsNotKeys(French);
    RunCompletes(nfd, listing);
  }

  /** A keys file of three lines and a terms file of two: the run fails on
      that file with nothing written. */
  lemma CountMismatchFails(nfd: JString -> JString, keys: seq<JString>, pt: seq<JString>)
    requires |keys| == 3 && |pt| == 2
    ensures var listing := [Entry(KeysName, keys), Entry(TermsTxt(Portuguese), pt)];
      Generate(nfd, listing) == Aborted(Mismatch(TermsKeysCountMismatch), [])
  {
    var listing := [Entry(KeysName, keys), Entry(TermsTxt(Portuguese), pt)];
    TermsTxtIsNotKeys(Portuguese);
    KeysAndTermsNamesDisjoint(KeysName);
    SelectsSoleKeysCandidate(listing, 0);
    KeysFirstThenTerms(listing);
  }

  /** `terms_en` and `terms_en.txt` are both terms files for `en`. */
  lemma SameLocaleListing(listing: Listing)
    requires |listing| == 2 && listing[0].name == TermsPrefix + English && listing[1].name == TermsTxt(English)
    ensures TermsFiles(listing) == listing
    ensures MatchTermsFileName(listing[0].name) == Some(English)
    ensures MatchTermsFileName(listing[1].name) == Some(English)
  {
    TermsTxtIsNotKeys(English);
    TermsFileNameComplete(English);
    KeysAndTermsNamesDisjoint(TermsPrefix + English);
    TwoTermsFiles(listing);
  }

  /** Two writes of the same name leave the second one's lines. */
  lemma OnDiskSameNameTwice(first: Bundle, second: Bundle)
    requires first.name == second.name
    ensures OnDisk([first, second]) == map[second.name := second.lines]
  {
    assert [first, second][..1] == [first] && [first][..0] == [];
  }

  /** `terms_en` and `terms_en.txt` both capture `en`: the run writes two
      bundles of the same name, and the second replaces the first on disk. */
  lemma SameLocaleOverwrites(nfd: JString -> JString, a: seq<JString>, b: seq<JString>)
    requires |a| == |b|
    ensures var listing := [Entry(TermsPrefix + English, a), Entry(TermsTxt(English), b)];
      var o := Generate(nfd, listing);
      && o.Completed? && |o.bundles| == 2
      && o.bundles[0].name == BundleName(English) && o.bundles[1].name == BundleName(English)
      && OnDisk(o.bundles) == map[BundleName(English) := o.bundles[1].lines]
  {
    var listing := [Entry(TermsPrefix + English, a), Entry(TermsTxt(English), b)];
    SameLocaleListing(listing);
    RunCompletes(nfd, listing);
    var o := Generate(nfd, listing);
    assert o.bundles == [o.bundles[0], o.bundles[1]];
    OnDiskSameNameTwice(o.bundles[0], o.bundles[1]);
  }
}
