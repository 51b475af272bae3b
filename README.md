# I18NPropertiesGenerator, modelled in Dafny

I18NPropertiesGenerator turns plain-text terms files into Java `.properties`
resource bundles. Each terms file is named `terms_<locale>` or `terms_<locale>.txt`
and holds one phrase per line. The keys come from a file named `keys` or
`keys.txt` or, failing that, from one of the terms files. Each key line is
normalised into an ASCII property key, and each term line is escaped to ASCII
with `\uXXXX`. Each locale then gets a bundle `resources/output/i18n_<locale>.properties`
holding one `key = term` line per key.

The model covers the three classes that make these decisions:

- `text.dfy` (module `Text`): Java strings as sequences of UTF-16 code units,
  the ASCII range and `String.indexOf`.
- `results.dfy` (module `Results`): `Option` and `Result`, used for the
  exceptions the source throws.
- `reader.dfy` (module `Reader`): `TermsFileReader`. It contains the term
  encoder `encodeNativeToASCII` (a loop, proved against the function `Encode`),
  the key normaliser `normalizeKey`, and the reader class. The reader's
  `getTermsList` and `getKeysList` loops are proved against `TermsList` and
  `KeysList`.
- `writer.dfy` (module `Writer`): `PropertiesFileWriter`. The class holds the
  keys fixed at construction. Its `write` checks the counts, renders the lines
  in a loop and names the bundle.
- `generator.dfy` (module `Generator`): `I18NGenerator`. It holds the two
  file-name patterns with locale capture, the `listFiles` filters, the
  four-step choice of the keys file (`getKeysFile`, a method proved against
  `SelectKeysFile`) and the run of `main` (the method `Run`, proved against
  `Generate`). A run either completes with the bundles it wrote or aborts
  with its error and the bundles it wrote before the failure.
- `scenarios.dfy` (module `Scenarios`): whole runs over small directories.

The resources directory is a snapshot: its entries in listing order, each
with its lines. All three `listFiles` calls of a run see the same snapshot.
Unicode canonical decomposition (NFD) is a parameter `nfd` of the key
normaliser and of the run. Nothing is assumed about it except where a
lemma says so (`NormalizeKeyIdempotentIff` needs ASCII text to be left
alone; `NormalizePreco` needs the decomposition of `ç`).

Three observations that the proofs make precise:

- Key normalisation is not idempotent when the key contains whitespace. The
  space in each `\ ` matches `\s` again and is escaped a second time.
  `NormalizeKeyIdempotentIff` proves that a normalised key is a fixed point
  exactly when it contains no `\s` whitespace.
- With `ç` decomposed into `c` and U+0327, the line `Preço` followed by two
  spaces becomes `Preco\ \ `. The `o` stays (`NormalizePreco`).
- The term encoder does not escape a backslash. A term spelling out
  `\u00E9` and a term holding `é` therefore encode to the same text
  (`EncodeNotInjective`). Decoding gives the original back for terms without
  a backslash (`UnescapeEncode`).

The source aborts the whole run on the first count mismatch. The bundles
for the files before it were already written, and the outcome lists them.
The model does the same. It does not isolate failures per locale. When no file is named `keys` or `keys.txt` alone, the
keys come from a terms file, and that file is still rendered into its own
locale's bundle (`KeysSourceAlsoRendered`).

A run's bundles are listed in the order of their writes. Two terms files
can capture the same locale (`terms_en` and `terms_en.txt`). Both are
then written to the same bundle name, and the later write replaces the
earlier one. `OnDisk` gives what the output folder holds after the writes,
and `SameLocaleOverwrites` shows this case.

## Model

| member | source | states |
|---|---|---|
| `Text.IndexOf` | I18NPropertiesGenerator/src/pt/jsf/i18n/generator/I18NGenerator.java:87 | `indexOf`: the result is -1 or an index where the substring occurs, and the substring occurs at no earlier index |
| `Reader.EscapeDigits` | I18NPropertiesGenerator/src/pt/jsf/i18n/generator/TermsFileReader.java:109 | definition of the escape digits, `toHexString(0x10000 \| c).substring(1).toUpperCase()`; its contract states they are exactly the four base-16 digits of `c` (from the independent `Nibbles`), upper case, zero-padded, most significant first; `ParseEscapeDigits` reads them back |
| `Reader.ParseEscapeDigits` | I18NPropertiesGenerator/src/pt/jsf/i18n/generator/TermsFileReader.java:107-109 | the four escape digits are upper-case hex digits, and reading them back gives the original code unit |
| `Reader.EncodeUnit` | I18NPropertiesGenerator/src/pt/jsf/i18n/generator/TermsFileReader.java:105-109 | definition of what one code unit appends: one unit if it is below 0x80, otherwise six units starting with a backslash; always ASCII. `EncodeUnitEscape` states the escape's form |
| `Reader.Encode` | I18NPropertiesGenerator/src/pt/jsf/i18n/generator/TermsFileReader.java:100-114 | definition of `encodeNativeToASCII` as a function; its contract says nothing is dropped (never shorter than the term). Its properties are in `EncodeConcat`, `EncodeAscii`, `EncodeIsAscii`, `EncodeLength`, `UnescapeEncode` and `EncodeNotInjective` |
| `Reader.EncodeNativeToAscii` | I18NPropertiesGenerator/src/pt/jsf/i18n/generator/TermsFileReader.java:100-114 | the per-character `StringBuilder` loop builds exactly `Encode(term)` |
| `Reader.EncodeConcat` | I18NPropertiesGenerator/src/pt/jsf/i18n/generator/TermsFileReader.java:104-111 | encoding distributes over concatenation |
| `Reader.EncodeAscii` | I18NPropertiesGenerator/src/pt/jsf/i18n/generator/TermsFileReader.java:104-106 | pure-ASCII text encodes to itself |
| `Reader.EncodeUnitEscape` | I18NPropertiesGenerator/src/pt/jsf/i18n/generator/TermsFileReader.java:107-109 | a code unit at or above 0x80 becomes exactly six units: `\u` followed by four upper-case hex digits that parse back to it |
| `Reader.EncodeIsAscii` | I18NPropertiesGenerator/src/pt/jsf/i18n/generator/TermsFileReader.java:103-113 | the encoder's output is all ASCII |
| `Reader.EncodeLength` | I18NPropertiesGenerator/src/pt/jsf/i18n/generator/TermsFileReader.java:103-113 | the output length is the input length plus five per non-ASCII code unit |
| `Reader.UnescapeEncode` | I18NPropertiesGenerator/src/pt/jsf/i18n/generator/TermsFileReader.java:100-114 | for terms without a backslash, `\uXXXX` unescaping of the encoding gives back the term |
| `Reader.EncodeNotInjective` | I18NPropertiesGenerator/src/pt/jsf/i18n/generator/TermsFileReader.java:104-106 | backslashes are copied unescaped, so the literal text `\u00E9` and `é` encode alike |
| `Reader.EncodeCafe` | I18NPropertiesGenerator/src/pt/jsf/i18n/generator/TermsFileReader.java:100-114 | `café` encodes to `caf\u00E9` |
| `Reader.EscapeWhitespace` | I18NPropertiesGenerator/src/pt/jsf/i18n/generator/TermsFileReader.java:124 | definition of `replaceAll("\\s", "\\\\ ")`; its contract says nothing is dropped and the only `\s` whitespace left is the space. `EscapeAndStripUnit` and `EscapeWhitespaceGrows` state the rest |
| `Reader.RemoveNonAscii` | I18NPropertiesGenerator/src/pt/jsf/i18n/generator/TermsFileReader.java:125 | definition of `replaceAll("[^\\p{ASCII}]", "")`; its contract says the result is ASCII and no longer than the input. `EscapeAndStripUnit` and `RemoveNonAsciiOfAscii` state the rest |
| `Reader.NormalizeKey` | I18NPropertiesGenerator/src/pt/jsf/i18n/generator/TermsFileReader.java:120-126 | definition of `normalizeKey`, with NFD as the parameter `nfd`; its contract says the key is ASCII whatever NFD returns. `EscapeAndStripUnit`, `EscapeAndStripConcat`, `NormalizeKeyIdempotentIff` and `NormalizePreco` state its behaviour |
| `Reader.EscapeAndStripConcat` | I18NPropertiesGenerator/src/pt/jsf/i18n/generator/TermsFileReader.java:124-125 | the whitespace escape and the non-ASCII removal that follow NFD work code unit by code unit: they distribute over concatenation |
| `Reader.EscapeAndStripUnit` | I18NPropertiesGenerator/src/pt/jsf/i18n/generator/TermsFileReader.java:124-125 | on one code unit: each of space, tab, LF, VT, FF and CR becomes `\` and a space; other ASCII is kept; everything else is dropped, including U+00A0 |
| `Reader.NormalizeKeyIdempotentIff` | I18NPropertiesGenerator/src/pt/jsf/i18n/generator/TermsFileReader.java:120-126 | normalising a normalised key again leaves it unchanged iff it holds no `\s` whitespace, given that NFD leaves ASCII text alone |
| `Reader.NormalizePreco` | I18NPropertiesGenerator/src/pt/jsf/i18n/generator/TermsFileReader.java:120-126 | with `ç` decomposed to `c` and U+0327, `Preço` plus two spaces normalises to `Preco\ \ ` |
| `Reader.TermsList` | I18NPropertiesGenerator/src/pt/jsf/i18n/generator/TermsFileReader.java:40-49 | one term per line, in order; entry `i` is the encoding of line `i` |
| `Reader.KeysList` | I18NPropertiesGenerator/src/pt/jsf/i18n/generator/TermsFileReader.java:56-65 | one key per line, in order; entry `i` is the normalisation of line `i` |
| `Reader.TermsFileReader.constructor` | I18NPropertiesGenerator/src/pt/jsf/i18n/generator/TermsFileReader.java:27-33 | a new reader has all of the file's lines still to read |
| `Reader.TermsFileReader.ReadLine` | I18NPropertiesGenerator/src/pt/jsf/i18n/generator/TermsFileReader.java:73-76 | `readLine` yields the next line and consumes it, or yields nothing at the end |
| `Reader.TermsFileReader.GetNextTerm` | I18NPropertiesGenerator/src/pt/jsf/i18n/generator/TermsFileReader.java:72-79 | the next line, encoded, and one line consumed; nothing at the end |
| `Reader.TermsFileReader.GetNextKey` | I18NPropertiesGenerator/src/pt/jsf/i18n/generator/TermsFileReader.java:86-93 | the next line, normalised, and one line consumed; nothing at the end |
| `Reader.TermsFileReader.GetTermsList` | I18NPropertiesGenerator/src/pt/jsf/i18n/generator/TermsFileReader.java:40-49 | the `while` loop returns `TermsList` of the unread lines and leaves none unread |
| `Reader.TermsFileReader.GetKeysList` | I18NPropertiesGenerator/src/pt/jsf/i18n/generator/TermsFileReader.java:56-65 | the `while` loop returns `KeysList` of the unread lines and leaves none unread |
| `Writer.BundleName` | I18NPropertiesGenerator/src/pt/jsf/i18n/generator/PropertiesFileWriter.java:35 | definition of the bundle path `resources/output/` + `i18n_` + locale + `.properties`; its contract says the path lies in the output folder and the locale reads back unchanged from between prefix and suffix. `BundleNameInjective` follows |
| `Writer.BundleNameInjective` | I18NPropertiesGenerator/src/pt/jsf/i18n/generator/PropertiesFileWriter.java:35 | `resources/output/i18n_<locale>.properties` takes the locale verbatim, so two locales share a name iff they are equal |
| `Writer.RenderLines` | I18NPropertiesGenerator/src/pt/jsf/i18n/generator/PropertiesFileWriter.java:37-39 | one line per key; line `i` is `keys[i] + " = " + terms[i]` |
| `Writer.Render` | I18NPropertiesGenerator/src/pt/jsf/i18n/generator/PropertiesFileWriter.java:27-42 | `write` fails iff the term and key counts differ, with the one error the source throws; otherwise the bundle has the locale's name and the rendered lines |
| `Writer.PropertiesFileWriter.constructor` | I18NPropertiesGenerator/src/pt/jsf/i18n/generator/PropertiesFileWriter.java:17-19 | the writer holds the keys it was built with; the field is constant, so every `write` uses the same keys |
| `Writer.PropertiesFileWriter.Write` | I18NPropertiesGenerator/src/pt/jsf/i18n/generator/PropertiesFileWriter.java:27-42 | the size guard and the indexed loop give `Render`: on success exactly `keys.size()` lines, line `i` being key `i`, ` = `, term `i` |
| `Generator.MatchTermsFileName` | I18NPropertiesGenerator/src/pt/jsf/i18n/generator/I18NGenerator.java:23 | definition of the terms pattern with `group(1)`, as a parser; its contract says every match is `terms_` + a non-empty dot-free locale, with or without `.txt`, the locale being the captured group. `TermsFileNameComplete` and `TermsFileNameUnique` give the converse and uniqueness |
| `Generator.TermsFileNameComplete` | I18NPropertiesGenerator/src/pt/jsf/i18n/generator/I18NGenerator.java:23 | every `terms_` + non-empty dot-free locale, with or without `.txt`, matches and captures that locale |
| `Generator.TermsFileNameUnique` | I18NPropertiesGenerator/src/pt/jsf/i18n/generator/I18NGenerator.java:23 | a terms file name parses one way only: its locale and its `.txt` suffix are determined by it |
| `Generator.IsKeysFileName` | I18NPropertiesGenerator/src/pt/jsf/i18n/generator/I18NGenerator.java:24 | definition of `matches("keys(\\.txt)?$")`; its contract states the pattern's shape: the name is `keys` followed by nothing or by `.txt` |
| `Generator.KeysAndTermsNamesDisjoint` | I18NPropertiesGenerator/src/pt/jsf/i18n/generator/I18NGenerator.java:23-24 | no name matches both the keys pattern and the terms pattern |
| `Generator.TermsFiles` | I18NPropertiesGenerator/src/pt/jsf/i18n/generator/I18NGenerator.java:99-109 | `getTermsFiles` returns only entries named like terms files |
| `Generator.TermsFilesExact` | I18NPropertiesGenerator/src/pt/jsf/i18n/generator/I18NGenerator.java:99-109 | the terms files are exactly the listed entries whose name matches the terms pattern |
| `Generator.KeysCandidates` | I18NPropertiesGenerator/src/pt/jsf/i18n/generator/I18NGenerator.java:63-68 | the first `listFiles` of `getKeysFile`; its contract says every entry returned is named `keys` or `keys.txt`. `KeysCandidatesExact` gives the converse |
| `Generator.KeysCandidatesExact` | I18NPropertiesGenerator/src/pt/jsf/i18n/generator/I18NGenerator.java:63-68 | the keys candidates are exactly the listed entries named `keys` or `keys.txt` |
| `Generator.FilterConcat` | I18NPropertiesGenerator/src/pt/jsf/i18n/generator/I18NGenerator.java:102-107 | a filtered listing keeps listing order: filtering distributes over concatenation |
| `Generator.FirstEnglish` | I18NPropertiesGenerator/src/pt/jsf/i18n/generator/I18NGenerator.java:83-89 | the position of the first terms file whose locale contains `en`, with none before it; or none at all |
| `Generator.SelectKeysFile` | I18NPropertiesGenerator/src/pt/jsf/i18n/generator/I18NGenerator.java:61-92 | a keys file is chosen unless there is neither a sole keys candidate nor any terms file; the chosen file is listed and is a keys candidate or a terms file |
| `Generator.GetKeysFile` | I18NPropertiesGenerator/src/pt/jsf/i18n/generator/I18NGenerator.java:61-92 | the early returns and the first-match loop compute `SelectKeysFile` |
| `Generator.SelectsSoleKeysCandidate` | I18NPropertiesGenerator/src/pt/jsf/i18n/generator/I18NGenerator.java:70-71 | a sole keys candidate is chosen, whatever terms files exist |
| `Generator.BothKeysCandidatesIgnored` | I18NPropertiesGenerator/src/pt/jsf/i18n/generator/I18NGenerator.java:63-81 | with both `keys` and `keys.txt` present, the choice is the one made from the terms files alone |
| `Generator.SelectsSoleTermsFile` | I18NPropertiesGenerator/src/pt/jsf/i18n/generator/I18NGenerator.java:73-81 | otherwise a sole terms file is chosen |
| `Generator.SelectsFirstEnglish` | I18NPropertiesGenerator/src/pt/jsf/i18n/generator/I18NGenerator.java:83-89 | otherwise the first terms file in listing order whose locale contains `en` is chosen |
| `Generator.SelectsFirstTermsFile` | I18NPropertiesGenerator/src/pt/jsf/i18n/generator/I18NGenerator.java:91 | with no such file, the first terms file in listing order is chosen |
| `Generator.KeysSourceIsTermsFile` | I18NPropertiesGenerator/src/pt/jsf/i18n/generator/I18NGenerator.java:73-91 | without a sole keys candidate, the keys source is one of the terms files |
| `Generator.WriteBundles` | I18NPropertiesGenerator/src/pt/jsf/i18n/generator/I18NGenerator.java:41-52 | definition of `main`'s loop as a function; its contract says the loop adds at most one bundle per file and can fail only with a count mismatch. `WriteBundlesSpec` gives the full behaviour |
| `Generator.Generate` | I18NPropertiesGenerator/src/pt/jsf/i18n/generator/I18NGenerator.java:27-52 | definition of `main` as a function; its contract says the run fails with nothing written iff there are no terms files. `RunCompletes`, `RunStopsAtFirstMismatch` and `NoTermsFilesFailsFirst` give the rest |
| `Generator.Run` | I18NPropertiesGenerator/src/pt/jsf/i18n/generator/I18NGenerator.java:27-55 | `main`'s guard, keys reading and per-file loop compute `Generate` |
| `Generator.WriteBundlesKeepsWritten` | I18NPropertiesGenerator/src/pt/jsf/i18n/generator/I18NGenerator.java:41-52 | the loop only appends: the bundles written before it stay first in the outcome, unchanged |
| `Generator.WriteBundlesStops` | I18NPropertiesGenerator/src/pt/jsf/i18n/generator/I18NGenerator.java:41-52 | the loop completes iff every file's count fits; otherwise it stops at a file whose count differs, with the count-mismatch error |
| `Generator.WriteBundlesAppends` | I18NPropertiesGenerator/src/pt/jsf/i18n/generator/I18NGenerator.java:41-52 | the `j`-th bundle the loop writes is terms file `j`'s bundle, and that file's count fits the keys |
| `Generator.WriteBundlesSpec` | I18NPropertiesGenerator/src/pt/jsf/i18n/generator/I18NGenerator.java:41-52 | the loop appends one bundle per terms file, in order, until the first count mismatch; the bundles written earlier come first in the outcome, and the error is the count mismatch |
| `Generator.NoTermsFilesFailsFirst` | I18NPropertiesGenerator/src/pt/jsf/i18n/generator/I18NGenerator.java:29-32 | the run fails with no bundle written iff no listed name matches the terms pattern |
| `Generator.RunCompletes` | I18NPropertiesGenerator/src/pt/jsf/i18n/generator/I18NGenerator.java:34-52 | a run completes iff there are terms files and each has as many lines as the keys file; then terms file `j` yields bundle `j`, named for its locale, with one line per key |
| `Generator.RunStopsAtFirstMismatch` | I18NPropertiesGenerator/src/pt/jsf/i18n/generator/I18NGenerator.java:41-52 | an aborted run stopped at the first terms file whose count differs, and the bundles of the files before it were written |
| `Generator.KeysSourceAlsoRendered` | I18NPropertiesGenerator/src/pt/jsf/i18n/generator/I18NGenerator.java:34-52 | a terms file used as the keys source still gets its own bundle; line `i` is its normalised line `i`, ` = `, its encoded line `i` |
| `Generator.OnDisk` | I18NPropertiesGenerator/src/pt/jsf/i18n/generator/PropertiesFileWriter.java:35 | the output folder after a sequence of writes, as a map from name to lines; every written name is present, and only written names are |
| `Generator.OnDiskLastWriteWins` | I18NPropertiesGenerator/src/pt/jsf/i18n/generator/PropertiesFileWriter.java:35 | a `PrintWriter` on an existing name replaces it: a bundle is on disk with its own lines unless a later write has the same name |
| `Generator.OnDiskDistinct` | I18NPropertiesGenerator/src/pt/jsf/i18n/generator/I18NGenerator.java:41-52 | when the written bundles have pairwise distinct names, every one of them is on disk with its lines |
| `Scenarios.KeysFileAndTwoLocales` | I18NPropertiesGenerator/src/pt/jsf/i18n/generator/I18NGenerator.java:27-55 | `keys.txt`, `terms_en.txt`, `terms_pt.txt`: the keys come from `keys.txt`, and the `en` bundle is written, then the `pt` bundle |
| `Scenarios.EnglishTermsFileSuppliesKeys` | I18NPropertiesGenerator/src/pt/jsf/i18n/generator/I18NGenerator.java:83-89 | `terms_fr.txt`, `terms_en.txt`: the keys come from `terms_en.txt`, and both files get bundles, that one included |
| `Scenarios.SameLocaleOverwrites` | I18NPropertiesGenerator/src/pt/jsf/i18n/generator/I18NGenerator.java:23 | `terms_en` and `terms_en.txt` both capture `en`: the run writes two bundles named `i18n_en.properties`, and only the second one's lines remain on disk |
| `Scenarios.CountMismatchFails` | I18NPropertiesGenerator/src/pt/jsf/i18n/generator/PropertiesFileWriter.java:29-30 | three keys and a terms file of two lines: the run aborts with that mismatch and nothing written |

## Left out

- Directory listing (`File.listFiles`) and its platform-dependent order: the listing is an input sequence in a given order.
- Opening files, UTF-8 decoding and splitting lines (`Files.newBufferedReader`, `LineNumberReader.readLine`): each file's lines are given. I/O failures (missing file, permissions) are not modelled.
- `close()` of the reader: it has no observable effect on the model.
- Unicode canonical decomposition (`java.text.Normalizer`): a parameter `nfd`. No claim is made that keys lose their diacritics in general.
- `CharsetEncoder.canEncode`: modelled as "code unit below 0x80".
- The Java regular-expression engine: the two patterns are hand-written predicates, and the terms pattern is a parser that returns the captured locale.
- `mkdirs`, `PrintWriter` and the platform line separator `println` adds: a bundle is a name and a sequence of lines.
- The console message printed at the end of a successful run.
- `OnDisk` gives only the output folder's final contents: files that were in the folder before the run, a partly written bundle and a failed `mkdirs` are not modelled.
- `GetKeysFile`: when there is neither a sole keys candidate nor any terms file, the source's `keysFiles[0]` throws an index error; the model returns none instead. The run never reaches this, because it checks for terms files first.
