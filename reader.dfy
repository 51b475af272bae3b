/** The two line normalisers of the terms-file reader and the reader itself:
    term lines are escaped to ASCII with `\uXXXX` (the convention of Java
    `.properties` values), key lines are decomposed, have their whitespace
    escaped and their non-ASCII code units removed. */
module Reader {
  import opened Text
  import opened Results

  // ---------------------------------------------------------------------
  // Hexadecimal digits of the `\uXXXX` escape
  // ---------------------------------------------------------------------

  /** A digit as `Integer.toHexString` writes it: `0`-`9`, `a`-`f`. */
  function LowerHexDigit(d: int): CodeUnit
    requires 0 <= d < 16
  {
    if d < 10 then 0x30 + d else 0x61 + (d - 10)
  }

  /** A digit as it stands in the escape: `0`-`9`, `A`-`F`. */
  function UpperHexDigit(d: int): CodeUnit
    requires 0 <= d < 16
  {
    if d < 10 then 0x30 + d else 0x41 + (d - 10)
  }

  predicate IsUpperHexDigit(u: CodeUnit) {
    0x30 <= u <= 0x39 || 0x41 <= u <= 0x46
  }

  /** `Integer.toHexString(n)` for a non-negative `n`: lower-case digits,
      most significant first, no leading zeros. */
  function ToHexString(n: nat): (r: JString)
    ensures |r| >= 1
  {
    if n < 16 then [LowerHexDigit(n)]
    else ToHexString(n / 16) + [LowerHexDigit(n % 16)]
  }

  /** `String.toUpperCase` on text made of ASCII code units, the only text it
      is applied to here. */
  function ToUpperAscii(s: JString): (r: JString)
    ensures |r| == |s|
    ensures forall i | 0 <= i < |s| :: r[i] == if 0x61 <= s[i] <= 0x7A then s[i] - 0x20 else s[i]
  {
    seq(|s|, i requires 0 <= i < |s| => if 0x61 <= s[i] <= 0x7A then s[i] - 0x20 else s[i])
  }

  /** The value of one hex digit of a `\uXXXX` escape, either case. */
  function HexValue(u: CodeUnit): (r: Option<nat>)
    ensures r.Some? ==> r.value < 16
  {
    if 0x30 <= u <= 0x39 then Some(u - 0x30)
    else if 0x41 <= u <= 0x46 then Some(u - 0x41 + 10)
    else if 0x61 <= u <= 0x66 then Some(u - 0x61 + 10)
    else None
  }

  /** The code unit denoted by four hex digits, most significant first. */
  function ParseHex4(s: JString): Option<CodeUnit> {
    if |s| == 4 && HexValue(s[0]).Some? && HexValue(s[1]).Some?
       && HexValue(s[2]).Some? && HexValue(s[3]).Some?
    then Some(HexValue(s[0]).value * 0x1000 + HexValue(s[1]).value * 0x100
              + HexValue(s[2]).value * 0x10 + HexValue(s[3]).value)
    else None
  }

  lemma ToHexStringStep(q: nat, d: nat)
    requires q >= 1 && d < 16
    ensures ToHexString(16 * q + d) == ToHexString(q) + [LowerHexDigit(d)]
  {
    assert (16 * q + d) / 16 == q && (16 * q + d) % 16 == d;
  }

  /** The base-16 digits of a code unit, most significant first. */
  function Nibbles(c: CodeUnit): (r: seq<nat>)
    ensures |r| == 4 && r[0] < 16 && r[1] < 16 && r[2] < 16 && r[3] < 16
    ensures c == 0x1000 * r[0] + 0x100 * r[1] + 0x10 * r[2] + r[3]
  {
    var q1 := c / 16;
    var q2 := q1 / 16;
    [q2 / 16, q2 % 16, q1 % 16, c % 16]
  }

  /** `0x10000 | c` in base 16 is a `1` followed by the four digits of `c`. */
  lemma TaggedHexString(c: CodeUnit)
    ensures var n := Nibbles(c);
      ToHexString(0x1_0000 + c)
      == [LowerHexDigit(1), LowerHexDigit(n[0]), LowerHexDigit(n[1]), LowerHexDigit(n[2]), LowerHexDigit(n[3])]
  {
    var n := Nibbles(c);
    var q3 := 16 + n[0];
    var q2 := 16 * q3 + n[1];
    var q1 := 16 * q2 + n[2];
    assert 0x1_0000 + c == 16 * q1 + n[3];
    ToHexStringStep(1, n[0]);
    ToHexStringStep(q3, n[1]);
    ToHexStringStep(q2, n[2]);
    ToHexStringStep(q1, n[3]);
  }

  /** The digits written after `\u` for code unit `c`:
      `Integer.toHexString(0x10000 | c).substring(1).toUpperCase()`.
      Bit 16 of a code unit is clear, so the `|` is an addition. They are
      exactly the four base-16 digits of `c`, upper case, zero-padded, most
      significant first. */
  function EscapeDigits(c: CodeUnit): (r: JString)
    ensures var n := Nibbles(c);
      r == [UpperHexDigit(n[0]), UpperHexDigit(n[1]), UpperHexDigit(n[2]), UpperHexDigit(n[3])]
  {
    TaggedHexString(c);
    ToUpperAscii(ToHexString(0x1_0000 + c)[1..])
  }

  /** Reading the four escape digits back gives the original code unit. */
  lemma ParseEscapeDigits(c: CodeUnit)
    ensures ParseHex4(EscapeDigits(c)) == Some(c)
    ensures forall i | 0 <= i < 4 :: IsUpperHexDigit(EscapeDigits(c)[i])
  {
    var n := Nibbles(c);
    assert HexValue(UpperHexDigit(n[0])) == Some(n[0]);
    assert HexValue(UpperHexDigit(n[1])) == Some(n[1]);
    assert HexValue(UpperHexDigit(n[2])) == Some(n[2]);
    assert HexValue(UpperHexDigit(n[3])) == Some(n[3]);
  }

  // ---------------------------------------------------------------------
  // Term mode: encodeNativeToASCII
  // ---------------------------------------------------------------------

  /** `\u`, the start of an escape. */
  const EscapeStart: JString := [Backslash, 0x75]

  /** What the encoder appends for one code unit: the unit itself when it
      is ASCII, otherwise a six-unit escape that starts with a backslash.
      Either way the result is ASCII. */
  function EncodeUnit(c: CodeUnit): (r: JString)
    ensures |r| == if IsAsciiUnit(c) then 1 else 6
    ensures r[0] == if IsAsciiUnit(c) then c else Backslash
    ensures IsAscii(r)
  {
    if IsAsciiUnit(c) then [c] else EscapeStart + EscapeDigits(c)
  }

  /** The term-mode normaliser: every code unit that US-ASCII can encode is
      copied, every other one is replaced by its `\uXXXX` escape. Nothing is
      dropped, so the encoding is never shorter than the term. */
  function Encode(s: JString): (r: JString)
    ensures |r| >= |s|
  {
    if s == [] then [] else EncodeUnit(s[0]) + Encode(s[1..])
  }

  /** `encodeNativeToASCII`: builds the encoding one code unit at a time. */
  method EncodeNativeToAscii(term: JString) returns (result: JString)
    ensures result == Encode(term)
  {
    result := [];
    for i := 0 to |term|
      invariant result == Encode(term[..i])
    {
      var character := term[i];
      ghost var before := result;
      if IsAsciiUnit(character) {
        result := result + [character];
        assert [character] == EncodeUnit(character);
      } else {
        var digits := EscapeDigits(character);
        result := result + EscapeStart;
        result := result + digits;
        assert result == before + (EscapeStart + digits);
        assert EscapeStart + digits == EncodeUnit(character);
      }
      assert term[..i + 1] == term[..i] + [character];
      EncodeSnoc(term[..i], character);
    }
    assert term[..|term|] == term;
  }

  /** Encoding distributes over concatenation. */
  lemma {:induction false} EncodeConcat(a: JString, b: JString)
    ensures Encode(a + b) == Encode(a) + Encode(b)
  {
    if a == [] {
      assert a + b == b;
    } else {
      var head := EncodeUnit(a[0]);
      assert (a + b)[0] == a[0] && (a + b)[1..] == a[1..] + b;
      EncodeConcat(a[1..], b);
      assert Encode(a + b) == head + Encode(a[1..] + b);
    }
  }

  lemma EncodeSnoc(s: JString, c: CodeUnit)
    ensures Encode(s + [c]) == Encode(s) + EncodeUnit(c)
  {
    EncodeConcat(s, [c]);
    assert [c][1..] == [];
    assert Encode([c]) == EncodeUnit(c) + Encode([]);
  }

  /** Pure-ASCII text is its own encoding. */
  lemma {:induction false} EncodeAscii(s: JString)
    requires IsAscii(s)
    ensures Encode(s) == s
  {
    if s != [] {
      EncodeAscii(s[1..]);
    }
  }

  /** The encoding of a code unit outside ASCII is `\u` followed by four
      upper-case hex digits that read back as that code unit. */
  lemma EncodeUnitEscape(c: CodeUnit)
    requires !IsAsciiUnit(c)
    ensures var e := Encode([c]);
      && |e| == 6 && e[0] == Backslash && e[1] == 0x75
      && (forall i | 2 <= i < 6 :: IsUpperHexDigit(e[i]))
      && ParseHex4(e[2..]) == Some(c)
  {
    ParseEscapeDigits(c);
    assert Encode([c]) == EncodeUnit(c) + Encode([]);
    assert Encode([c])[2..] == EscapeDigits(c);
  }

  /** The encoding is all ASCII. */
  lemma {:induction false} EncodeIsAscii(s: JString)
    ensures IsAscii(Encode(s))
  {
    if s != [] {
      EncodeIsAscii(s[1..]);
      AsciiConcat(EncodeUnit(s[0]), Encode(s[1..]));
    }
  }

  /** The number of code units that US-ASCII cannot encode. */
  function NonAsciiCount(s: JString): nat {
    if s == [] then 0 else (if IsAsciiUnit(s[0]) then 0 else 1) + NonAsciiCount(s[1..])
  }

  /** Each escaped code unit grows by five. */
  lemma {:induction false} EncodeLength(s: JString)
    ensures |Encode(s)| == |s| + 5 * NonAsciiCount(s)
  {
    if s != [] {
      EncodeLength(s[1..]);
    }
  }

  /** The `\uXXXX` unescaping of a `.properties` loader: `\uXXXX` is one
      code unit, everything else stands for itself. The loader's other
      backslash escapes and its trimming of leading whitespace are not part
      of this model. */
  function Unescape(s: JString): JString
    decreases |s|
  {
    if |s| >= 6 && s[0] == Backslash && s[1] == 0x75 && ParseHex4(s[2..6]).Some?
    then [ParseHex4(s[2..6]).value] + Unescape(s[6..])
    else if s == [] then []
    else [s[0]] + Unescape(s[1..])
  }

  /** For terms without a backslash the encoding loses nothing: reading it
      back gives the original line. */
  lemma {:induction false} UnescapeEncode(s: JString)
    requires forall i | 0 <= i < |s| :: s[i] != Backslash
    ensures Unescape(Encode(s)) == s
  {
    if s != [] {
      var c, rest := s[0], Encode(s[1..]);
      UnescapeEncode(s[1..]);
      if IsAsciiUnit(c) {
        assert ([c] + rest)[1..] == rest;
      } else {
        var e := EncodeUnit(c) + rest;
        EncodeUnitEscape(c);
        assert Encode([c]) == EncodeUnit(c) + Encode([]);
        assert e[2..6] == EscapeDigits(c) && e[0] == Backslash && e[1] == 0x75;
        assert e[6..] == rest;
      }
    }
  }

  /** A backslash in a term is not escaped, so a term that spells out an
      escape and the character it names encode alike. */
  lemma EncodeNotInjective()
    ensures Str("\\u00E9") != [0xE9] && Encode(Str("\\u00E9")) == Encode([0xE9])
  {
    EncodeAscii(Str("\\u00E9"));
    EncodeE9();
  }

  /** `é`, U+00E9, becomes `\u00E9`. */
  lemma EncodeE9()
    ensures Encode([0xE9]) == Str("\\u00E9")
  {
    assert Nibbles(0xE9) == [0, 0, 14, 9];
    assert EscapeDigits(0xE9) == [0x30, 0x30, 0x45, 0x39];
    assert Encode([0xE9]) == EncodeUnit(0xE9) + Encode([]);
    assert Str("\\u00E9") == [0x5C, 0x75, 0x30, 0x30, 0x45, 0x39];
  }

  /** Worked example: `café` becomes `caf\u00E9`. */
  lemma EncodeCafe()
    ensures Encode(Str("caf") + [0xE9]) == Str("caf\\u00E9")
  {
    EncodeConcat(Str("caf"), [0xE9]);
    EncodeAscii(Str("caf"));
    EncodeE9();
    StrConcat("caf", "\\u00E9");
    assert "caf" + "\\u00E9" == "caf\\u00E9";
  }

  // ---------------------------------------------------------------------
  // Key mode: normalizeKey
  // ---------------------------------------------------------------------

  /** The code units the regular expression `\s` matches: space, tab, line
      feed, vertical tab, form feed and carriage return. */
  predicate IsRegexSpace(u: CodeUnit) {
    u == 0x20 || u == 0x09 || u == 0x0A || u == 0x0B || u == 0x0C || u == 0x0D
  }

  /** `replaceAll("\\s", "\\\\ ")`: each whitespace code unit becomes a
      backslash followed by a space. Afterwards the only whitespace left is
      the space, and nothing has been dropped. */
  function EscapeWhitespace(s: JString): (r: JString)
    ensures |r| >= |s|
    ensures forall i | 0 <= i < |r| :: IsRegexSpace(r[i]) ==> r[i] == Space
  {
    if s == [] then []
    else (if IsRegexSpace(s[0]) then [Backslash, Space] else [s[0]]) + EscapeWhitespace(s[1..])
  }

  /** `replaceAll("[^\\p{ASCII}]", "")`: every code unit outside ASCII is
      deleted, so what is left is ASCII and no longer than the input. */
  function RemoveNonAscii(s: JString): (r: JString)
    ensures IsAscii(r) && |r| <= |s|
  {
    if s == [] then []
    else (if IsAsciiUnit(s[0]) then [s[0]] else []) + RemoveNonAscii(s[1..])
  }

  /** The two steps that follow the decomposition. */
  function EscapeAndStrip(s: JString): JString {
    RemoveNonAscii(EscapeWhitespace(s))
  }

  /** The key-mode normaliser. `nfd` is Unicode canonical decomposition
      (`Normalizer.normalize(_, Normalizer.Form.NFD)`), whose tables are not
      part of this model. Whatever it returns, the key is ASCII. */
  function NormalizeKey(nfd: JString -> JString, key: JString): (r: JString)
    ensures IsAscii(r)
  {
    EscapeAndStrip(nfd(key))
  }

  lemma {:induction false} EscapeWhitespaceConcat(a: JString, b: JString)
    ensures EscapeWhitespace(a + b) == EscapeWhitespace(a) + EscapeWhitespace(b)
  {
    if a == [] {
      assert a + b == b;
    } else {
      var head := if IsRegexSpace(a[0]) then [Backslash, Space] else [a[0]];
      assert (a + b)[0] == a[0] && (a + b)[1..] == a[1..] + b;
      EscapeWhitespaceConcat(a[1..], b);
      assert EscapeWhitespace(a + b) == head + EscapeWhitespace(a[1..] + b);
    }
  }

  lemma {:induction false} RemoveNonAsciiConcat(a: JString, b: JString)
    ensures RemoveNonAscii(a + b) == RemoveNonAscii(a) + RemoveNonAscii(b)
  {
    if a == [] {
      assert a + b == b;
    } else {
      var head := if IsAsciiUnit(a[0]) then [a[0]] else [];
      assert (a + b)[0] == a[0] && (a + b)[1..] == a[1..] + b;
      RemoveNonAsciiConcat(a[1..], b);
      assert RemoveNonAscii(a + b) == head + RemoveNonAscii(a[1..] + b);
    }
  }

  /** The steps after decomposition work one code unit at a time ... */
  lemma EscapeAndStripConcat(a: JString, b: JString)
    ensures EscapeAndStrip(a + b) == EscapeAndStrip(a) + EscapeAndStrip(b)
  {
    EscapeWhitespaceConcat(a, b);
    RemoveNonAsciiConcat(EscapeWhitespace(a), EscapeWhitespace(b));
  }

  /** ... and on one code unit they escape `\s` whitespace, keep other ASCII
      and drop everything else, including whitespace outside ASCII such as
      U+00A0, which `\s` does not match. */
  lemma EscapeAndStripUnit(u: CodeUnit)
    ensures EscapeAndStrip([u]) ==
      if IsRegexSpace(u) then [Backslash, Space]
      else if IsAsciiUnit(u) then [u]
      else []
  {
    assert [u][1..] == [];
    assert EscapeWhitespace([u]) == (if IsRegexSpace(u) then [Backslash, Space] else [u]) + EscapeWhitespace([]);
    if IsRegexSpace(u) {
      assert [Backslash, Space][1..] == [Space] && [Space][1..] == [];
      assert RemoveNonAscii([Space]) == [Space] + RemoveNonAscii([]);
      assert RemoveNonAscii([Backslash, Space]) == [Backslash] + RemoveNonAscii([Space]);
      assert EscapeWhitespace([u]) == [Backslash, Space];
    } else {
      assert RemoveNonAscii([u]) == (if IsAsciiUnit(u) then [u] else []) + RemoveNonAscii([]);
    }
  }

  lemma {:induction false} RemoveNonAsciiOfAscii(s: JString)
    requires IsAscii(s)
    ensures RemoveNonAscii(s) == s
  {
    if s != [] {
      RemoveNonAsciiOfAscii(s[1..]);
    }
  }

  predicate HasRegexSpace(s: JString) {
    exists i | 0 <= i < |s| :: IsRegexSpace(s[i])
  }

  /** Escaping leaves text without whitespace as it is and makes text with
      whitespace strictly longer. */
  lemma {:induction false} EscapeWhitespaceGrows(s: JString)
    ensures !HasRegexSpace(s) ==> EscapeWhitespace(s) == s
    ensures HasRegexSpace(s) ==> |EscapeWhitespace(s)| > |s|
    ensures |EscapeWhitespace(s)| >= |s|
    ensures IsAscii(s) ==> IsAscii(EscapeWhitespace(s))
  {
    if s != [] {
      EscapeWhitespaceGrows(s[1..]);
      var head := if IsRegexSpace(s[0]) then [Backslash, Space] else [s[0]];
      AsciiConcat(head, EscapeWhitespace(s[1..]));
      if HasRegexSpace(s) && !IsRegexSpace(s[0]) {
        var i :| 0 <= i < |s| && IsRegexSpace(s[i]);
        assert s[1..][i - 1] == s[i];
      }
      if !HasRegexSpace(s) {
        assert !IsRegexSpace(s[0]);
        forall i | 0 <= i < |s[1..]| ensures !IsRegexSpace(s[1..][i]) {
          assert s[1..][i] == s[i + 1];
        }
      }
      if IsAscii(s) {
        assert IsAscii(s[1..]) by {
          forall i | 0 <= i < |s[1..]| ensures IsAsciiUnit(s[1..][i]) {
            assert s[1..][i] == s[i + 1];
          }
        }
      }
    }
  }

  /** Normalising a key a second time changes it exactly when it contains
      whitespace: the space of each `\ ` is escaped again. This assumes only
      that decomposition leaves ASCII text alone. */
  lemma NormalizeKeyIdempotentIff(nfd: JString -> JString, key: JString)
    requires forall s :: IsAscii(s) ==> nfd(s) == s
    ensures var k := NormalizeKey(nfd, key);
      NormalizeKey(nfd, k) == k <==> !HasRegexSpace(k)
  {
    var k := NormalizeKey(nfd, key);
    assert nfd(k) == k;
    EscapeWhitespaceGrows(k);
    RemoveNonAsciiOfAscii(EscapeWhitespace(k));
  }

  /** Worked example: with a decomposition that splits `ç` into `c` and
      U+0327, `Preço` followed by two spaces becomes `Preco\ \ `. */
  lemma NormalizePreco(nfd: JString -> JString)
    requires nfd(Str("Pre") + [0xE7] + Str("o  ")) == Str("Prec") + [0x0327] + Str("o  ")
    ensures NormalizeKey(nfd, Str("Pre") + [0xE7] + Str("o  ")) == Str("Preco\\ \\ ")
  {
    EscapeAndStripPreco();
  }

  /** The decomposed key `Prec`, U+0327, `o` and two spaces, escaped and
      stripped. */
  lemma EscapeAndStripPreco()
    ensures EscapeAndStrip(Str("Prec") + [0x0327] + Str("o  ")) == Str("Preco\\ \\ ")
  {
    var prec, tail, escaped := Str("Prec"), Str("o  "), Str("o\\ \\ ");
    EscapeAndStripPrec();
    EscapeTrailingSpaces();
    DropCombiningMark(prec, 0x0327, tail, prec, escaped);
    PrecoConcat();
  }

  /** `Prec` followed by `o\ \ ` spells `Preco\ \ `. */
  lemma PrecoConcat()
    ensures Str("Prec") + Str("o\\ \\ ") == Str("Preco\\ \\ ")
  {
    StrConcat("Prec", "o\\ \\ ");
  }

  /** A combining mark between two pieces is dropped, and each piece is
      escaped on its own. */
  lemma DropCombiningMark(left: JString, mark: CodeUnit, right: JString, left': JString, right': JString)
    requires !IsAsciiUnit(mark) && EscapeAndStrip(left) == left' && EscapeAndStrip(right) == right'
    ensures EscapeAndStrip(left + [mark] + right) == left' + right'
  {
    EscapeAndStripConcat(left + [mark], right);
    EscapeAndStripConcat(left, [mark]);
    EscapeAndStripUnit(mark);
  }

  lemma EscapeAndStripPrec()
    ensures EscapeAndStrip(Str("Prec")) == Str("Prec")
  {
    var prec := Str("Prec");
    assert !HasRegexSpace(prec);
    EscapeWhitespaceGrows(prec);
    RemoveNonAsciiOfAscii(prec);
  }

  lemma EscapeTrailingSpaces()
    ensures EscapeAndStrip(Str("o  ")) == Str("o\\ \\ ")
  {
    var o, sp := [0x6F], [Space];
    assert Str("o  ") == o + sp + sp;
    EscapeAndStripUnit(0x6F);
    EscapeAndStripUnit(Space);
    assert EscapeAndStrip(o) == o;
    assert EscapeAndStrip(sp) == [Backslash, Space];
    EscapeAndStripConcat(o, sp);
    EscapeAndStripConcat(o + sp, sp);
    assert EscapeAndStrip(o + sp + sp) == o + [Backslash, Space] + [Backslash, Space];
    assert Str("o\\ \\ ") == [0x6F, Backslash, Space, Backslash, Space];
  }

  // ---------------------------------------------------------------------
  // Reading whole files
  // ---------------------------------------------------------------------

  /** What `getTermsList` returns for the given lines. */
  function TermsList(lines: seq<JString>): (r: seq<JString>)
    ensures |r| == |lines|
    ensures forall i | 0 <= i < |lines| :: r[i] == Encode(lines[i])
  {
    if lines == [] then [] else [Encode(lines[0])] + TermsList(lines[1..])
  }

  /** What `getKeysList` returns for the given lines. */
  function KeysList(nfd: JString -> JString, lines: seq<JString>): (r: seq<JString>)
    ensures |r| == |lines|
    ensures forall i | 0 <= i < |lines| :: r[i] == NormalizeKey(nfd, lines[i])
  {
    if lines == [] then [] else [NormalizeKey(nfd, lines[0])] + KeysList(nfd, lines[1..])
  }

  /** A reader over the lines of one file. Opening, decoding UTF-8 and
      splitting lines are not part of this model: the reader is given the
      lines, and `remaining` holds those `readLine` has not returned yet. */
  class TermsFileReader {
    var remaining: seq<JString>

    constructor (lines: seq<JString>)
      ensures remaining == lines
    {
      remaining := lines;
    }

    /** `LineNumberReader.readLine`: the next line, or none at the end. */
    method ReadLine() returns (line: Option<JString>)
      modifies this
      ensures old(remaining) == [] ==> line == None && remaining == []
      ensures old(remaining) != [] ==> line == Some(old(remaining)[0]) && remaining == old(remaining)[1..]
    {
      if remaining == [] {
        line := None;
      } else {
        line := Some(remaining[0]);
        remaining := remaining[1..];
      }
    }

    /** `getNextTerm`: the next line in term mode. */
    method GetNextTerm() returns (term: Option<JString>)
      modifies this
      ensures old(remaining) == [] ==> term == None && remaining == []
      ensures old(remaining) != [] ==> term == Some(Encode(old(remaining)[0])) && remaining == old(remaining)[1..]
    {
      var line := ReadLine();
      if line == None {
        return None;
      }
      var encoded := EncodeNativeToAscii(line.value);
      term := Some(encoded);
    }

    /** `getNextKey`: the next line in key mode. */
    method GetNextKey(nfd: JString -> JString) returns (key: Option<JString>)
      modifies this
      ensures old(remaining) == [] ==> key == None && remaining == []
      ensures old(remaining) != [] ==> key == Some(NormalizeKey(nfd, old(remaining)[0])) && remaining == old(remaining)[1..]
    {
      var line := ReadLine();
      if line == None {
        return None;
      }
      key := Some(NormalizeKey(nfd, line.value));
    }

    /** `getTermsList`: all remaining lines in term mode, in order. */
    method GetTermsList() returns (termsList: seq<JString>)
      modifies this
      ensures termsList == TermsList(old(remaining)) && remaining == []
    {
      termsList := [];
      ghost var all := TermsList(remaining);
      while true
        invariant termsList + TermsList(remaining) == all
        decreases |remaining|
      {
        ghost var before := remaining;
        var term := GetNextTerm();
        if term == None {
          assert termsList == all;
          return;
        }
        termsList := termsList + [term.value];
        assert TermsList(before) == [term.value] + TermsList(remaining);
      }
    }

    /** `getKeysList`: all remaining lines in key mode, in order. */
    method GetKeysList(nfd: JString -> JString) returns (keysList: seq<JString>)
      modifies this
      ensures keysList == KeysList(nfd, old(remaining)) && remaining == []
    {
      keysList := [];
      ghost var all := KeysList(nfd, remaining);
      while true
        invariant keysList + KeysList(nfd, remaining) == all
        decreases |remaining|
      {
        ghost var before := remaining;
        var key := GetNextKey(nfd);
        if key == None {
          assert keysList == all;
          return;
        }
        keysList := keysList + [key.value];
        assert KeysList(nfd, before) == [key.value] + KeysList(nfd, remaining);
      }
    }
  }
}
