/** Java strings as sequences of UTF-16 code units, the ASCII range, and the
    two string library operations the generator relies on (`indexOf` and
    the literal constants it builds names from). */
module Text {

  /** One UTF-16 code unit, as a Java `char`. */
  type CodeUnit = u: int | 0 <= u < 0x1_0000

  /** A Java `String`: its code units in order. */
  type JString = seq<CodeUnit>

  /** A code unit that US-ASCII can encode. */
  predicate IsAsciiUnit(u: CodeUnit) {
    u < 0x80
  }

  predicate IsAscii(s: JString) {
    forall i | 0 <= i < |s| :: IsAsciiUnit(s[i])
  }

  /** The code units of an ASCII Dafny string literal. */
  function Str(s: string): (r: JString)
    requires forall i | 0 <= i < |s| :: s[i] as int < 0x80
    ensures |r| == |s| && IsAscii(r)
    ensures forall i | 0 <= i < |s| :: r[i] == s[i] as int
  {
    seq(|s|, i requires 0 <= i < |s| => s[i] as int)
  }

  lemma StrConcat(a: string, b: string)
    requires forall i | 0 <= i < |a| :: a[i] as int < 0x80
    requires forall i | 0 <= i < |b| :: b[i] as int < 0x80
    ensures forall i | 0 <= i < |a + b| :: (a + b)[i] as int < 0x80
    ensures Str(a + b) == Str(a) + Str(b)
  {
    assert forall i | 0 <= i < |a + b| :: (a + b)[i] == if i < |a| then a[i] else b[i - |a|];
  }

  const Backslash: CodeUnit := 0x5C
  const Space: CodeUnit := 0x20
  const Dot: CodeUnit := 0x2E

  lemma AsciiConcat(a: JString, b: JString)
    ensures IsAscii(a + b) <==> IsAscii(a) && IsAscii(b)
  {
    if IsAscii(a) && IsAscii(b) {
      forall i | 0 <= i < |a + b| ensures IsAsciiUnit((a + b)[i]) {
        if i >= |a| { assert (a + b)[i] == b[i - |a|]; }
      }
    }
    if IsAscii(a + b) {
      forall i | 0 <= i < |a| ensures IsAsciiUnit(a[i]) {
        assert (a + b)[i] == a[i];
      }
      forall i | 0 <= i < |b| ensures IsAsciiUnit(b[i]) {
        assert (a + b)[|a| + i] == b[i];
      }
    }
  }

  /** `sub` occurs in `s` starting at index `j`. */
  predicate OccursAt(s: JString, sub: JString, j: int) {
    0 <= j && j + |sub| <= |s| && s[j..j + |sub|] == sub
  }

  /** `s.indexOf(sub, from)`: the first index at or after `from` where `sub`
      occurs, or -1 when there is none. */
  function IndexOfFrom(s: JString, sub: JString, from: nat): (r: int)
    ensures r == -1 || (from <= r && OccursAt(s, sub, r))
    ensures forall j | from <= j < (if r == -1 then |s| + 1 else r) :: !OccursAt(s, sub, j)
    decreases |s| + 1 - from
  {
    if from + |sub| > |s| then -1
    else if OccursAt(s, sub, from) then from
    else IndexOfFrom(s, sub, from + 1)
  }

  /** `s.indexOf(sub)`. */
  function IndexOf(s: JString, sub: JString): (r: int)
    ensures r == -1 || OccursAt(s, sub, r)
    ensures forall j | 0 <= j < (if r == -1 then |s| + 1 else r) :: !OccursAt(s, sub, j)
  {
    IndexOfFrom(s, sub, 0)
  }

  /** `s.indexOf(sub) != -1`, stated without the index. */
  lemma IndexOfFound(s: JString, sub: JString, j: int)
    requires OccursAt(s, sub, j)
    ensures IndexOf(s, sub) != -1 && IndexOf(s, sub) <= j
  {
  }
}
