/** Whitespace trimming as JavaScript's String.prototype.trim does it. */
module Text {

  /** The characters trim removes: ECMAScript WhiteSpace and LineTerminator. */
  predicate IsSpace(c: char) {
    c == '\t' || c == '\n' || c == '\U{000B}' || c == '\U{000C}' || c == '\r' || c == ' '
    || c == '\U{00A0}' || c == '\U{1680}' || ('\U{2000}' <= c <= '\U{200A}')
    || c == '\U{2028}' || c == '\U{2029}' || c == '\U{202F}' || c == '\U{205F}'
    || c == '\U{3000}' || c == '\U{FEFF}'
  }

  /** Drops the leading whitespace: the result is the suffix after a blank prefix. */
  function TrimStart(s: string): (r: string)
    ensures |r| <= |s| && r == s[|s| - |r|..]
    ensures forall i | 0 <= i < |s| - |r| :: IsSpace(s[i])
    ensures r == [] || !IsSpace(r[0])
  {
    if s != [] && IsSpace(s[0]) then TrimStart(s[1..]) else s
  }

  /** Drops the trailing whitespace: the result is the prefix before a blank suffix. */
  function TrimEnd(s: string): (r: string)
    ensures |r| <= |s| && r == s[..|r|]
    ensures forall i | |r| <= i < |s| :: IsSpace(s[i])
    ensures r == [] || !IsSpace(r[|r| - 1])
  {
    if s != [] && IsSpace(s[|s| - 1]) then TrimEnd(s[..|s| - 1]) else s
  }

  /** A string with no whitespace at either end, as trim leaves it. */
  predicate Tidy(c: string) {
    c != [] && !IsSpace(c[0]) && !IsSpace(c[|c| - 1])
  }

  /** `r` sits at offset `k` of `s` with only whitespace before and after it. */
  predicate FramedBySpace(s: string, k: int, r: string) {
    0 <= k <= |s| - |r|
    && r == s[k..k + |r|]
    && (forall i | 0 <= i < k :: IsSpace(s[i]))
    && (forall i | k + |r| <= i < |s| :: IsSpace(s[i]))
  }

  /**
   * `s.trim()`: the part of `s` between a blank prefix and a blank suffix,
   * which is empty exactly when every character of `s` is whitespace and
   * otherwise starts and ends with a non-whitespace character.
   */
  function Trim(s: string): (r: string)
    ensures exists k :: FramedBySpace(s, k, r)
    ensures r == [] <==> forall i | 0 <= i < |s| :: IsSpace(s[i])
    ensures r == [] || Tidy(r)
  {
    var t := TrimStart(s);
    var r := TrimEnd(t);
    var k := |s| - |t|;
    assert FramedBySpace(s, k, r);
    if r == [] then r else assert r[0] == t[0]; r
  }

  /** JavaScript's `!s.trim()`: the string is empty once trimmed. */
  predicate IsBlank(s: string) {
    Trim(s) == []
  }

  /** Trimming a trimmed string changes nothing. */
  lemma TrimIdempotent(s: string)
    ensures Trim(Trim(s)) == Trim(s)
  {
    var r := Trim(s);
    if r != [] {
      assert TrimStart(r) == r;
      assert TrimEnd(r) == r;
    }
  }

  /** A tidy string is its own trim, and only tidy strings are trims of non-blank input. */
  lemma TidyIffOwnTrim(c: string)
    ensures Tidy(c) <==> c != [] && Trim(c) == c
  {
    if Tidy(c) {
      assert TrimStart(c) == c;
      assert TrimEnd(c) == c;
    }
  }
}
