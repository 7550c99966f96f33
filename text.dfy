/** `String.prototype.trim` and `String.prototype.length` as the engine uses them on
    comment bodies, usernames, bios and avatar URLs. */
module Text {

  /** ECMAScript WhiteSpace and LineTerminator code points: TAB, VT, FF, SP, NBSP, ZWNBSP,
      the Unicode Zs category, LF, CR, LINE SEPARATOR and PARAGRAPH SEPARATOR. */
  predicate IsJsWhitespace(c: char) {
    || c == '\t' || c == '\n' || c == '\U{000B}' || c == '\U{000C}' || c == '\r' || c == ' '
    || c == '\U{00A0}' || c == '\U{1680}' || ('\U{2000}' <= c <= '\U{200A}')
    || c == '\U{2028}' || c == '\U{2029}' || c == '\U{202F}' || c == '\U{205F}'
    || c == '\U{3000}' || c == '\U{FEFF}'
  }

  predicate AllWhitespace(s: string) { forall i :: 0 <= i < |s| ==> IsJsWhitespace(s[i]) }

  function LeadingWhitespace(s: string): (k: nat)
    ensures k <= |s|
    ensures forall i :: 0 <= i < k ==> IsJsWhitespace(s[i])
    ensures k == |s| || !IsJsWhitespace(s[k])
  {
    WhitespaceRunFrom(s, 0)
  }

  /** The end of the run of whitespace that starts at `from`. */
  function WhitespaceRunFrom(s: string, from: nat): (k: nat)
    requires from <= |s|
    ensures from <= k <= |s|
    ensures forall i :: from <= i < k ==> IsJsWhitespace(s[i])
    ensures k == |s| || !IsJsWhitespace(s[k])
    decreases |s| - from
  {
    if from < |s| && IsJsWhitespace(s[from]) then WhitespaceRunFrom(s, from + 1) else from
  }

  function TrailingWhitespaceStart(s: string): (k: nat)
    ensures k <= |s|
    ensures forall i :: k <= i < |s| ==> IsJsWhitespace(s[i])
    ensures k == 0 || !IsJsWhitespace(s[k - 1])
  {
    if |s| > 0 && IsJsWhitespace(s[|s| - 1]) then
      var k := TrailingWhitespaceStart(s[..|s| - 1]);
      assert forall i :: k <= i < |s| - 1 ==> s[i] == s[..|s| - 1][i];
      k
    else |s|
  }

  function TrimStart(s: string): string { s[LeadingWhitespace(s)..] }

  function TrimEnd(s: string): string { s[..TrailingWhitespaceStart(s)] }

  /** `s.trim()`. */
  function Trim(s: string): string { TrimEnd(TrimStart(s)) }

  /** Trim keeps the slice s[a..c] and drops only whitespace around it; the kept slice
      neither starts nor ends with whitespace. */
  function TrimBounds(s: string): (r: (nat, nat))
    ensures r.0 <= r.1 <= |s|
    ensures Trim(s) == s[r.0..r.1]
    ensures forall i :: 0 <= i < r.0 ==> IsJsWhitespace(s[i])
    ensures forall i :: r.1 <= i < |s| ==> IsJsWhitespace(s[i])
    ensures r.0 < r.1 ==> !IsJsWhitespace(s[r.0]) && !IsJsWhitespace(s[r.1 - 1])
  {
    var a := LeadingWhitespace(s);
    var t := s[a..];
    var b := TrailingWhitespaceStart(t);
    assert forall i :: a + b <= i < |s| ==> s[i] == t[i - a];
    assert b > 0 ==> s[a + b - 1] == t[b - 1];
    (a, a + b)
  }

  /** Trimming twice is trimming once. */
  lemma {:induction false} TrimIdempotent(s: string)
    ensures Trim(Trim(s)) == Trim(s)
  {
    var (a, c) := TrimBounds(s);
    var r := Trim(s);
    var (a2, c2) := TrimBounds(r);
    if a < c {
      assert a2 == 0;
      assert c2 == |r|;
    }
  }

  /** `!body.trim()` holds exactly for whitespace-only strings. */
  lemma {:induction false} TrimEmptyIff(s: string)
    ensures Trim(s) == [] <==> AllWhitespace(s)
  {
    var (a, c) := TrimBounds(s);
    if a < c {
      assert !IsJsWhitespace(s[a]);
    }
  }

  /** The number of UTF-16 code units of a code point. */
  function Utf16Units(c: char): nat {
    if c as int >= 0x10000 then 2 else 1
  }

  /** `s.length`: JavaScript strings count UTF-16 code units, so a code point outside the
      Basic Multilingual Plane (most emoji) counts twice. */
  function Utf16Length(s: string): (n: nat)
    ensures |s| <= n <= 2 * |s|
    ensures n == 0 <==> s == []
  {
    if s == [] then 0 else Utf16Length(s[..|s| - 1]) + Utf16Units(s[|s| - 1])
  }
}
