/** The two `str` methods that `WWW.ext` applies to the extension:
    `lower()` (over ASCII letters) and `strip(chars)` for one character. */
module Text {

  predicate IsUpper(ch: char) {
    'A' <= ch <= 'Z'
  }

  /** Lower-case of one character: upper-case ASCII letters move down by 32,
      everything else is left alone. */
  function LowerChar(ch: char): (r: char)
    ensures !IsUpper(r)
    ensures IsUpper(ch) <==> r != ch
    ensures IsUpper(ch) ==> r as int == ch as int + 32
  {
    if IsUpper(ch) then (ch as int + 32) as char else ch
  }

  /** `s.lower()`: same length, each character lowered on its own. */
  function Lower(s: string): (r: string)
    ensures |r| == |s|
    ensures forall i :: 0 <= i < |s| ==> r[i] == LowerChar(s[i])
  {
    if s == [] then [] else [LowerChar(s[0])] + Lower(s[1..])
  }

  /** Text that is already lower-case is a fixed point of Lower. */
  lemma LowerOfLower(s: string)
    requires forall i :: 0 <= i < |s| ==> !IsUpper(s[i])
    ensures Lower(s) == s
  {
  }

  /** Number of copies of `c` that open `s`. */
  function LeadingCount(s: string, c: char): (n: nat)
    ensures n <= |s|
    ensures forall k :: 0 <= k < n ==> s[k] == c
    ensures n < |s| ==> s[n] != c
  {
    if s == [] || s[0] != c then 0 else 1 + LeadingCount(s[1..], c)
  }

  /** Number of copies of `c` that close `s`. */
  function TrailingCount(s: string, c: char): (n: nat)
    ensures n <= |s|
    ensures forall k :: |s| - n <= k < |s| ==> s[k] == c
    ensures n < |s| ==> s[|s| - 1 - n] != c
  {
    if s == [] || s[|s| - 1] != c then 0 else 1 + TrailingCount(s[..|s| - 1], c)
  }

  /** `s.strip(c)`: the longest run of `c` at each end is removed, and
      nothing else (the run at the front is LeadingCount's). */
  function Strip(s: string, c: char): (r: string)
    ensures r == [] || (r[0] != c && r[|r| - 1] != c)
    ensures LeadingCount(s, c) + |r| <= |s|
    ensures r == s[LeadingCount(s, c)..LeadingCount(s, c) + |r|]
    ensures forall k :: LeadingCount(s, c) + |r| <= k < |s| ==> s[k] == c
  {
    var i := LeadingCount(s, c);
    var t := s[i..];
    var r := t[..|t| - TrailingCount(t, c)];
    assert r == s[i..i + |r|];
    r
  }

  /** Stripping `c` from `[c] + y`, where `y` holds no `c`, gives back `y`. */
  lemma StripOneLeading(y: string, c: char)
    requires forall k :: 0 <= k < |y| ==> y[k] != c
    ensures Strip([c] + y, c) == y
  {
    var s := [c] + y;
    assert s[1..] == y;
    assert LeadingCount(s, c) == 1;
    assert TrailingCount(y, c) == 0;
  }
}
