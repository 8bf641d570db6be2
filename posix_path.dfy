/** The parts of Python's `posixpath` that `WWW` relies on: `str.rfind`,
    `splitext` and `join`, on `/`-separated paths. */
module PosixPath {

  /** `s.rfind(c)`: index of the last `c` in `s`, or -1 when there is none. */
  function RFind(s: string, c: char): (r: int)
    ensures -1 <= r < |s|
    ensures 0 <= r ==> s[r] == c
    ensures forall k :: r < k < |s| ==> s[k] != c
  {
    if s == [] then -1
    else if s[|s| - 1] == c then |s| - 1
    else RFind(s[..|s| - 1], c)
  }

  /** The three facts of RFind's contract pin its value down. */
  lemma RFindUnique(s: string, c: char, r: int)
    requires -1 <= r < |s|
    requires 0 <= r ==> s[r] == c
    requires forall k :: r < k < |s| ==> s[k] != c
    ensures RFind(s, c) == r
  {
  }

  /** Searching a suffix finds the same last occurrence, shifted, or none. */
  lemma RFindSuffix(s: string, c: char, j: nat)
    requires j <= |s|
    ensures RFind(s[j..], c) == if RFind(s, c) >= j then RFind(s, c) - j else -1
  {
    var q := RFind(s, c);
    var t := s[j..];
    var expected := if q >= j then q - j else -1;
    forall k | expected < k < |t|
      ensures t[k] != c
    {
      assert t[k] == s[j + k];
    }
    RFindUnique(t, c, expected);
  }

  /** Some character of `p[lo..hi]` is not a dot. */
  predicate HasNonDot(p: string, lo: int, hi: int)
    requires 0 <= lo <= hi <= |p|
  {
    exists k :: lo <= k < hi && p[k] != '.'
  }

  /** The final `/`-separated component of `p` (all of `p` if it has no `/`). */
  function LastComponent(p: string): (b: string)
    ensures forall k :: 0 <= k < |b| ==> b[k] != '/'
    ensures |b| <= |p| && b == p[|p| - |b|..]
  {
    p[RFind(p, '/') + 1..]
  }

  /** The final component is the longest `/`-free suffix: it is all of `p`,
      or a `/` comes right before it. */
  lemma LastComponentMaximal(p: string)
    ensures var b := LastComponent(p);
            |b| == |p| || p[|p| - |b| - 1] == '/'
  {
  }

  /** `posixpath.splitext(p)`: the extension starts at the last dot of the
      final component, provided some non-dot character precedes that dot in
      the component (leading dots, as in `.bashrc`, do not start one). */
  function Splitext(p: string): (r: (string, string))
    ensures r.0 + r.1 == p
    ensures r.1 == [] || r.1[0] == '.'
    ensures forall k :: 1 <= k < |r.1| ==> r.1[k] != '.' && r.1[k] != '/'
  {
    var sep := RFind(p, '/');
    var dot := RFind(p, '.');
    if dot > sep && HasNonDot(p, sep + 1, dot) then (p[..dot], p[dot..]) else (p, [])
  }

  /** Looking for a non-dot in a suffix is looking in the same place of
      the whole string. */
  lemma HasNonDotShift(p: string, j: nat, hi: nat)
    requires j + hi <= |p|
    ensures HasNonDot(p, j, j + hi) == HasNonDot(p[j..], 0, hi)
  {
    if HasNonDot(p, j, j + hi) {
      var k :| j <= k < j + hi && p[k] != '.';
      assert p[j..][k - j] == p[k];
    }
    if HasNonDot(p[j..], 0, hi) {
      var k :| 0 <= k < hi && p[j..][k] != '.';
      assert p[j + k] == p[j..][k];
    }
  }

  /** The extension `splitext` finds depends on the final component only. */
  lemma {:induction false} SplitextOfLastComponent(p: string)
    ensures Splitext(p).1 == Splitext(LastComponent(p)).1
  {
    var sep := RFind(p, '/');
    var dot := RFind(p, '.');
    var j := sep + 1;
    var b := p[j..];
    assert b == LastComponent(p);
    RFindSuffix(p, '/', j);
    RFindSuffix(p, '.', j);
    if dot > sep {
      HasNonDotShift(p, j, dot - j);
      assert b[dot - j..] == p[dot..];
    }
  }

  /** On a name without `/`, the extension starts at the last dot if some
      non-dot character precedes it. */
  lemma SplitextOfName(b: string)
    requires forall k :: 0 <= k < |b| ==> b[k] != '/'
    ensures var d := RFind(b, '.');
            Splitext(b).1 == if 0 <= d && HasNonDot(b, 0, d) then b[d..] else []
  {
    RFindUnique(b, '/', -1);
  }

  /** `posixpath.join(a, b)` for two parts: an absolute `b` replaces `a`;
      otherwise a `/` is inserted unless `a` is empty or already ends in one. */
  function Join(a: string, b: string): (r: string)
    ensures |b| > 0 && b[0] == '/' ==> r == b
    ensures |b| <= |r| && r[|r| - |b|..] == b
    ensures !(|b| > 0 && b[0] == '/') ==> |a| <= |r| && r[..|a|] == a
    ensures !(|b| > 0 && b[0] == '/') ==>
              |r| == |a| + |b| + (if a == [] || a[|a| - 1] == '/' then 0 else 1)
    ensures !(|b| > 0 && b[0] == '/') && a != [] && a[|a| - 1] != '/' ==> r[|a|] == '/'
  {
    if |b| > 0 && b[0] == '/' then b
    else if a == [] || a[|a| - 1] == '/' then a + b
    else a + "/" + b
  }

  /** Join's contract pins its value down: a string that is `b` for an
      absolute `b`, and otherwise starts with `a`, ends with `b`, has the
      length of the two plus the separator and holds that separator, is
      the join. */
  lemma {:induction false} JoinUnique(a: string, b: string, r: string)
    requires |b| > 0 && b[0] == '/' ==> r == b
    requires |b| <= |r| && r[|r| - |b|..] == b
    requires !(|b| > 0 && b[0] == '/') ==> |a| <= |r| && r[..|a|] == a
    requires !(|b| > 0 && b[0] == '/') ==>
               |r| == |a| + |b| + (if a == [] || a[|a| - 1] == '/' then 0 else 1)
    requires !(|b| > 0 && b[0] == '/') && a != [] && a[|a| - 1] != '/' ==> r[|a|] == '/'
    ensures r == Join(a, b)
  {
    if !(|b| > 0 && b[0] == '/') {
      var sep := if a == [] || a[|a| - 1] == '/' then "" else "/";
      assert r[|a|..|a| + |sep|] == sep;
      assert r == r[..|a|] + r[|a|..|a| + |sep|] + r[|r| - |b|..];
    }
  }

  /** Joining a `/`-free name onto a directory makes that name the final
      component. */
  lemma JoinLastComponent(a: string, b: string)
    requires forall k :: 0 <= k < |b| ==> b[k] != '/'
    ensures LastComponent(Join(a, b)) == b
  {
    var r := Join(a, b);
    if a == [] {
      assert r == b;
      RFindUnique(r, '/', -1);
    } else {
      var d := if a[|a| - 1] == '/' then a else a + "/";
      assert r == d + b;
      forall k | |d| - 1 < k < |r|
        ensures r[k] != '/'
      {
        assert r[k] == b[k - |d|];
      }
      RFindUnique(r, '/', |d| - 1);
      assert r[|d|..] == b;
    }
  }
}
