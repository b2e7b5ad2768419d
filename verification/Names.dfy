/** Domain names as strings and as label paths. Names are ASCII; a path lists the labels from the right. */
module Names {
  import opened Basics

  predicate IsSpace(c: char) {
    c == ' ' || 9 <= c as int <= 13
  }

  function TrimLeft(s: string): string {
    if s != "" && IsSpace(s[0]) then TrimLeft(s[1..]) else s
  }

  function TrimRight(s: string): string {
    if s != "" && IsSpace(s[|s| - 1]) then TrimRight(s[..|s| - 1]) else s
  }

  function TrimSpace(s: string): string {
    TrimRight(TrimLeft(s))
  }

  function LowerChar(c: char): char {
    if 'A' <= c <= 'Z' then (c as int + 32) as char else c
  }

  function UpperChar(c: char): char {
    if 'a' <= c <= 'z' then (c as int - 32) as char else c
  }

  function ToLower(s: string): string {
    seq(|s|, i requires 0 <= i < |s| => LowerChar(s[i]))
  }

  function ToUpper(s: string): string {
    seq(|s|, i requires 0 <= i < |s| => UpperChar(s[i]))
  }

  /** s contains t. */
  predicate ContainsText(s: string, t: string) {
    exists i :: 0 <= i <= |s| && t <= s[i..]
  }

  /** The index of the last dot among the first `end` characters, or -1. */
  function LastDot(s: string, end: nat): (i: int)
    requires end <= |s|
    ensures -1 <= i < end
  {
    if end == 0 then -1 else if s[end - 1] == '.' then end - 1 else LastDot(s, end - 1)
  }

  lemma {:induction false} LastDotIs(s: string, end: nat)
    requires end <= |s|
    ensures LastDot(s, end) >= 0 ==> s[LastDot(s, end)] == '.'
    ensures forall j :: LastDot(s, end) < j < end ==> s[j] != '.'
  {
    if end > 0 && s[end - 1] != '.' {
      LastDotIs(s, end - 1);
    }
  }

  lemma LastDotUnique(s: string, end: nat, k: int)
    requires end <= |s| && -1 <= k < end && (k >= 0 ==> s[k] == '.')
    requires forall m :: k < m < end ==> s[m] != '.'
    ensures LastDot(s, end) == k
  {
    LastDotIs(s, end);
  }

  /** The labels of the first `end` characters, left to right; the empty name has one empty label. */
  function SplitTo(s: string, end: nat): (labels: seq<string>)
    requires end <= |s|
    ensures labels != []
  {
    var i := LastDot(s, end);
    if i < 0 then [s[..end]] else SplitTo(s, i) + [s[i + 1..end]]
  }

  /** The same right to left. */
  function PathTo(s: string, end: nat): (labels: seq<string>)
    requires end <= |s|
    ensures labels != []
  {
    var i := LastDot(s, end);
    if i < 0 then [s[..end]] else [s[i + 1..end]] + PathTo(s, i)
  }

  /** The labels a right-to-left walk by index visits: it stops when nothing is left, so it never visits an
      empty leading label. */
  function WalkTo(s: string, end: nat): seq<string>
    requires end <= |s|
  {
    if end == 0 then []
    else
      var i := LastDot(s, end);
      if i < 0 then [s[..end]] else [s[i + 1..end]] + WalkTo(s, i)
  }

  function Split(s: string): seq<string> { SplitTo(s, |s|) }

  function Path(s: string): seq<string> { PathTo(s, |s|) }

  function Walk(s: string): seq<string> { WalkTo(s, |s|) }

  lemma {:induction false} SplitIsPath(s: string, end: nat, k: nat)
    requires end <= |s|
    ensures |SplitTo(s, end)| == |PathTo(s, end)|
    ensures k < |SplitTo(s, end)| ==> SplitTo(s, end)[|SplitTo(s, end)| - 1 - k] == PathTo(s, end)[k]
  {
    var i := LastDot(s, end);
    if i >= 0 {
      SplitIsPath(s, i, if k > 0 then k - 1 else 0);
      Mirror(SplitTo(s, i), PathTo(s, i), s[i + 1..end], k);
    }
  }

  /** Adding at the end of one list and at the front of its mirror image. */
  lemma Mirror(t: seq<string>, p: seq<string>, x: string, k: nat)
    requires |t| == |p| && 0 < |t| && (0 < k <= |t| ==> t[|t| - k] == p[k - 1])
    ensures k <= |t| ==> (t + [x])[|t| - k] == ([x] + p)[k]
  {
  }

  predicate NoLeadingDot(s: string) {
    s != "" && s[0] != '.'
  }

  /** The walk is the reversed split, minus an empty leading label. */
  lemma WalkIsPath(s: string, end: nat)
    requires end <= |s|
    ensures PathTo(s, end) == if end > 0 && s[0] != '.' then WalkTo(s, end) else WalkTo(s, end) + [""]
  {
    if end > 0 && s[0] != '.' {
      WalkFull(s, end);
    } else {
      WalkDotted(s, end);
    }
  }

  lemma {:induction false} WalkFull(s: string, end: nat)
    requires 0 < end <= |s| && s[0] != '.'
    ensures PathTo(s, end) == WalkTo(s, end)
  {
    var i := LastDot(s, end);
    LastDotIs(s, end);
    if i >= 0 {
      WalkFull(s, i);
    }
  }

  lemma {:induction false} WalkDotted(s: string, end: nat)
    requires end <= |s| && (end == 0 || s[0] == '.')
    ensures PathTo(s, end) == WalkTo(s, end) + [""]
  {
    var i := LastDot(s, end);
    LastDotIs(s, end);
    if end > 0 {
      WalkDotted(s, i);
      Assoc([s[i + 1..end]], WalkTo(s, i), [""]);
    }
  }

  /** The first n characters of s are the first m of r, or end with a dot and those. */
  predicate Under(s: string, n: nat, r: string, m: nat)
    requires n <= |s| && m <= |r|
  {
    && m <= n
    && (forall k {:trigger r[k]} :: 0 <= k < m ==> s[n - m + k] == r[k])
    && (m == n || s[n - m - 1] == '.')
  }

  /** Label-wise suffixes are string suffixes after a dot. */
  lemma {:induction false} PathPrefixIffUnder(s: string, n: nat, r: string, m: nat)
    requires n <= |s| && m <= |r|
    ensures PathTo(r, m) <= PathTo(s, n) <==> Under(s, n, r, m)
    decreases n
  {
    var i, j := LastDot(s, n), LastDot(r, m);
    LastDotIs(s, n);
    LastDotIs(r, m);
    if j < 0 {
      LastLabel(s, n, r, m);
      assert PathTo(r, m) <= PathTo(s, n) <==> PathTo(s, n)[0] == r[..m];
    } else if i < 0 {
      DotNotUnder(s, n, r, m);
    } else {
      PathPrefixIffUnder(s, i, r, j);
      CutLast(s, n, r, m);
      ConsPrefix(r[j + 1..m], PathTo(r, j), s[i + 1..n], PathTo(s, i));
    }
  }

  lemma ConsPrefix(x: string, xs: seq<string>, y: string, ys: seq<string>)
    ensures [x] + xs <= [y] + ys <==> x == y && xs <= ys
  {
    if [x] + xs <= [y] + ys {
      assert ([x] + xs)[0] == ([y] + ys)[0];
      assert forall k :: 0 <= k < |xs| ==> xs[k] == ([x] + xs)[k + 1] == ([y] + ys)[k + 1] == ys[k];
    }
  }

  lemma DotNotUnder(s: string, n: nat, r: string, m: nat)
    requires n <= |s| && m <= |r| && LastDot(s, n) < 0 && LastDot(r, m) >= 0
    ensures !Under(s, n, r, m)
  {
    LastDotIs(s, n);
    LastDotIs(r, m);
  }

  lemma SliceIs(s: string, i: nat, n: nat, r: string, j: nat, m: nat)
    requires i <= n <= |s| && j <= m <= |r|
    ensures s[i..n] == r[j..m] <==> n - i == m - j && forall k {:trigger r[k]} :: j <= k < m ==> s[i - j + k] == r[k]
  {
    var x, y := s[i..n], r[j..m];
    assert forall k :: i <= k < n ==> s[k] == x[k - i];
    assert forall k :: j <= k < m ==> r[k] == y[k - j];
  }

  /** Under a name without dots, the last dot is right before it. */
  lemma UnderLastDot(s: string, n: nat, r: string, m: nat)
    requires n <= |s| && m <= |r| && LastDot(r, m) < 0 && Under(s, n, r, m)
    ensures LastDot(s, n) == n - m - 1
  {
    LastDotIs(r, m);
    forall k | n - m <= k < n ensures s[k] != '.' {
      assert s[k] == r[k - (n - m)];
    }
    LastDotUnique(s, n, n - m - 1);
  }

  lemma LastLabel(s: string, n: nat, r: string, m: nat)
    requires n <= |s| && m <= |r| && LastDot(r, m) < 0
    ensures s[LastDot(s, n) + 1..n] == r[..m] <==> Under(s, n, r, m)
  {
    if Under(s, n, r, m) {
      UnderLastDot(s, n, r, m);
    }
    LabelSlice(s, LastDot(s, n), n, r, m);
  }

  lemma LabelSlice(s: string, i: int, n: nat, r: string, m: nat)
    requires n <= |s| && m <= |r| && i == LastDot(s, n)
    ensures s[i + 1..n] == r[..m] ==> Under(s, n, r, m)
    ensures i == n - m - 1 && Under(s, n, r, m) ==> s[i + 1..n] == r[..m]
  {
    LastDotIs(s, n);
    SliceIs(s, i + 1, n, r, 0, m);
    assert r[0..m] == r[..m];
  }

  lemma CutLast(s: string, n: nat, r: string, m: nat)
    requires n <= |s| && m <= |r| && LastDot(s, n) >= 0 && LastDot(r, m) >= 0
    ensures Under(s, n, r, m) <==>
      r[LastDot(r, m) + 1..m] == s[LastDot(s, n) + 1..n] && Under(s, LastDot(s, n), r, LastDot(r, m))
  {
    var i, j := LastDot(s, n), LastDot(r, m);
    LastDotIs(s, n);
    LastDotIs(r, m);
    if n - i == m - j {
      CutAt(s, n, i, r, m, j);
    } else {
      if Under(s, n, r, m) {
        SameLastDot(s, n, r, m);
      }
      assert |r[j + 1..m]| != |s[i + 1..n]|;
    }
  }

  /** Under a name with dots, the last dots face each other. */
  lemma SameLastDot(s: string, n: nat, r: string, m: nat)
    requires n <= |s| && m <= |r| && LastDot(r, m) >= 0 && Under(s, n, r, m)
    ensures LastDot(s, n) == n - m + LastDot(r, m)
  {
    var k := n - m + LastDot(r, m);
    LastDotIs(r, m);
    assert s[k] == r[LastDot(r, m)];
    forall i | k < i < n ensures s[i] != '.' {
      assert s[i] == r[i - (n - m)];
    }
    LastDotUnique(s, n, k);
  }

  lemma CutAt(s: string, n: nat, i: nat, r: string, m: nat, j: nat)
    requires i < n <= |s| && j < m <= |r| && n - i == m - j && s[i] == '.' == r[j]
    ensures Under(s, n, r, m) <==> r[j + 1..m] == s[i + 1..n] && Under(s, i, r, j)
  {
    SliceIs(s, i + 1, n, r, j + 1, m);
  }

  /** s is something, a dot, and r. */
  predicate EndsWithDot(s: string, r: string) {
    |r| < |s| && s[|s| - |r| - 1] == '.' && s[|s| - |r|..] == r
  }

  lemma UnderIs(s: string, r: string)
    ensures Under(s, |s|, r, |r|) <==> s == r || EndsWithDot(s, r)
  {
    if |r| <= |s| {
      SliceIs(s, |s| - |r|, |s|, r, 0, |r|);
      assert s[|s| - |r|..|s|] == s[|s| - |r|..] && r[0..|r|] == r;
    }
  }

  /** A rule for r covers a query for s: its path is a prefix of the query's walk. */
  predicate Covers(r: string, s: string) {
    (s == r && NoLeadingDot(s)) || EndsWithDot(s, r)
  }

  lemma WalkPrefixIffCovers(s: string, r: string)
    ensures Path(r) <= Walk(s) <==> Covers(r, s)
  {
    WalkIsPath(s, |s|);
    PathPrefixIffUnder(s, |s|, r, |r|);
    UnderIs(s, r);
    if !NoLeadingDot(s) {
      if Path(r) <= Path(s) && |Path(r)| == |Path(s)| {
        assert Path(r) == Path(s);
        PathInjective(s, r);
      }
    }
  }

  lemma PathInjective(s: string, r: string)
    requires Path(s) == Path(r)
    ensures s == r
  {
    PathPrefixIffUnder(s, |s|, r, |r|);
    PathPrefixIffUnder(r, |r|, s, |s|);
    UnderIs(s, r);
    UnderIs(r, s);
  }
}
