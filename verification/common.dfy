/** Longest common ends and overlaps: each search is proved against the plain
    left-to-right definition of what it looks for. */
module Common {
  import opened Texts

  /** The length of the longest common prefix, by linear scan. */
  function Lcp(a: Text, b: Text): (r: nat)
    ensures r <= |a| && r <= |b|
    ensures forall i :: 0 <= i < r ==> a[i] == b[i]
    ensures r == |a| || r == |b| || a[r] != b[r]
    ensures r == 0 <==> a == [] || b == [] || a[0] != b[0]
  {
    if a != [] && b != [] && a[0] == b[0] then 1 + Lcp(a[1..], b[1..]) else 0
  }

  /** Past a common start, a longer stretch is common exactly up to the longest common prefix. */
  lemma {:induction false} LcpStretch(a: Text, b: Text, from: nat, k: nat)
    requires from <= Lcp(a, b) && from <= k <= |a| && k <= |b|
    ensures a[from..k] == b[from..k] <==> k <= Lcp(a, b)
  {
    hide Lcp;
    var r := Lcp(a, b);
    var p, q := a[from..k], b[from..k];
    if k <= r {
      assert forall i :: 0 <= i < |p| ==> p[i] == a[from + i] == b[from + i] == q[i];
    } else {
      assert p[r - from] == a[r] && q[r - from] == b[r];
    }
  }

  /** The unit `i` places from the right. */
  function Last(s: Text, i: nat): Unit
    requires i < |s|
  {
    s[|s| - 1 - i]
  }

  lemma LastOfInit(s: Text)
    requires s != []
    ensures forall i {:trigger Last(s, i)} :: 1 <= i < |s| ==> Last(s, i) == Last(s[..|s| - 1], i - 1)
  {
  }

  /** The length of the longest common suffix. */
  function Lcs(a: Text, b: Text): (r: nat)
    ensures r <= |a| && r <= |b|
    ensures forall i :: 0 <= i < r ==> Last(a, i) == Last(b, i)
    ensures r == |a| || r == |b| || Last(a, r) != Last(b, r)
    ensures r == 0 <==> a == [] || b == [] || Last(a, 0) != Last(b, 0)
  {
    if a != [] && b != [] && Last(a, 0) == Last(b, 0) then
      var a', b' := a[..|a| - 1], b[..|b| - 1];
      LastOfInit(a);
      LastOfInit(b);
      1 + Lcs(a', b')
    else 0
  }

  lemma SameTails(a: Text, b: Text, from: nat, k: nat)
    requires from <= k <= |a| && k <= |b|
    requires forall i :: 0 <= i < k ==> Last(a, i) == Last(b, i)
    ensures a[|a| - k..|a| - from] == b[|b| - k..|b| - from]
  {
    var p, q := a[|a| - k..|a| - from], b[|b| - k..|b| - from];
    forall i | 0 <= i < |p|
      ensures p[i] == q[i]
    {
      assert p[i] == Last(a, k - 1 - i) && q[i] == Last(b, k - 1 - i);
    }
  }

  /** The longest common suffix is a suffix of both. */
  lemma {:induction false} SharedSuffix(a: Text, b: Text)
    ensures a[|a| - Lcs(a, b)..] == b[|b| - Lcs(a, b)..]
  {
    hide Lcs;
    var k := Lcs(a, b);
    var p, q := a[|a| - k..], b[|b| - k..];
    forall i | 0 <= i < |p|
      ensures p[i] == q[i]
    {
      assert p[i] == Last(a, k - 1 - i) && q[i] == Last(b, k - 1 - i);
    }
  }

  lemma {:induction false} LcsStretch(a: Text, b: Text, from: nat, k: nat)
    requires from <= Lcs(a, b) && from <= k <= |a| && k <= |b|
    ensures a[|a| - k..|a| - from] == b[|b| - k..|b| - from] <==> k <= Lcs(a, b)
  {
    hide Lcs;
    var r := Lcs(a, b);
    if k <= r {
      SameTails(a, b, from, k);
    } else {
      var p, q := a[|a| - k..|a| - from], b[|b| - k..|b| - from];
      assert p[k - 1 - r] == Last(a, r) && q[k - 1 - r] == Last(b, r);
    }
  }

  /** `diff_commonPrefix`: a binary search. */
  method CommonPrefix(a: Text, b: Text) returns (r: nat)
    ensures r == Lcp(a, b)
  {
    if a == [] || b == [] || a[0] != b[0] {
      return 0;
    }
    var min, max := 0, Min(|a|, |b|);
    var mid, start := max, 0;
    while min < mid
      invariant 0 <= min == start <= mid <= max <= Min(|a|, |b|)
      invariant min <= Lcp(a, b) <= max
      invariant mid == max == Min(|a|, |b|) || (mid == (max - min) / 2 + min && (Lcp(a, b) < max || min == max))
      decreases max - min, mid
    {
      LcpStretch(a, b, start, mid);
      if Substring(a, start, mid) == Substring(b, start, mid) {
        min := mid;
        start := min;
      } else {
        max := mid;
      }
      mid := (max - min) / 2 + min;
    }
    return mid;
  }

  /** `diff_commonSuffix`: a binary search from the right. */
  method CommonSuffix(a: Text, b: Text) returns (r: nat)
    ensures r == Lcs(a, b)
  {
    if a == [] || b == [] || a[|a| - 1] != b[|b| - 1] {
      return 0;
    }
    var min, max := 0, Min(|a|, |b|);
    var mid, end := max, 0;
    while min < mid
      invariant 0 <= min == end <= mid <= max <= Min(|a|, |b|)
      invariant min <= Lcs(a, b) <= max
      invariant mid == max == Min(|a|, |b|) || (mid == (max - min) / 2 + min && (Lcs(a, b) < max || min == max))
      decreases max - min, mid
    {
      LcsStretch(a, b, end, mid);
      if Substring(a, |a| - mid, |a| - end) == Substring(b, |b| - mid, |b| - end) {
        min := mid;
        end := min;
      } else {
        max := mid;
      }
      mid := (max - min) / 2 + min;
    }
    return mid;
  }

  // ----- cutting off common ends

  /** How much two texts share in front, and then behind. */
  function Front(a: Text, b: Text): (g: nat)
    ensures g <= |a| && g <= |b| && a[..g] == b[..g]
  {
    Lcp(a, b)
  }

  function Back(a: Text, b: Text): (h: nat)
    ensures Front(a, b) + h <= |a| && Front(a, b) + h <= |b|
  {
    Lcs(a[Front(a, b)..], b[Front(a, b)..])
  }

  lemma BackShared(a: Text, b: Text)
    ensures a[|a| - Back(a, b)..] == b[|b| - Back(a, b)..]
  {
    hide Lcp, Lcs, Front;
    var a', b' := a[Front(a, b)..], b[Front(a, b)..];
    SharedSuffix(a', b');
    TailsThrough(a, b, Front(a, b), Back(a, b), a', b');
  }

  lemma TailsThrough(a: Text, b: Text, g: nat, h: nat, a': Text, b': Text)
    requires g + h <= |a| && g + h <= |b| && a' == a[g..] && b' == b[g..]
    requires b'[|b'| - h..] == a'[|a'| - h..]
    ensures a[|a| - h..] == b[|b| - h..]
  {
    DropDrop(a, g, h, a');
    DropDrop(b, g, h, b');
  }

  lemma DropDrop(s: Text, g: nat, h: nat, t: Text)
    requires g + h <= |s| && t == s[g..]
    ensures t[|t| - h..] == s[|s| - h..] && t[..|t| - h] == s[g..|s| - h]
  {
  }

  /** What is left of `s`, one of the two, between the shared ends. */
  function Core(s: Text, a: Text, b: Text): Text
    requires s == a || s == b
  {
    s[Front(a, b)..|s| - Back(a, b)]
  }

  lemma CutEnds(a: Text, b: Text)
    ensures a == a[..Front(a, b)] + Core(a, a, b) + a[|a| - Back(a, b)..]
    ensures b == a[..Front(a, b)] + Core(b, a, b) + a[|a| - Back(a, b)..]
  {
    BackShared(a, b);
    hide Front, Back;
    var g, h := Front(a, b), Back(a, b);
    assert a == a[..g] + a[g..|a| - h] + a[|a| - h..];
    assert b == b[..g] + b[g..|b| - h] + b[|b| - h..];
  }

  /** The cores share neither their first nor their last unit. */
  lemma CoresDiffer(a: Text, b: Text)
    ensures Lcp(Core(a, a, b), Core(b, a, b)) == 0 && Lcs(Core(a, a, b), Core(b, a, b)) == 0
  {
    hide Lcp, Lcs;
    var g, h := Front(a, b), Back(a, b);
    var a', b' := Core(a, a, b), Core(b, a, b);
    if a' != [] && b' != [] {
      assert a'[0] == a[g] && b'[0] == b[g];
      LastOfCore(a, g, h);
      LastOfCore(b, g, h);
      assert Last(a[g..], h) != Last(b[g..], h);
    }
  }

  lemma LastOfCore(s: Text, g: nat, h: nat)
    requires g + h < |s|
    ensures Last(s[g..|s| - h], 0) == Last(s[g..], h)
  {
  }

  /** The last `k` units of `a` are the first `k` units of `b`. */
  predicate Overlaps(a: Text, b: Text, k: int) {
    0 <= k <= |a| && k <= |b| && a[|a| - k..] == b[..k]
  }

  /** `k` is the length of the longest overlap of `a` into `b`. */
  ghost predicate LongestOverlap(a: Text, b: Text, k: int) {
    Overlaps(a, b, k) && forall i :: Overlaps(a, b, i) ==> i <= k
  }

  /** An overlap of length `i >= e` contains the last `e` units of `a`, at offset `i - e`. */
  lemma OverlapOccurs(a: Text, b: Text, e: nat, i: int)
    requires Overlaps(a, b, i) && e <= i
    ensures OccursAt(b, a[|a| - e..], i - e)
  {
    assert a[|a| - e..] == a[|a| - i..][i - e..];
    assert b[i - e..i] == b[..i][i - e..];
  }

  /** Trimming the longer text to the length of the shorter keeps the overlaps. */
  lemma OverlapCut(a: Text, b: Text, c: nat, i: int)
    requires c == Min(|a|, |b|)
    ensures Overlaps(a[|a| - c..], b[..c], i) <==> Overlaps(a, b, i)
  {
    if 0 <= i <= c {
      assert a[|a| - c..][c - i..] == a[|a| - i..];
      assert b[..c][..i] == b[..i];
    }
  }

  /** Where the last `e` units of `a` first occur in `b` decides how far the search may skip. */
  lemma NoOverlapSkipped(a: Text, b: Text, e: nat, at: int)
    requires e <= |a| && at == IndexOf(b, a[|a| - e..], 0)
    ensures forall i :: Overlaps(a, b, i) && e <= i ==> at != -1 && e + at <= i
  {
    forall i | Overlaps(a, b, i) && e <= i
      ensures at != -1 && e + at <= i
    {
      OverlapOccurs(a, b, e, i);
    }
  }

  /** `diff_commonOverlap_`: grows the suffix of `a` it looks for in `b`, skipping ahead to
      the first place it occurs; no overlap is ever skipped. */
  method CommonOverlap(a0: Text, b0: Text) returns (r: nat)
    ensures LongestOverlap(a0, b0, r)
  {
    var c, d := |a0|, |b0|;
    if c == 0 || d == 0 {
      return 0;
    }
    var a, b := a0, b0;
    if c > d {
      a := Substring(a, c - d, |a|);
    } else if c < d {
      b := Substring(b, 0, c);
    }
    c := Min(c, d);
    assert a == a0[|a0| - c..] && b == b0[..c];
    forall i {
      OverlapCut(a0, b0, c, i);
    }
    if a == b {
      assert Overlaps(a, b, c);
      return c;
    }
    r := OverlapSearch(a, b);
  }

  method OverlapSearch(a: Text, b: Text) returns (d: nat)
    requires |a| == |b| > 0 && a != b
    ensures LongestOverlap(a, b, d)
  {
    hide IndexOf;
    var c := |a|;
    var e;
    d, e := 0, 1;
    while true
      invariant 0 <= d < e <= c
      invariant Overlaps(a, b, d)
      invariant forall i :: Overlaps(a, b, i) ==> i <= d || e <= i
      decreases c - e
    {
      var f := Substring(a, c - e, |a|);
      var at := IndexOf(b, f, 0);
      assert f == a[|a| - e..];
      NoOverlapSkipped(a, b, e, at);
      if at == -1 {
        return d;
      }
      e := e + at;
      if at == 0 || Substring(a, c - e, |a|) == Substring(b, 0, e) {
        d := e;
        e := e + 1;
      }
    }
  }
}
