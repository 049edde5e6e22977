/** Myers' bisection: two frontiers grow from both ends of the edit grid until they
    meet; the meeting point splits the diff into two smaller ones. */
module Bisect {
  import opened Texts
  import opened Distance
  import opened Frontier
  import opened Clock

  method SlideForward(a: Text, b: Text, m0: int, s0: int) returns (m: int, s: int)
    ensures m == Slide(a, b, m0, s0) && s == s0 + m - m0
  {
    m, s := m0, s0;
    while m < |a| && s < |b| && CharAt(a, m) == CharAt(b, s)
      invariant Slide(a, b, m, s) == Slide(a, b, m0, s0) && s == s0 + m - m0
      decreases |a| - m
    {
      m, s := m + 1, s + 1;
    }
  }

  method SlideBackward(a: Text, b: Text, u0: int, m0: int) returns (u: int, m: int)
    ensures u == Slide(Reverse(a), Reverse(b), u0, m0) && m == m0 + u - u0
  {
    u, m := u0, m0;
    while u < |a| && m < |b| && CharAt(a, |a| - u - 1) == CharAt(b, |b| - m - 1)
      invariant Slide(Reverse(a), Reverse(b), u, m) == Slide(Reverse(a), Reverse(b), u0, m0)
      invariant m == m0 + u - u0
      decreases |a| - u
    {
      u, m := u + 1, m + 1;
    }
  }

  /** The point is a proper split of the grid on a shortest edit path. */
  ghost predicate GoodSplit(a: Text, b: Text, x: int, y: int) {
    && 0 <= x <= |a| && 0 <= y <= |b| && 0 < x + y < |a| + |b|
    && Dist(a[..x], b[..y]) + Dist(a[x..], b[y..]) == Dist(a, b)
  }

  lemma NoneHere(a: Text, b: Text, v: int, n: int)
    requires AllAbove(a, b, v, n) && (n - v) % 2 == 0 && NoPathOn(a, b, v, n)
    ensures AllAbove(a, b, v, n + 2)
  {
    hide OnPath;
    forall x, y | OnPath(a, b, x, y, v)
      ensures x - y >= n + 2
    {
      OnPathParity(a, b, x, y, v);
    }
  }

  lemma {:induction false} SomePathPoint(a: Text, b: Text, v: int, r: int, t: int, n: int)
    requires Trimmed(a, b, v, r, t) && 0 <= v <= Dist(a, b) && n > v - t
    ensures !AllAbove(a, b, v, n)
  {
    hide Dist;
    var x, y := PathPoint(a, b, v);
  }

  lemma OddSum(k: int, n: int, v: int)
    requires k % 2 != 0 && (n - v) % 2 == 0
    ensures (k - n - v) % 2 != 0
  {
  }

  lemma EvenSum(k: int, n: int, v: int)
    requires k % 2 == 0 && (n - v) % 2 == 0
    ensures (k - n - (v + 1)) % 2 != 0
  {
  }

  /** The meeting test of a forward step succeeds only at a good split. */
  lemma {:induction false} ForwardMeeting(a: Text, b: Text, v: int, g: int, es: seq<int>, n: int, m: int)
    requires 0 <= m <= |a| && m - n <= |b| && Sound(a, b, v, n, m)
    requires -v <= n <= v && (n - v) % 2 == 0
    requires (|a| - |b|) % 2 != 0
    requires EntriesSound(Reverse(a), Reverse(b), v, g, es)
    requires Dist(a, b) >= 2 * v - 1 && Dist(a, b) >= 2
    requires var l := g + (|a| - |b|) - n; 0 <= l < |es| && es[l] != -1 && m >= |a| - es[l]
    ensures GoodSplit(a, b, m, m - n)
  {
    hide Dist, Sound, EntriesSound, Reverse;
    var k := |a| - |b|;
    var l := g + k - n;
    OddSum(k, n, v);
    EntrySound(Reverse(a), Reverse(b), v, g, es, k - n);
    OtherInside(a, b, v, v - 1, n, m, es[l]);
    Meeting(a, b, v, v - 1, n, m, es[l]);
  }

  lemma {:induction false} BackwardInside(a: Text, b: Text, v: int, n: int, m: int, u: int)
    requires 0 <= u <= |a| && u - n <= |b| && -v <= n <= v && Dist(a, b) >= 2 * v
    requires m >= 0 && m >= |a| - u && Sound(a, b, v, |a| - |b| - n, m)
    ensures m <= |a| && 0 <= m - (|a| - |b| - n) <= |b|
  {
    hide Dist, Sound;
    ReverseTwice(a);
    ReverseTwice(b);
    DistReverse(a, b);
    OtherInside(Reverse(a), Reverse(b), v, v, n, u, m);
  }

  lemma ForwardEntry(a: Text, b: Text, v: int, g: int, js: seq<int>, n: int, l: int)
    requires (n - v) % 2 == 0 && (|a| - |b|) % 2 == 0
    requires EntriesSound(a, b, v + 1, g, js)
    requires l == g + (|a| - |b|) - n && 0 <= l < |js|
    ensures Sound(a, b, v, |a| - |b| - n, js[l]) && js[l] >= -1
  {
    hide Dist, Sound, EntriesSound;
    EvenSum(|a| - |b|, n, v);
    EntrySound(a, b, v + 1, g, js, |a| - |b| - n);
  }

  /** The meeting test of a backward step succeeds only at a good split. */
  lemma {:induction false} BackwardMeeting(a: Text, b: Text, v: int, g: int, js: seq<int>, n: int, u: int, l: int)
    requires 0 <= u <= |a| && u - n <= |b| && Sound(Reverse(a), Reverse(b), v, n, u)
    requires -v <= n <= v && (n - v) % 2 == 0
    requires (|a| - |b|) % 2 == 0
    requires EntriesSound(a, b, v + 1, g, js)
    requires Dist(a, b) >= 2 * v && Dist(a, b) >= 2
    requires l == g + (|a| - |b|) - n && 0 <= l < |js| && js[l] != -1 && js[l] >= |a| - u
    ensures GoodSplit(a, b, js[l], g + js[l] - l)
  {
    hide Dist, Sound, EntriesSound, Reverse, GoodSplit;
    var m := js[l];
    ForwardEntry(a, b, v, g, js, n, l);
    BackwardInside(a, b, v, n, m, u);
    MeetingBehind(a, b, v, n, m, u);
    assert g + m - l == m - (|a| - |b| - n);
  }

  lemma {:induction false} MeetingBehind(a: Text, b: Text, v: int, n: int, m: int, u: int)
    requires 0 <= m <= |a| && 0 <= m - (|a| - |b| - n) <= |b|
    requires 0 <= u <= |a| && u - n <= |b| && m >= |a| - u
    requires Sound(a, b, v, |a| - |b| - n, m) && Sound(Reverse(a), Reverse(b), v, n, u)
    requires Dist(a, b) >= 2 * v && Dist(a, b) >= 2
    ensures GoodSplit(a, b, m, m - (|a| - |b| - n))
  {
    hide Dist, Sound;
    assert |a| - |b| - (|a| - |b| - n) == n;
    Meeting(a, b, v, v, |a| - |b| - n, m, u);
  }

  /** Where the distance is `v + w` and the meeting test on diagonal `n` fails, no shortest path
      crosses that diagonal `v` edits in. */
  lemma {:induction false} NoMeeting(a: Text, b: Text, v: int, w: int, g: int, top: int, es: seq<int>, n: int, m: int)
    requires Dist(a, b) == v + w && w < top && Covers(a, b, v, n, m)
    requires Reached(Reverse(a), Reverse(b), w, g, top, es)
    requires var l := g + (|a| - |b|) - n; !(0 <= l < |es| && es[l] != -1 && m >= |a| - es[l])
    ensures NoPathOn(a, b, v, n)
  {
    hide Dist, Reached, Reverse;
    forall x, y | OnPath(a, b, x, y, v)
      ensures x - y != n
    {
      if x - y == n {
        MeetsPath(a, b, v, w, g, top, es, n, x, y);
      }
    }
  }

  /** Step `v` of the forward frontier. When the distance is odd, the frontiers can meet here. */
  method ForwardStep(a: Text, b: Text, v: int, g: int, j: array<int>, i: array<int>, r0: int, t0: int, ghost p: int, ghost w: int)
    returns (found: bool, x: int, y: int, r: int, t: int)
    requires j != i && 0 <= v < g && j.Length == i.Length == 2 * g
    requires Front(a, b, v, g, j[..], r0, t0)
    requires Front(Reverse(a), Reverse(b), v, g, i[..], p, w)
    requires Dist(a, b) >= 2 * v - 1 && Dist(a, b) >= v && Dist(a, b) >= 2
    modifies j
    ensures found ==> GoodSplit(a, b, x, y)
    ensures !found ==> Front(a, b, v + 1, g, j[..], r, t) && Dist(a, b) >= 2 * v
  {
    hide Dist, Slide, Sound, Front, MidFront, EntriesSound, Reached, Trimmed, Covers, NoPathOn, AllAbove, GoodSplit, Reverse;
    found, x, y, r, t := false, 0, 0, r0, t0;
    var h, k := j.Length, |a| - |b|;
    var odd := k % 2 != 0;
    var n := -v + r;
    Enter(a, b, v, g, j[..], r, t);
    FrontFacts(Reverse(a), Reverse(b), v, g, i[..], p, w);
    while n <= v - t
      invariant -v + r <= n && MidFront(a, b, v, g, j[..], r, t, n)
      invariant odd && Dist(a, b) == 2 * v - 1 ==> AllAbove(a, b, v, n)
      decreases v - t - n
    {
      MidBounds(a, b, v, g, j[..], r, t, n);
      var l := g + n;
      var m := if n == -v || (n != v && j[l - 1] < j[l + 1]) then j[l + 1] else j[l - 1] + 1;
      var s := m - n;
      ghost var m0 := m;
      m, s := SlideForward(a, b, m, s);
      NewEntry(a, b, v, g, j[..], r, t, n, m0, m);
      Advance(a, b, v, g, j[..], r, t, n, m);
      ghost var was := j[..];
      j[l] := m;
      assert j[..] == was[l := m];
      if m > |a| {
        PastRight(a, b, v, g, j[..], r, t, n, m);
        t := t + 2;
      } else if s > |b| {
        PastBottom(a, b, v, g, j[..], r, t, n, m);
        r := r + 2;
      } else if odd {
        l := g + k - n;
        if 0 <= l < h && i[l] != -1 {
          var u := |a| - i[l];
          if m >= u {
            ForwardMeeting(a, b, v, g, i[..], n, m);
            return true, m, s, r, t;
          }
        }
        if Dist(a, b) == 2 * v - 1 {
          NoMeeting(a, b, v, v - 1, g, v, i[..], n, m);
        }
      }
      if odd && Dist(a, b) == 2 * v - 1 {
        NoneHere(a, b, v, n);
      }
      n := n + 2;
    }
    MidFacts(a, b, v, g, j[..], r, t, n);
    Leave(a, b, v, g, j[..], r, t, n);
    SomePathPoint(a, b, v, r, t, n);
    Parity(a, b);
  }

  /** Step `v` of the backward frontier. When the distance is even, the frontiers can meet here. */
  method BackwardStep(a: Text, b: Text, v: int, g: int, j: array<int>, i: array<int>, p0: int, w0: int, ghost r: int, ghost t: int)
    returns (found: bool, x: int, y: int, p: int, w: int)
    requires j != i && 0 <= v < g && j.Length == i.Length == 2 * g
    requires Front(a, b, v + 1, g, j[..], r, t)
    requires Front(Reverse(a), Reverse(b), v, g, i[..], p0, w0)
    requires Dist(a, b) >= 2 * v && Dist(a, b) >= 2
    modifies i
    ensures found ==> GoodSplit(a, b, x, y)
    ensures !found ==> Front(Reverse(a), Reverse(b), v + 1, g, i[..], p, w) && Dist(a, b) >= 2 * v + 1
  {
    hide Dist, Slide, Sound, Front, MidFront, EntriesSound, Reached, Trimmed, Covers, NoPathOn, AllAbove, GoodSplit, Reverse;
    found, x, y, p, w := false, 0, 0, p0, w0;
    var h, k := i.Length, |a| - |b|;
    var odd := k % 2 != 0;
    var n := -v + p;
    ghost var ra, rb := Reverse(a), Reverse(b);
    DistReverse(a, b);
    ReverseTwice(a);
    ReverseTwice(b);
    Enter(ra, rb, v, g, i[..], p, w);
    FrontFacts(a, b, v + 1, g, j[..], r, t);
    while n <= v - w
      invariant -v + p <= n && MidFront(ra, rb, v, g, i[..], p, w, n)
      invariant !odd && Dist(a, b) == 2 * v ==> AllAbove(ra, rb, v, n)
      decreases v - w - n
    {
      MidBounds(ra, rb, v, g, i[..], p, w, n);
      var l := g + n;
      var u := if n == -v || (n != v && i[l - 1] < i[l + 1]) then i[l + 1] else i[l - 1] + 1;
      var m := u - n;
      ghost var u0 := u;
      u, m := SlideBackward(a, b, u, m);
      NewEntry(ra, rb, v, g, i[..], p, w, n, u0, u);
      Advance(ra, rb, v, g, i[..], p, w, n, u);
      ghost var was := i[..];
      i[l] := u;
      assert i[..] == was[l := u];
      if u > |a| {
        PastRight(ra, rb, v, g, i[..], p, w, n, u);
        w := w + 2;
      } else if m > |b| {
        PastBottom(ra, rb, v, g, i[..], p, w, n, u);
        p := p + 2;
      } else if !odd {
        l := g + k - n;
        if 0 <= l < h && j[l] != -1 {
          var m := j[l];
          var s := g + m - l;
          if m >= |a| - u {
            BackwardMeeting(a, b, v, g, j[..], n, u, l);
            return true, m, s, p, w;
          }
        }
        if Dist(a, b) == 2 * v {
          NoMeeting(ra, rb, v, v, g, v + 1, j[..], n, u);
        }
      }
      if !odd && Dist(a, b) == 2 * v {
        NoneHere(ra, rb, v, n);
      }
      n := n + 2;
    }
    MidFacts(ra, rb, v, g, i[..], p, w, n);
    Leave(ra, rb, v, g, i[..], p, w, n);
    SomePathPoint(ra, rb, v, p, w, n);
    Parity(a, b);
  }

  lemma FrontFacts(a: Text, b: Text, v: int, g: int, js: seq<int>, r: int, t: int)
    requires Front(a, b, v, g, js, r, t)
    ensures |js| == 2 * g && EntriesSound(a, b, v, g, js) && Reached(a, b, v - 1, g, v, js)
  {
  }

  lemma MidFacts(a: Text, b: Text, v: int, g: int, js: seq<int>, r: int, t: int, n: int)
    requires MidFront(a, b, v, g, js, r, t, n)
    ensures Trimmed(a, b, v, r, t)
  {
  }

  lemma InitialFront(a: Text, b: Text, g: int, js: seq<int>)
    requires g >= 2 && |js| == 2 * g
    requires forall l :: 0 <= l < |js| ==> js[l] == if l == g + 1 then 0 else -1
    ensures Front(a, b, 0, g, js, 0, 0)
  {
    forall x, y, c | c >= 0 && OnPath(a, b, x, y, c)
      ensures -c <= x - y <= c
    {
      OnPathBounds(a, b, x, y, c);
    }
    assert forall x, y :: !OnPath(a, b, x, y, -1);
  }

  /** The search of `diff_bisect_`. Texts that share neither end are split at a point of a
      shortest edit path, off both corners; a search that is not cut short by
      the deadline fails only when the texts have nothing in common at all. */
  method FindSplit(a: Text, b: Text, deadline: Deadline) returns (found: bool, x: int, y: int)
    requires a != [] && b != [] && |a| + |b| >= 3
    requires a[0] != b[0] && a[|a| - 1] != b[|b| - 1]
    ensures found ==> GoodSplit(a, b, x, y)
    ensures !found && deadline.Never? ==> Dist(a, b) == |a| + |b|
  {
    hide Dist;
    found, x, y := false, 0, 0;
    AtLeastTwo(a, b);
    LengthBound(a, b);
    Parity(a, b);
    var f := (|a| + |b| + 1) / 2;
    var g, h := f, 2 * f;
    var j := new int[h](_ => -1);
    var i := new int[h](_ => -1);
    j[g + 1] := 0;
    i[g + 1] := 0;
    InitialFront(a, b, g, j[..]);
    InitialFront(Reverse(a), Reverse(b), g, i[..]);
    var r, t, p, w := 0, 0, 0, 0;
    var v := 0;
    while v < f
      invariant 0 <= v <= f
      invariant Front(a, b, v, g, j[..], r, t)
      invariant Front(Reverse(a), Reverse(b), v, g, i[..], p, w)
      invariant Dist(a, b) >= 2 * v - 1
    {
      var late := Expired(deadline);
      if late {
        return;
      }
      found, x, y, r, t := ForwardStep(a, b, v, g, j, i, r, t, p, w);
      if found {
        return;
      }
      found, x, y, p, w := BackwardStep(a, b, v, g, j, i, p, w, r, t);
      if found {
        return;
      }
      v := v + 1;
    }
  }
}
