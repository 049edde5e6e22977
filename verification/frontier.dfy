/** The frontier of Myers' bisection. Entry `g + n` of a frontier array holds the
    furthest column reached on diagonal `n`; its row is the column minus `n`.
    Every entry is sound (it promises no more than an edit path can deliver, also
    beyond the edges of the edit grid), and no entry falls behind a shortest path. */
module Frontier {
  import opened Texts
  import opened Distance

  /** Slides down the diagonal from column `m`, row `s`, while the units match. */
  function Slide(a: Text, b: Text, m: int, s: int): int
    decreases |a| - m
  {
    if m < |a| && s < |b| && CharAt(a, m) == CharAt(b, s) then Slide(a, b, m + 1, s + 1) else m
  }

  lemma {:induction false} SlideRuns(a: Text, b: Text, m: int, s: int)
    requires m >= 0
    ensures var r := Slide(a, b, m, s);
            && m <= r && (m < r ==> r <= |a| && 0 <= s && s + r - m <= |b|)
            && (r < |a| && 0 <= s && s + r - m < |b| ==> a[r] != b[s + r - m])
    decreases |a| - m
  {
    if m < |a| && s < |b| && CharAt(a, m) == CharAt(b, s) {
      SlideRuns(a, b, m + 1, s + 1);
    }
  }

  /** The entry `m` on diagonal `n` is worth at most `v` edits. Inside the grid the
      point can be reached with `v` edits; inside or outside, the whole distance is at most
      `v` plus what is left to the far corner, overshoot counting negative. */
  ghost predicate Sound(a: Text, b: Text, v: int, n: int, m: int) {
    && m >= -1
    && (m >= 0 && m - n >= 0 ==>
          && (m <= |a| && m - n <= |b| ==> Dist(a[..m], b[..m - n]) <= v)
          && Dist(a, b) <= v + |a| + |b| - m - (m - n))
  }

  lemma InsideSound(a: Text, b: Text, v: int, n: int, m: int)
    requires 0 <= m <= |a| && 0 <= m - n <= |b| && Dist(a[..m], b[..m - n]) <= v
    ensures Sound(a, b, v, n, m)
  {
    Joined(a, b, m, m - n);
    LengthBound(a[m..], b[m - n..]);
  }

  lemma {:induction false} SlideSound(a: Text, b: Text, v: int, n: int, m: int)
    requires m >= 0 && Sound(a, b, v, n, m)
    ensures Sound(a, b, v, n, Slide(a, b, m, m - n))
    decreases |a| - m
  {
    var s := m - n;
    if m < |a| && s < |b| && CharAt(a, m) == CharAt(b, s) {
      assert s >= 0;
      Stretch(a, b, m, s);
      InsideSound(a, b, v, n, m + 1);
      SlideSound(a, b, v, n, m + 1);
    }
  }

  lemma StepRight(a: Text, b: Text, v: int, n: int, m: int)
    requires Sound(a, b, v - 1, n - 1, m) && -v <= n
    ensures Sound(a, b, v, n, m + 1)
  {
    var s := m - (n - 1);
    if m == -1 {
      if 0 <= s {
        if s <= |b| {
          InsideSound(a, b, v, n, 0);
        } else {
          LengthBound(a, b);
        }
      }
    } else if 0 <= s <= |b| && m < |a| {
      assert a[..m + 1] == a[..m] + [a[m]] && b[..s] == b[..s] + [];
      Subadditive(a[..m], b[..s], [a[m]], []);
      InsideSound(a, b, v, n, m + 1);
    } else if 0 <= s <= |b| && m == |a| {
      Joined(a, b, m, s);
    }
  }

  lemma StepDown(a: Text, b: Text, v: int, n: int, m: int)
    requires Sound(a, b, v - 1, n + 1, m) && n <= v
    ensures Sound(a, b, v, n, m)
  {
    var s := m - (n + 1);
    if m >= 0 && s == -1 {
      LengthBound(a, b);
      if m <= |a| {
        InsideSound(a, b, v, n, m);
      }
    } else if m >= 0 && 0 <= s < |b| && m <= |a| {
      assert b[..s + 1] == b[..s] + [b[s]] && a[..m] == a[..m] + [];
      Subadditive(a[..m], b[..s], [], [b[s]]);
      InsideSound(a, b, v, n, m);
    } else if m >= 0 && s == |b| && m <= |a| {
      Joined(a, b, m, s);
    }
  }

  // ----- the whole array

  ghost predicate EntriesSound(a: Text, b: Text, v: int, g: int, js: seq<int>) {
    forall l :: 0 <= l < |js| ==> Sound(a, b, if (l - g - v) % 2 == 0 then v else v - 1, l - g, js[l])
  }

  /** Every path point at cost `v` on a diagonal below `top` has been reached. */
  ghost predicate Reached(a: Text, b: Text, v: int, g: int, top: int, js: seq<int>) {
    forall x, y :: OnPath(a, b, x, y, v) && x - y < top ==> 0 <= g + x - y < |js| && js[g + x - y] >= x
  }

  /** The entry `m` on diagonal `n` is not behind any path point of cost `v`. */
  ghost predicate Covers(a: Text, b: Text, v: int, n: int, m: int) {
    forall x, y :: OnPath(a, b, x, y, v) && x - y == n ==> m >= x
  }

  ghost predicate NoPathOn(a: Text, b: Text, v: int, n: int) {
    forall x, y :: OnPath(a, b, x, y, v) ==> x - y != n
  }

  /** No path point of cost `v` lies below diagonal `n`. */
  ghost predicate AllAbove(a: Text, b: Text, v: int, n: int) {
    forall x, y :: OnPath(a, b, x, y, v) ==> x - y >= n
  }

  /** The diagonals trimmed off so far, `r` at the low and `t` at the high end, hold no
      path point of cost `v` or more. */
  ghost predicate Trimmed(a: Text, b: Text, v: int, r: int, t: int) {
    forall x, y, c :: c >= v && OnPath(a, b, x, y, c) ==> -c + r <= x - y <= c - t
  }

  /** The state of one frontier before step `v`. */
  ghost predicate Front(a: Text, b: Text, v: int, g: int, js: seq<int>, r: int, t: int) {
    && 0 <= v <= g && |js| == 2 * g && r % 2 == 0 && r >= 0 && t >= 0
    && EntriesSound(a, b, v, g, js)
    && Reached(a, b, v - 1, g, v, js)
    && Trimmed(a, b, v, r, t)
    && (if v == 0 then r == 0 && g >= 2 && js[g + 1] == 0 else r == 0 ==> js[g - v + 1] >= 0)
  }

  /** The column from which step `v` slides down diagonal `n`. */
  function Start(js: seq<int>, g: int, n: int, v: int): int
    requires -v <= n <= v < g && |js| == 2 * g
    requires v == 0 ==> g >= 2
  {
    if n == -v || (n != v && js[g + n - 1] < js[g + n + 1]) then js[g + n + 1] else js[g + n - 1] + 1
  }

  /** The state of one frontier in step `v`, before diagonal `n`. */
  ghost predicate MidFront(a: Text, b: Text, v: int, g: int, js: seq<int>, r: int, t: int, n: int) {
    && 0 <= v < g && |js| == 2 * g && r % 2 == 0 && r >= 0 && t >= 0
    && -v <= n && (n - v) % 2 == 0
    && EntriesSound(a, b, v, g, js)
    && Reached(a, b, v - 1, g, v, js)
    && Reached(a, b, v, g, n, js)
    && Trimmed(a, b, v, r, t)
    && (v == 0 ==> g >= 2 && (n == 0 ==> js[g + 1] == 0))
    && (n == -v && v > 0 && r == 0 ==> js[g - v + 1] >= 0)
    && (n > -v && r == 0 ==> js[g - v] >= 0)
    && (n == -v ==> r == 0)
  }

  lemma {:induction false} OnPathBounds(a: Text, b: Text, x: int, y: int, c: int)
    requires OnPath(a, b, x, y, c)
    ensures 0 <= c <= Dist(a, b) && -c <= x - y <= c
    ensures Dist(a, b) >= c + (x - y) - (|a| - |b|)
    ensures Dist(a, b) >= c - (x - y) + (|a| - |b|)
  {
    LengthBound(a[..x], b[..y]);
    LengthBound(a[x..], b[y..]);
  }

  lemma OnPathParity(a: Text, b: Text, x: int, y: int, c: int)
    requires OnPath(a, b, x, y, c)
    ensures (x - y - c) % 2 == 0
  {
    Parity(a[..x], b[..y]);
    SameParity(x, y, c);
  }

  lemma SameParity(x: int, y: int, c: int)
    requires (c - x - y) % 2 == 0
    ensures (x - y - c) % 2 == 0
  {
  }

  lemma StartSound(a: Text, b: Text, v: int, g: int, js: seq<int>, r: int, t: int, n: int)
    requires MidFront(a, b, v, g, js, r, t, n) && n <= v
    ensures Start(js, g, n, v) >= 0 && Sound(a, b, v, n, Start(js, g, n, v))
  {
    hide Dist, Sound, Reached, Trimmed;
    if n == -v || (n != v && js[g + n - 1] < js[g + n + 1]) {
      EntrySound(a, b, v, g, js, n + 1);
      StepDown(a, b, v, n, js[g + n + 1]);
    } else {
      EntrySound(a, b, v, g, js, n - 1);
      StepRight(a, b, v, n, js[g + n - 1]);
    }
    if n > -v {
      EntrySound(a, b, v, g, js, n - 1);
    }
  }

  lemma {:induction false} StepSound(a: Text, b: Text, v: int, g: int, js: seq<int>, r: int, t: int, n: int)
    requires MidFront(a, b, v, g, js, r, t, n) && n <= v
    ensures var m := Start(js, g, n, v);
            m >= 0 && Sound(a, b, v, n, m) && Sound(a, b, v, n, Slide(a, b, m, m - n))
  {
    hide Dist, Sound;
    StartSound(a, b, v, g, js, r, t, n);
    SlideSound(a, b, v, n, Start(js, g, n, v));
  }

  lemma {:induction false} StepReaches(a: Text, b: Text, v: int, g: int, js: seq<int>, r: int, t: int, n: int, x: nat, y: nat)
    requires MidFront(a, b, v, g, js, r, t, n) && n <= v
    requires OnPath(a, b, x, y, v) && x - y == n
    requires Start(js, g, n, v) >= 0
    ensures var m := Start(js, g, n, v); Slide(a, b, m, m - n) >= x
  {
    var m := Start(js, g, n, v);
    SlideRuns(a, b, m, m - n);
    hide Slide, OnPath;
    if v == 0 {
      ZeroCost(a, b, x, y);
      SlideCovers(a, b, 0, x, n, m);
    } else {
      var x0, y0 := StartReaches(a, b, v, g, js, n, x, y);
      SlideCovers(a, b, x0, x, n, m);
    }
  }

  lemma ZeroCost(a: Text, b: Text, x: nat, y: nat)
    requires OnPath(a, b, x, y, 0)
    ensures x == y
    ensures forall i :: 0 <= i < x ==> a[i] == b[i]
  {
    DistZero(a[..x], b[..y]);
    assert forall i :: 0 <= i < x ==> a[i] == a[..x][i] && b[i] == b[..y][i];
  }

  lemma StartReaches(a: Text, b: Text, v: int, g: int, js: seq<int>, n: int, x: nat, y: nat)
    returns (x0: nat, y0: nat)
    requires 0 < v < g && |js| == 2 * g && -v <= n <= v
    requires Reached(a, b, v - 1, g, v, js)
    requires OnPath(a, b, x, y, v) && x - y == n
    ensures x0 <= x && y0 <= y && x - y == x0 - y0
    ensures forall i :: x0 <= i < x ==> a[i] == b[i - x + y]
    ensures Start(js, g, n, v) >= x0
  {
    var right;
    x0, y0, right := PreviousPoint(a, b, x, y, v);
    if right {
      OnPathBounds(a, b, x0 - 1, y0, v - 1);
      assert js[g + (x0 - 1) - y0] >= x0 - 1;
    } else {
      OnPathBounds(a, b, x0, y0 - 1, v - 1);
      assert js[g + x0 - (y0 - 1)] >= x0;
    }
  }

  /** A slide that starts on a matching stretch does not stop inside it. */
  lemma {:induction false} SlideCovers(a: Text, b: Text, x0: nat, x: nat, n: int, m: nat)
    requires x0 <= x <= |a| && 0 <= x0 - n && x - n <= |b| && m >= x0
    requires forall i :: x0 <= i < x ==> a[i] == b[i - n]
    ensures Slide(a, b, m, m - n) >= x
    decreases |a| - m
  {
    SlideRuns(a, b, m, m - n);
    if m < x {
      assert a[m] == b[m - n];
      SlideCovers(a, b, x0, x, n, m + 1);
    }
  }

  /** An entry past the right edge rules out path points on its diagonal and above. */
  lemma OffRight(a: Text, b: Text, v: int, n: int, m: int, x: int, y: int, c: int)
    requires Sound(a, b, v, n, m) && m > |a|
    requires c >= v && OnPath(a, b, x, y, c)
    ensures x - y <= n - 2
  {
    OnPathBounds(a, b, x, y, c);
  }

  lemma OffBottom(a: Text, b: Text, v: int, n: int, m: int, x: int, y: int, c: int)
    requires Sound(a, b, v, n, m) && 0 <= m && m - n > |b|
    requires c >= v && OnPath(a, b, x, y, c)
    ensures x - y >= n + 2 + (c - v)
  {
    OnPathBounds(a, b, x, y, c);
  }

  lemma TrimHigh(a: Text, b: Text, v: int, r: int, t: int, n: int, m: int)
    requires Trimmed(a, b, v, r, t) && Sound(a, b, v, n, m) && m > |a| && n <= v - t
    ensures Trimmed(a, b, v, r, t + 2)
  {
    forall x, y, c | c >= v && OnPath(a, b, x, y, c)
      ensures -c + r <= x - y <= c - (t + 2)
    {
      OffRight(a, b, v, n, m, x, y, c);
    }
  }

  lemma TrimLow(a: Text, b: Text, v: int, r: int, t: int, n: int, m: int)
    requires Trimmed(a, b, v, r, t) && Sound(a, b, v, n, m) && 0 <= m && m - n > |b| && -v + r <= n
    ensures Trimmed(a, b, v, r + 2, t)
  {
    forall x, y, c | c >= v && OnPath(a, b, x, y, c)
      ensures -c + (r + 2) <= x - y <= c - t
    {
      OffBottom(a, b, v, n, m, x, y, c);
    }
  }

  // ----- how one step changes the state

  lemma Enter(a: Text, b: Text, v: int, g: int, js: seq<int>, r: int, t: int)
    requires Front(a, b, v, g, js, r, t) && v < g
    ensures MidFront(a, b, v, g, js, r, t, -v + r) && AllAbove(a, b, v, -v + r)
  {
    assert forall x, y :: OnPath(a, b, x, y, v) ==> x - y >= -v + r;
  }

  lemma Advance(a: Text, b: Text, v: int, g: int, js: seq<int>, r: int, t: int, n: int, m: int)
    requires MidFront(a, b, v, g, js, r, t, n) && n <= v
    requires m >= 0 && Sound(a, b, v, n, m) && Covers(a, b, v, n, m)
    ensures MidFront(a, b, v, g, js[g + n := m], r, t, n + 2)
  {
    var js' := js[g + n := m];
    assert EntriesSound(a, b, v, g, js');
    StillReached(a, b, v, g, js, n, m);
    NewlyReached(a, b, v, g, js, n, m);
  }

  lemma StillReached(a: Text, b: Text, v: int, g: int, js: seq<int>, n: int, m: int)
    requires 0 <= g + n < |js| && (n - v) % 2 == 0
    requires Reached(a, b, v - 1, g, v, js)
    ensures Reached(a, b, v - 1, g, v, js[g + n := m])
  {
    hide OnPath;
    var u := v - 1;
    forall x, y | OnPath(a, b, x, y, u) && x - y < v
      ensures 0 <= g + x - y < |js| && js[g + n := m][g + x - y] >= x
    {
      OnPathParity(a, b, x, y, u);
      assert x - y != n;
    }
  }

  lemma NewlyReached(a: Text, b: Text, v: int, g: int, js: seq<int>, n: int, m: int)
    requires 0 <= g + n < |js| && (n - v) % 2 == 0
    requires Reached(a, b, v, g, n, js)
    requires Covers(a, b, v, n, m)
    ensures Reached(a, b, v, g, n + 2, js[g + n := m])
  {
    hide OnPath;
    forall x, y | OnPath(a, b, x, y, v) && x - y < n + 2
      ensures 0 <= g + x - y < |js| && js[g + n := m][g + x - y] >= x
    {
      OnPathParity(a, b, x, y, v);
      assert x - y == n || x - y < n;
    }
  }

  lemma {:induction false} Leave(a: Text, b: Text, v: int, g: int, js: seq<int>, r: int, t: int, n: int)
    requires MidFront(a, b, v, g, js, r, t, n) && n > v - t && v <= Dist(a, b)
    ensures Front(a, b, v + 1, g, js, r, t)
  {
    var x, y := PathPoint(a, b, v);
    assert n > -v;
    forall x, y | OnPath(a, b, x, y, v) && x - y < v + 1
      ensures 0 <= g + x - y < |js| && js[g + x - y] >= x
    {
    }
    forall l | 0 <= l < |js|
      ensures Sound(a, b, if (l - g - (v + 1)) % 2 == 0 then v + 1 else v, l - g, js[l])
    {
      assert Sound(a, b, if (l - g - v) % 2 == 0 then v else v - 1, l - g, js[l]);
    }
  }

  /** Entries of the diagonals that step `v` leaves alone are sound at the cost before. */
  lemma EntrySound(a: Text, b: Text, v: int, g: int, js: seq<int>, n: int)
    requires EntriesSound(a, b, v, g, js) && 0 <= g + n < |js| && (n - v) % 2 != 0
    ensures Sound(a, b, v - 1, n, js[g + n]) && js[g + n] >= -1
  {
    var l := g + n;
    assert l - g == n && Sound(a, b, if (l - g - v) % 2 == 0 then v else v - 1, l - g, js[l]);
  }

  lemma NewEntryCovers(a: Text, b: Text, v: int, g: int, js: seq<int>, r: int, t: int, n: int, m0: nat, m: int)
    requires MidFront(a, b, v, g, js, r, t, n) && n <= v
    requires m0 == Start(js, g, n, v) && m == Slide(a, b, m0, m0 - n)
    ensures Covers(a, b, v, n, m)
  {
    hide Dist, Sound, MidFront, Slide, Start;
    forall x, y | OnPath(a, b, x, y, v) && x - y == n
      ensures m >= x
    {
      StepReaches(a, b, v, g, js, r, t, n, x, y);
    }
  }

  /** The new entry on diagonal `n` is sound, is not overtaken by any path point, and stays
      inside the grid when there is one. */
  lemma NewEntry(a: Text, b: Text, v: int, g: int, js: seq<int>, r: int, t: int, n: int, m0: int, m: int)
    requires MidFront(a, b, v, g, js, r, t, n) && -v <= n <= v < g && |js| == 2 * g && (v == 0 ==> g >= 2)
    requires m0 == Start(js, g, n, v) && m == Slide(a, b, m0, m0 - n)
    ensures m >= 0 && Sound(a, b, v, n, m) && Covers(a, b, v, n, m)
    ensures m > |a| || m - n > |b| ==> NoPathOn(a, b, v, n)
  {
    hide Dist, Sound, MidFront, Slide, NoPathOn, Covers, Start;
    StepSound(a, b, v, g, js, r, t, n);
    SlideRuns(a, b, m0, m0 - n);
    NewEntryCovers(a, b, v, g, js, r, t, n, m0, m);
    if m > |a| || m - n > |b| {
      OffGrid(a, b, v, n, m);
    }
  }

  lemma OffGrid(a: Text, b: Text, v: int, n: int, m: int)
    requires m >= 0 && Sound(a, b, v, n, m)
    requires m > |a| || m - n > |b|
    ensures NoPathOn(a, b, v, n)
  {
    hide Dist;
    forall x, y | OnPath(a, b, x, y, v)
      ensures x - y != n
    {
      if m > |a| {
        OffRight(a, b, v, n, m, x, y, v);
      } else {
        OffBottom(a, b, v, n, m, x, y, v);
      }
    }
  }

  lemma PastRight(a: Text, b: Text, v: int, g: int, js: seq<int>, r: int, t: int, n: int, m: int)
    requires MidFront(a, b, v, g, js, r, t, n + 2) && Sound(a, b, v, n, m) && m > |a| && n <= v - t
    ensures MidFront(a, b, v, g, js, r, t + 2, n + 2)
  {
    hide Dist, EntriesSound, Reached, Sound;
    TrimHigh(a, b, v, r, t, n, m);
  }

  lemma PastBottom(a: Text, b: Text, v: int, g: int, js: seq<int>, r: int, t: int, n: int, m: int)
    requires MidFront(a, b, v, g, js, r, t, n + 2) && Sound(a, b, v, n, m) && 0 <= m && m - n > |b| && -v + r <= n
    ensures MidFront(a, b, v, g, js, r + 2, t, n + 2)
  {
    hide Dist, EntriesSound, Reached, Sound;
    TrimLow(a, b, v, r, t, n, m);
  }

  lemma MidBounds(a: Text, b: Text, v: int, g: int, js: seq<int>, r: int, t: int, n: int)
    requires MidFront(a, b, v, g, js, r, t, n)
    ensures 0 <= v < g && |js| == 2 * g && r >= 0 && t >= 0 && -v <= n && (n - v) % 2 == 0
    ensures v == 0 ==> g >= 2
  {
  }

  // ----- the two frontiers meet

  /** A path point seen from the far corner. */
  lemma {:induction false} Opposite(a: Text, b: Text, x: int, y: int, c: int)
    requires OnPath(a, b, x, y, c)
    ensures OnPath(Reverse(a), Reverse(b), |a| - x, |b| - y, Dist(a, b) - c)
  {
    hide Dist, Reverse;
    ReverseSplit(a, x);
    ReverseSplit(b, y);
    DistReverse(a[x..], b[y..]);
    DistReverse(a[..x], b[..y]);
    DistReverse(a, b);
  }

  /** Where a path point at cost `v` lies on diagonal `n` and the rest of the path costs `w`,
      the other frontier (`w` edits deep) has an entry that reaches back to it. */
  lemma {:induction false} MeetsPath(a: Text, b: Text, v: int, w: int, g: int, top: int, es: seq<int>, n: int, x: int, y: int)
    requires OnPath(a, b, x, y, v) && x - y == n && Dist(a, b) == v + w && w < top
    requires Reached(Reverse(a), Reverse(b), w, g, top, es)
    ensures 0 <= g + (|a| - |b|) - n < |es| && es[g + (|a| - |b|) - n] >= |a| - x
  {
    hide Dist, OnPath, Reverse;
    Opposite(a, b, x, y, v);
    assert OnPath(Reverse(a), Reverse(b), |a| - x, |b| - y, w);
    OnPathBounds(Reverse(a), Reverse(b), |a| - x, |b| - y, w);
  }

  /** The inner point on diagonal `n` of one direction and an entry `u` on the same line of the other,
      when neither side can be too optimistic: the entry is inside the grid too. */
  lemma {:induction false} OtherInside(a: Text, b: Text, v: int, w: int, n: int, m: int, u: int)
    requires 0 <= m <= |a| && m - n <= |b|
    requires -v <= n <= v && Dist(a, b) >= v + w
    requires u >= 0 && Sound(Reverse(a), Reverse(b), w, |a| - |b| - n, u)
    requires m >= |a| - u
    ensures u <= |a| && 0 <= u - (|a| - |b| - n) <= |b|
  {
    DistReverse(a, b);
  }

  /** A meeting of the frontiers is a point on a shortest path, and not a corner. */
  lemma {:induction false} Meeting(a: Text, b: Text, v: int, w: int, n: int, m: int, u: int)
    requires 0 <= m <= |a| && m - n <= |b|
    requires u <= |a| && 0 <= u - (|a| - |b| - n) <= |b| && u >= 0
    requires m >= |a| - u
    requires Sound(a, b, v, n, m) && Sound(Reverse(a), Reverse(b), w, |a| - |b| - n, u)
    requires Dist(a, b) >= v + w && Dist(a, b) >= 2
    requires v - 1 <= w <= v
    ensures 0 <= m - n && Dist(a[..m], b[..m - n]) + Dist(a[m..], b[m - n..]) == Dist(a, b)
    ensures 0 < m + (m - n) < |a| + |b|
  {
    hide Dist;
    var x, y := |a| - u, |a| - u - n;
    var s := m - n;
    BackwardSound(a, b, w, x, y);
    DropMany(a[x..], b[y..], m - x);
    assert a[x..][m - x..] == a[m..] && b[y..][m - x..] == b[s..];
    Joined(a, b, m, s);
  }

  /** What an inner entry of the reversed texts says about the suffixes. */
  lemma BackwardSound(a: Text, b: Text, w: int, x: nat, y: nat)
    requires x <= |a| && y <= |b|
    requires Sound(Reverse(a), Reverse(b), w, (|a| - x) - (|b| - y), |a| - x)
    ensures Dist(a[x..], b[y..]) <= w
  {
    ReverseSplit(a, x);
    ReverseSplit(b, y);
    DistReverse(a[x..], b[y..]);
  }
}
