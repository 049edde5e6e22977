/** `diff_halfMatch_`: a common substring of at least half the longer text, found from a
    seed at its first or its second quarter. */
module HalfMatches {
  import opened Texts
  import opened Common

  datatype HalfMatch = NoMatch | Match(a1: Text, a2: Text, b1: Text, b2: Text, mid: Text)

  function Seed(a: Text, i: nat): Text
    requires |a| >= 4 && i + |a| / 4 <= |a|
  {
    a[i..i + |a| / 4]
  }

  /** How far the seed at `i` in `a`, found at `e` in `b`, extends to both sides. */
  function Extent(a: Text, b: Text, i: nat, e: nat): nat
    requires i <= |a| && e <= |b|
  {
    Lcs(a[..i], b[..e]) + Lcp(a[i..], b[e..])
  }

  /** Some occurrence of the seed extends to half the length of `a`. */
  ghost predicate HasHalf(a: Text, b: Text, i: nat)
    requires |a| >= 4 && i + |a| / 4 <= |a|
  {
    exists e :: OccursAt(b, Seed(a, i), e) && 2 * Extent(a, b, i, e) >= |a|
  }

  ghost predicate GoodCut(a: Text, b: Text, a1: Text, a2: Text, b1: Text, b2: Text, mid: Text) {
    a == a1 + mid + a2 && b == b1 + mid + b2
  }

  /** The two texts are cut around the same middle, which is half of the longer one. */
  ghost predicate GoodMatch(a: Text, b: Text, m: HalfMatch) {
    m.Match? && GoodCut(a, b, m.a1, m.a2, m.b1, m.b2, m.mid) && 2 * |m.mid| >= Max(|a|, |b|)
  }

  /** The match around the seed at `i` in `a`, found at `e` in `b`. */
  function Around(a: Text, b: Text, i: nat, e: nat): (m: HalfMatch)
    requires i <= |a| && e <= |b|
    ensures m.Match?
  {
    CutOut(a, b, i, e, Lcs(a[..i], b[..e]), Lcp(a[i..], b[e..]))
  }

  function CutOut(a: Text, b: Text, i: nat, e: nat, s: nat, p: nat): HalfMatch
    requires s <= i <= |a| && s <= e <= |b| && i + p <= |a| && e + p <= |b|
  {
    Match(a[..i - s], a[i + p..], b[..e - s], b[e + p..], b[e - s..e] + b[e..e + p])
  }

  lemma Extended(a: Text, b: Text, i: nat, e: nat)
    requires i <= |a| && e <= |b|
    ensures var m := Around(a, b, i, e);
            |m.mid| == Extent(a, b, i, e) && GoodCut(a, b, m.a1, m.a2, m.b1, m.b2, m.mid)
  {
    var s, p := Lcs(a[..i], b[..e]), Lcp(a[i..], b[e..]);
    hide Lcp, Lcs, GoodCut, CutOut;
    SharedBefore(a, b, i, e, s);
    SharedAfter(a, b, i, e, p);
    GoodCutOut(a, b, i, e, s, p);
  }

  lemma GoodCutOut(a: Text, b: Text, i: nat, e: nat, s: nat, p: nat)
    requires s <= i <= |a| && s <= e <= |b| && i + p <= |a| && e + p <= |b|
    requires a[i - s..i] == b[e - s..e] && a[i..i + p] == b[e..e + p]
    ensures var m := CutOut(a, b, i, e, s, p);
            |m.mid| == s + p && GoodCut(a, b, m.a1, m.a2, m.b1, m.b2, m.mid)
  {
    CutAt(a, i - s, i, i + p);
    CutAt(b, e - s, e, e + p);
  }

  lemma SharedBefore(a: Text, b: Text, i: nat, e: nat, s: nat)
    requires i <= |a| && e <= |b| && s == Lcs(a[..i], b[..e])
    ensures s <= i && s <= e && a[i - s..i] == b[e - s..e]
  {
    hide Lcs;
    SharedSuffix(a[..i], b[..e]);
    assert a[..i][i - s..] == a[i - s..i] && b[..e][e - s..] == b[e - s..e];
  }

  lemma SharedAfter(a: Text, b: Text, i: nat, e: nat, m: nat)
    requires i <= |a| && e <= |b| && m == Lcp(a[i..], b[e..])
    ensures i + m <= |a| && e + m <= |b| && a[i..i + m] == b[e..e + m]
  {
    hide Lcp;
    LcpStretch(a[i..], b[e..], 0, m);
    assert a[i..][0..m] == a[i..i + m] && b[e..][0..m] == b[e..e + m];
  }

  lemma CutAt(a: Text, i: nat, k: nat, m: nat)
    requires i <= k <= m <= |a|
    ensures a == a[..i] + (a[i..k] + a[k..m]) + a[m..]
  {
  }

  /** How far the seed extends at `at`; nothing at no place. */
  ghost function Reach(a: Text, b: Text, i: nat, at: int): nat
    requires i <= |a| && -1 <= at <= |b|
  {
    if at == -1 then 0 else Extent(a, b, i, at)
  }

  /** The first of the places before `n` where the seed extends furthest, or -1. */
  ghost function BestPlace(a: Text, b: Text, i: nat, n: nat): (at: int)
    requires |a| >= 4 && i + |a| / 4 <= |a| && n <= |b|
    ensures -1 <= at < n
  {
    if n == 0 then -1
    else
      var at := BestPlace(a, b, i, n - 1);
      if OccursAt(b, Seed(a, i), n - 1) && Reach(a, b, i, at) < Extent(a, b, i, n - 1) then n - 1 else at
  }

  /** The seed, found at `k`, extends less far than at `at`, or as far when `k` does not come first. */
  ghost predicate NoBetter(a: Text, b: Text, i: nat, at: int, k: nat)
    requires i <= |a| && -1 <= at <= |b| && k <= |b|
  {
    Extent(a, b, i, k) <= Reach(a, b, i, at) && (k < at ==> Extent(a, b, i, k) < Reach(a, b, i, at))
  }

  lemma {:induction false} BestPlaceIsBest(a: Text, b: Text, i: nat, n: nat)
    requires |a| >= 4 && i + |a| / 4 <= |a| && n <= |b|
    ensures var at := BestPlace(a, b, i, n);
            && (at != -1 ==> OccursAt(b, Seed(a, i), at) && Extent(a, b, i, at) > 0)
            && forall k :: 0 <= k < n && OccursAt(b, Seed(a, i), k) ==> NoBetter(a, b, i, at, k)
  {
    hide Extent, OccursAt, Seed;
    if n > 0 {
      BestPlaceIsBest(a, b, i, n - 1);
    }
  }

  /** Places where the seed does not occur do not matter. */
  lemma {:induction false} NothingBetween(a: Text, b: Text, i: nat, n: nat, n': nat)
    requires |a| >= 4 && i + |a| / 4 <= |a| && n <= n' <= |b|
    requires forall k :: n <= k < n' ==> !OccursAt(b, Seed(a, i), k)
    ensures BestPlace(a, b, i, n') == BestPlace(a, b, i, n)
    decreases n' - n
  {
    hide Extent, OccursAt;
    if n < n' {
      NothingBetween(a, b, i, n, n' - 1);
    }
  }

  /** The match from one seed: around its best place, if that reaches half of `a`. */
  ghost function SeedMatch(a: Text, b: Text, i: nat): (m: HalfMatch)
    requires |a| >= 4 && i + |a| / 4 <= |a|
  {
    var at := BestPlace(a, b, i, |b|);
    if 2 * Reach(a, b, i, at) >= |a| then Around(a, b, i, at) else NoMatch
  }

  lemma {:induction false} SeedMatches(a: Text, b: Text, i: nat)
    requires |b| <= |a| && |a| >= 4 && i + |a| / 4 <= |a|
    ensures SeedMatch(a, b, i).Match? <==> HasHalf(a, b, i)
    ensures SeedMatch(a, b, i).Match? ==> GoodMatch(a, b, SeedMatch(a, b, i))
  {
    hide Extent, BestPlace, Lcp, Lcs, GoodCut, OccursAt, Seed;
    SeedInside(a, b, i);
    BestPlaceIsBest(a, b, i, |b|);
    var at := BestPlace(a, b, i, |b|);
    if at != -1 {
      Extended(a, b, i, at);
    }
  }

  lemma SeedInside(a: Text, b: Text, i: nat)
    requires |a| >= 4 && i + |a| / 4 <= |a|
    ensures forall k :: OccursAt(b, Seed(a, i), k) ==> 0 <= k < |b|
  {
  }

  /** What the search holds when it has seen the places before `seen`. */
  ghost predicate SearchHolds(a: Text, b: Text, i: nat, seen: nat, m: HalfMatch)
    requires |a| >= 4 && i + |a| / 4 <= |a| && seen <= |b|
  {
    var at := BestPlace(a, b, i, seen);
    m.Match? && (if at == -1 then m.mid == [] else m == Around(a, b, i, at)) && |m.mid| == Reach(a, b, i, at)
  }

  lemma {:induction false} SeenMore(a: Text, b: Text, i: nat, seen: nat, m: HalfMatch, e: nat, m': HalfMatch)
    requires |a| >= 4 && i + |a| / 4 <= |a| && seen <= |b| && SearchHolds(a, b, i, seen, m)
    requires e == IndexOf(b, Seed(a, i), seen)
    requires e < |b| && if Extent(a, b, i, e) <= |m.mid| then m' == m else m' == Around(a, b, i, e) && |m'.mid| == Extent(a, b, i, e)
    ensures SearchHolds(a, b, i, e + 1, m')
  {
    hide Extent, IndexOf, Around, OccursAt, Seed;
    NothingBetween(a, b, i, seen, e);
  }

  lemma {:induction false} AllSeen(a: Text, b: Text, i: nat, seen: nat, m: HalfMatch)
    requires |a| >= 4 && i + |a| / 4 <= |a| && seen <= |b| && SearchHolds(a, b, i, seen, m)
    requires IndexOf(b, Seed(a, i), seen) == -1
    ensures SeedMatch(a, b, i) == if 2 * |m.mid| >= |a| then m else NoMatch
  {
    hide Extent, IndexOf, Around;
    NothingBetween(a, b, i, seen, |b|);
  }

  /** One round of the search: keeps the longer of the best common part so far and the one around `e`. */
  method Widen(a: Text, b: Text, i: nat, e: nat, h: Text, j: Text, n: Text, l: Text, best: Text)
    returns (h': Text, j': Text, n': Text, l': Text, best': Text)
    requires i <= |a| && e <= |b|
    ensures var m, m' := Match(h, j, n, l, best), Match(h', j', n', l', best');
            if Extent(a, b, i, e) <= |best| then m' == m else m' == Around(a, b, i, e) && |best'| == Extent(a, b, i, e)
  {
    hide Lcp, Lcs;
    h', j', n', l', best' := h, j, n, l, best;
    var p := CommonPrefix(a[i..], b[e..]);
    var s := CommonSuffix(a[..i], b[..e]);
    if |best| < s + p {
      best' := b[e - s..e] + b[e..e + p];
      h', j' := a[..i - s], a[i + p..];
      n', l' := b[..e - s], b[e + p..];
    }
  }

  /** The search from one seed; `a` is the longer text. */
  method MatchFrom(a: Text, b: Text, i: nat) returns (m: HalfMatch)
    requires 4 <= |a| && |b| <= |a| && i + |a| / 4 <= |a|
    ensures m == SeedMatch(a, b, i)
    ensures m.Match? ==> GoodMatch(a, b, m)
    ensures m.Match? <==> HasHalf(a, b, i)
  {
    hide *;
    var d := Seed(a, i);
    var best: Text := [];
    var h, j, n, l: Text := [], a, [], b;
    var e := IndexOf(b, d, 0);
    ghost var seen: nat := 0;
    NothingSeen(a, b, i, Match(h, j, n, l, best));
    while e != -1
      invariant seen <= |b| && e == IndexOf(b, d, seen)
      invariant SearchHolds(a, b, i, seen, Match(h, j, n, l, best))
      decreases |b| - seen
    {
      SeedInside(a, b, i);
      ghost var was := Match(h, j, n, l, best);
      h, j, n, l, best := Widen(a, b, i, e, h, j, n, l, best);
      SeenMore(a, b, i, seen, was, e, Match(h, j, n, l, best));
      seen := e + 1;
      e := IndexOf(b, d, e + 1);
    }
    AllSeen(a, b, i, seen, Match(h, j, n, l, best));
    SeedMatches(a, b, i);
    m := if 2 * |best| >= |a| then Match(h, j, n, l, best) else NoMatch;
  }

  lemma NothingSeen(a: Text, b: Text, i: nat, m: HalfMatch)
    requires |a| >= 4 && i + |a| / 4 <= |a| && m.Match? && m.mid == []
    ensures SearchHolds(a, b, i, 0, m)
  {
  }

  function CeilDiv(n: nat, k: nat): (r: nat)
    requires k > 0
    ensures k * r >= n && k * r < n + k
  {
    (n + k - 1) / k
  }

  /** The two seeds are tried when there is a time limit and the shorter text is at least half the longer. */
  ghost predicate HasHalfMatch(timeout: real, a: Text, b: Text) {
    var long, short := if |a| > |b| then a else b, if |a| > |b| then b else a;
    && timeout > 0.0 && 4 <= |long| && 2 * |short| >= |long|
    && (HasHalf(long, short, CeilDiv(|long|, 4)) || HasHalf(long, short, CeilDiv(|long|, 2)))
  }

  /** The same match with the parts of the two texts exchanged. */
  function Exchanged(m: HalfMatch): HalfMatch {
    if m.Match? then Match(m.b1, m.b2, m.a1, m.a2, m.mid) else m
  }

  /** Of the matches from two seeds the longer one, of equals the second. */
  ghost function Longer(m1: HalfMatch, m2: HalfMatch): HalfMatch {
    if m1.Match? && (m2.Match? ==> |m1.mid| > |m2.mid|) then m1 else m2
  }

  /** No match from a seed is longer; of two that are as long the second one is taken. */
  lemma LongerIsLongest(m1: HalfMatch, m2: HalfMatch)
    ensures var m := Longer(m1, m2);
            && (m.Match? <==> m1.Match? || m2.Match?) && (m == m1 || m == m2)
            && (m1.Match? ==> |m.mid| >= |m1.mid|) && (m2.Match? ==> |m.mid| >= |m2.mid|)
            && (m1.Match? && m2.Match? && |m1.mid| == |m2.mid| ==> m == m2)
  {
  }

  /** The half match of two texts, if they have one. */
  ghost function HalfMatchFor(timeout: real, a: Text, b: Text): HalfMatch {
    var long, short := if |a| > |b| then a else b, if |a| > |b| then b else a;
    if timeout <= 0.0 || 4 > |long| || 2 * |short| < |long| then NoMatch
    else
      var m := Longer(SeedMatch(long, short, CeilDiv(|long|, 4)), SeedMatch(long, short, CeilDiv(|long|, 2)));
      if |a| > |b| then m else Exchanged(m)
  }

  lemma HalfMatchIsGood(timeout: real, a: Text, b: Text)
    ensures var m := HalfMatchFor(timeout, a, b);
            && (m.Match? <==> HasHalfMatch(timeout, a, b))
            && (m.Match? ==> GoodMatch(a, b, m))
  {
    hide HasHalf, SeedMatch, Max;
    var long, short := if |a| > |b| then a else b, if |a| > |b| then b else a;
    if timeout > 0.0 && 4 <= |long| && 2 * |short| >= |long| {
      SeedMatches(long, short, CeilDiv(|long|, 4));
      SeedMatches(long, short, CeilDiv(|long|, 2));
      MaxCommutes(|a|, |b|);
    }
  }

  lemma MaxCommutes(x: int, y: int)
    ensures Max(x, y) == Max(y, x)
  {
  }

  /** The middle is as long as any of the extents of one of the two seeds that reach half of the longer text. */
  ghost predicate LongestHalf(a: Text, b: Text, m: HalfMatch)
    requires m.Match?
  {
    var long, short := if |a| > |b| then a else b, if |a| > |b| then b else a;
    4 <= |long| && 2 * |short| >= |long|
    && forall i, e :: (i == CeilDiv(|long|, 4) || i == CeilDiv(|long|, 2)) && OccursAt(short, Seed(long, i), e) && 2 * Extent(long, short, i, e) >= |long| ==>
         Extent(long, short, i, e) <= |m.mid|
  }

  lemma HalfMatchIsLongest(timeout: real, a: Text, b: Text)
    ensures var m := HalfMatchFor(timeout, a, b); m.Match? ==> LongestHalf(a, b, m)
  {
    var long, short := if |a| > |b| then a else b, if |a| > |b| then b else a;
    if timeout > 0.0 && 4 <= |long| && 2 * |short| >= |long| {
      SeedMatchIsLongest(long, short, CeilDiv(|long|, 4));
      SeedMatchIsLongest(long, short, CeilDiv(|long|, 2));
      hide SeedMatch, Extent, OccursAt, Seed;
    }
  }

  lemma SeedMatchIsLongest(a: Text, b: Text, i: nat)
    requires |b| <= |a| && |a| >= 4 && i + |a| / 4 <= |a|
    ensures forall e :: OccursAt(b, Seed(a, i), e) && 2 * Extent(a, b, i, e) >= |a| ==>
              var m := SeedMatch(a, b, i); m.Match? && Extent(a, b, i, e) <= |m.mid|
  {
    hide Extent, BestPlace, Lcp, Lcs, OccursAt, Seed;
    SeedInside(a, b, i);
    BestPlaceIsBest(a, b, i, |b|);
    var at := BestPlace(a, b, i, |b|);
    if at != -1 {
      Extended(a, b, i, at);
    }
    forall e | OccursAt(b, Seed(a, i), e) && 2 * Extent(a, b, i, e) >= |a|
      ensures var m := SeedMatch(a, b, i); m.Match? && Extent(a, b, i, e) <= |m.mid|
    {
      assert NoBetter(a, b, i, at, e);
    }
  }

  /** `diff_halfMatch_`. */
  method HalfMatchOf(timeout: real, a: Text, b: Text) returns (m: HalfMatch)
    ensures m == HalfMatchFor(timeout, a, b)
    ensures m.Match? ==> GoodMatch(a, b, m) && LongestHalf(a, b, m)
    ensures m.Match? <==> HasHalfMatch(timeout, a, b)
  {
    hide HasHalf, HasHalfMatch, SeedMatch, GoodMatch;
    HalfMatchIsGood(timeout, a, b);
    HalfMatchIsLongest(timeout, a, b);
    if timeout <= 0.0 {
      return NoMatch;
    }
    var long, short := if |a| > |b| then a else b, if |a| > |b| then b else a;
    if 4 > |long| || 2 * |short| < |long| {
      return NoMatch;
    }
    var m1 := MatchFrom(long, short, CeilDiv(|long|, 4));
    var m2 := MatchFrom(long, short, CeilDiv(|long|, 2));
    if m1.NoMatch? && m2.NoMatch? {
      return NoMatch;
    }
    m := if m2.Match? then if m1.Match? then if |m1.mid| > |m2.mid| then m1 else m2 else m2 else m1;
    if |a| <= |b| {
      m := Match(m.b1, m.b2, m.a1, m.a2, m.mid);
    }
  }
}
