/** The last pass of `diff_cleanupSemantic`: where a deletion and the insertion after it overlap
    by half of either, the overlap becomes an equality between them. */
module Overlap {
  import opened Texts
  import opened Common
  import opened Diffs

  lemma NoOverlapFits(a: Text, b: Text)
    ensures Overlaps(a, b, 0)
  {
  }

  /** The length of the longest overlap of `a` into `b`, trying from `k` downwards. */
  function OverlapFrom(a: Text, b: Text, k: nat): (r: nat)
    requires k <= |a| && k <= |b|
    ensures r <= k && Overlaps(a, b, r) && forall i :: r < i <= k ==> !Overlaps(a, b, i)
  {
    NoOverlapFits(a, b);
    if Overlaps(a, b, k) then k else OverlapFrom(a, b, k - 1)
  }

  function OverlapLength(a: Text, b: Text): (r: nat)
    ensures LongestOverlap(a, b, r)
  {
    OverlapFrom(a, b, Min(|a|, |b|))
  }

  lemma LongestIsUnique(a: Text, b: Text, k: nat)
    requires LongestOverlap(a, b, k)
    ensures k == OverlapLength(a, b)
  {
  }

  /** An overlap of length `k` is at least half of one of the two texts. */
  predicate Half(k: nat, b: Text, c: Text) {
    2 * k >= |b| || 2 * k >= |c|
  }

  /** The pair of edits at `i` has a large overlap one way or the other. */
  predicate LargeOverlap(s: seq<Diff>, i: int) {
    && 0 <= i < |s| - 1 && s[i].op == Delete && s[i + 1].op == Insert
    && (Half(OverlapLength(s[i].text, s[i + 1].text), s[i].text, s[i + 1].text)
        || Half(OverlapLength(s[i + 1].text, s[i].text), s[i].text, s[i + 1].text))
  }

  /** What becomes of a deletion of `b` followed by an insertion of `c`: the longer overlap decides. */
  function Pulled(b: Text, c: Text): seq<Diff> {
    var d, e := OverlapLength(b, c), OverlapLength(c, b);
    if d >= e && Half(d, b, c) then [Diff(Delete, b[..|b| - d]), Diff(Equal, c[..d]), Diff(Insert, c[d..])]
    else if d < e && Half(e, b, c) then [Diff(Insert, c[..|c| - e]), Diff(Equal, b[..e]), Diff(Delete, b[e..])]
    else [Diff(Delete, b), Diff(Insert, c)]
  }

  /** The whole pass: pairs of a deletion and an insertion, from left to right. */
  function PulledAll(s: seq<Diff>): seq<Diff> {
    if |s| < 2 then s
    else if s[0].op == Delete && s[1].op == Insert then Pulled(s[0].text, s[1].text) + PulledAll(s[2..])
    else [s[0]] + PulledAll(s[1..])
  }

  lemma PulledTexts(b: Text, c: Text)
    ensures Text1(Pulled(b, c)) == b && Text2(Pulled(b, c)) == c
  {
    hide OverlapLength, Text1, Text2, Half;
    var d, e := OverlapLength(b, c), OverlapLength(c, b);
    PulledOut(Delete, b, c, d);
    PulledOut(Insert, c, b, e);
    Pair(Diff(Delete, b), Diff(Insert, c));
    Single(Diff(Delete, b));
    Single(Diff(Insert, c));
  }

  /** With an overlap pulled out, the first text is in front of the second one. */
  lemma PulledOut(op: Op, b: Text, c: Text, k: nat)
    requires Overlaps(b, c, k) && op != Equal
    ensures var s := [Diff(op, b[..|b| - k]), Diff(Equal, c[..k]), Diff(if op == Delete then Insert else Delete, c[k..])];
            if op == Delete then Text1(s) == b && Text2(s) == c else Text1(s) == c && Text2(s) == b
  {
    hide Text1, Text2;
    OverlapPieces(b, c, k);
    ThreeTexts(Diff(op, b[..|b| - k]), Diff(Equal, c[..k]), Diff(if op == Delete then Insert else Delete, c[k..]));
  }

  lemma OverlapPieces(b: Text, c: Text, k: nat)
    requires Overlaps(b, c, k)
    ensures b[..|b| - k] + c[..k] == b && c[..k] + c[k..] == c
  {
    assert b == b[..|b| - k] + b[|b| - k..];
  }

  lemma ThreeTexts(x: Diff, y: Diff, z: Diff)
    requires y.op == Equal && x.op != Equal && z.op != Equal && x.op != z.op
    ensures x.op == Delete ==> Text1([x, y, z]) == x.text + y.text && Text2([x, y, z]) == y.text + z.text
    ensures x.op == Insert ==> Text1([x, y, z]) == y.text + z.text && Text2([x, y, z]) == x.text + y.text
  {
    Triple(x, y, z);
    Single(x);
    Single(y);
    Single(z);
    hide Text1, Text2;
    assert [] + y.text + z.text == y.text + z.text && x.text + y.text + [] == x.text + y.text;
  }

  /** Pulling overlaps out keeps both texts. */
  lemma {:induction false} PulledAllTexts(s: seq<Diff>)
    ensures SameTexts(PulledAll(s), s)
  {
    hide Pulled, Text1, Text2;
    if |s| >= 2 {
      if s[0].op == Delete && s[1].op == Insert {
        PulledTexts(s[0].text, s[1].text);
        PulledAllTexts(s[2..]);
        assert s == [s[0], s[1]] + s[2..];
        Concat([s[0], s[1]], s[2..]);
        Concat(Pulled(s[0].text, s[1].text), PulledAll(s[2..]));
        Pair(s[0], s[1]);
        Single(s[0]);
        Single(s[1]);
      } else {
        PulledAllTexts(s[1..]);
        assert s == [s[0]] + s[1..];
        Concat([s[0]], s[1..]);
        Concat([s[0]], PulledAll(s[1..]));
      }
    }
  }

  /** A deletion and then an insertion. */
  predicate PairAt(s: seq<Diff>, i: int) {
    0 <= i < |s| - 1 && s[i].op == Delete && s[i + 1].op == Insert
  }

  /** No pair has a deletion right before it, or an insertion or another pair right behind it. */
  ghost predicate PairsApart(s: seq<Diff>) {
    forall i :: PairAt(s, i) ==>
      (i > 0 ==> s[i - 1].op != Delete) && (i + 2 < |s| ==> s[i + 2].op != Insert) && !PairAt(s, i + 2)
  }

  lemma RestApart(s: seq<Diff>, k: nat)
    requires PairsApart(s) && k <= |s|
    ensures PairsApart(s[k..])
  {
    forall i | PairAt(s[k..], i)
      ensures (i > 0 ==> s[k..][i - 1].op != Delete) && (i + 2 < |s[k..]| ==> s[k..][i + 2].op != Insert) && !PairAt(s[k..], i + 2)
    {
      assert PairAt(s, k + i) && (PairAt(s[k..], i + 2) ==> PairAt(s, k + i + 2));
    }
  }

  /** The pass begins an insertion only where the list does, or where a pair does. */
  lemma {:induction false} FirstPulled(s: seq<Diff>)
    ensures PulledAll(s) != [] && PulledAll(s)[0].op == Insert ==> s[0].op == Insert || PairAt(s, 0)
  {
    hide Pulled;
  }

  /** Where the pairs of deletions and insertions are apart, none with a large overlap is left. */
  lemma {:induction false} NoLargeOverlapLeft(s: seq<Diff>)
    requires PairsApart(s)
    ensures forall i :: 0 <= i < |PulledAll(s)| ==> !LargeOverlap(PulledAll(s), i)
  {
    hide OverlapLength, Half, Pulled, PairsApart;
    if |s| >= 2 {
      if PairAt(s, 0) {
        RestApart(s, 2);
        NoLargeOverlapLeft(s[2..]);
        FirstPulled(s[2..]);
        PulledPairs(s[0].text, s[1].text);
        BehindPair(s);
        JoinedPairs(Pulled(s[0].text, s[1].text), PulledAll(s[2..]));
      } else {
        RestApart(s, 1);
        NoLargeOverlapLeft(s[1..]);
        FirstPulled(s[1..]);
        BehindSingle(s);
        JoinedPairs([s[0]], PulledAll(s[1..]));
      }
    }
  }

  lemma BehindPair(s: seq<Diff>)
    requires PairsApart(s) && PairAt(s, 0)
    ensures s[2..] != [] ==> s[2].op != Insert
    ensures !PairAt(s[2..], 0)
    ensures Pulled(s[0].text, s[1].text) != []
  {
    assert PairAt(s[2..], 0) ==> PairAt(s, 0 + 2);
  }

  lemma BehindSingle(s: seq<Diff>)
    requires PairsApart(s) && |s| >= 2 && !PairAt(s, 0)
    ensures s[0].op == Delete ==> s[1].op != Insert && !PairAt(s[1..], 0)
  {
    assert PairAt(s[1..], 0) ==> PairAt(s, 1);
  }

  /** Why the pairs have to be apart: here the pair is pulled out and what follows overlaps with its rest. */
  lemma OverlapLeftBehind(x: Unit, w: Unit, z: Unit)
    requires x != w && x != z && w != z
    ensures var s := [Diff(Delete, [x, w]), Diff(Insert, [z, x]), Diff(Insert, [w])];
            LargeOverlap(PulledAll(s), 2)
  {
    hide OverlapLength;
    var b, c, l := [x, w], [z, x], [w];
    var s := [Diff(Delete, b), Diff(Insert, c), Diff(Insert, l)];
    assert b[1..] == [w] && c[1..] == [x] && b[..1] == [x] && c[..1] == [z];
    assert !Overlaps(b, c, 1) && !Overlaps(b, c, 2) && Overlaps(c, b, 1) && !Overlaps(c, b, 2);
    assert OverlapLength(b, c) == 0 && OverlapLength(c, b) == 1;
    assert Overlaps(l, l, 1);
    assert OverlapLength(l, l) == 1;
    assert s[2..] == [Diff(Insert, l)];
    assert PulledAll(s) == Pulled(b, c) + [Diff(Insert, l)];
  }

  lemma PulledPairs(b: Text, c: Text)
    ensures forall i :: 0 <= i < |Pulled(b, c)| ==> !LargeOverlap(Pulled(b, c), i)
  {
    hide OverlapLength;
  }

  lemma JoinedPairs(m: seq<Diff>, r: seq<Diff>)
    requires m != []
    requires forall i :: 0 <= i < |m| ==> !LargeOverlap(m, i)
    requires forall i :: 0 <= i < |r| ==> !LargeOverlap(r, i)
    requires r != [] && r[0].op == Insert ==> m[|m| - 1].op != Delete
    ensures forall i :: 0 <= i < |m + r| ==> !LargeOverlap(m + r, i)
  {
    hide OverlapLength, Half;
    forall i | 0 <= i < |m + r|
      ensures !LargeOverlap(m + r, i)
    {
      assert i < |m| - 1 ==> !LargeOverlap(m, i);
      assert i >= |m| ==> !LargeOverlap(r, i - |m|);
    }
  }

  /** The last loop of `diff_cleanupSemantic`. */
  method PullOverlaps(a: DiffList)
    modifies a
    ensures a.s == PulledAll(old(a.s))
  {
    hide Pulled;
    var f := 1;
    ghost var done: seq<Diff>, rest := [], a.s;
    while f < |a.s|
      invariant f >= 1 && |done| == f - 1 && a.s == done + rest
      invariant PulledAll(old(a.s)) == done + PulledAll(rest)
      decreases |rest|
    {
      assert a.s[f - 1] == rest[0] && a.s[f] == rest[1];
      if a.s[f - 1].op == Delete && a.s[f].op == Insert {
        var size := PullAt(a, f, done, rest);
        ghost var m := Pulled(rest[0].text, rest[1].text);
        Associate(done, m, PulledAll(rest[2..]));
        done, rest := done + m, rest[2..];
        f := f + size;
      } else {
        Associate(done, [rest[0]], PulledAll(rest[1..]));
        Associate(done, [rest[0]], rest[1..]);
        assert rest == [rest[0]] + rest[1..];
        done, rest := done + [rest[0]], rest[1..];
        f := f + 1;
      }
    }
    assert PulledAll(rest) == rest;
  }

  lemma Associate(x: seq<Diff>, y: seq<Diff>, z: seq<Diff>)
    ensures x + (y + z) == x + y + z
  {
  }

  /** The step of that loop at a deletion and an insertion; it leaves `size` entries in their place. */
  method PullAt(a: DiffList, f: nat, ghost done: seq<Diff>, ghost rest: seq<Diff>) returns (size: nat)
    requires f >= 1 && |done| == f - 1 && a.s == done + rest && |rest| >= 2
    requires rest[0].op == Delete && rest[1].op == Insert
    modifies a
    ensures a.s == done + Pulled(rest[0].text, rest[1].text) + rest[2..]
    ensures size == |Pulled(rest[0].text, rest[1].text)|
  {
    hide OverlapLength;
    var b, c := a.s[f - 1].text, a.s[f].text;
    var d := CommonOverlap(b, c);
    var e := CommonOverlap(c, b);
    LongestIsUnique(b, c, d);
    LongestIsUnique(c, b, e);
    size := 2;
    if d >= e {
      if 2 * d >= |b| || 2 * d >= |c| {
        a.s := Splice(a.s, f, 0, [Diff(Equal, c[..d])]);
        a.s := a.s[f - 1 := Diff(Delete, b[..|b| - d])];
        a.s := a.s[f + 1 := Diff(Insert, c[d..])];
        size := 3;
      }
    } else if 2 * e >= |b| || 2 * e >= |c| {
      a.s := Splice(a.s, f, 0, [Diff(Equal, b[..e])]);
      a.s := a.s[f - 1 := Diff(Insert, c[..|c| - e])];
      a.s := a.s[f + 1 := Diff(Delete, b[e..])];
      size := 3;
    }
    assert a.s == done + Pulled(b, c) + rest[2..];
  }
}
