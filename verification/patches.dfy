/** Patches: stretches of a diff with their places in a rolling text, and lists of them. */
module Patches {
  import opened Texts
  import opened Diffs

  const Margin := 4
  const MaxBits := 32

  datatype Patch = Patch(diffs: seq<Diff>, start1: int, start2: int, length1: nat, length2: nat)

  /** A patch under construction. */
  class PatchObj {
    var diffs: seq<Diff>
    var start1: int
    var start2: int
    var length1: nat
    var length2: nat

    constructor ()
      ensures diffs == [] && length1 == length2 == 0
    {
      diffs := [];
      start1, start2, length1, length2 := 0, 0, 0, 0;
    }

    function Value(): Patch
      reads this
    {
      Patch(diffs, start1, start2, length1, length2)
    }
  }

  class PatchList {
    var s: seq<Patch>

    constructor (items: seq<Patch>)
      ensures s == items
    {
      s := items;
    }
  }

  /** The lengths are those of the two texts of the patch. */
  ghost predicate Measured(h: Patch) {
    h.length1 == |Text1(h.diffs)| && h.length2 == |Text2(h.diffs)|
  }

  /** The old text of the patch stands at its place in `t`. */
  ghost predicate Fits(t: Text, h: Patch) {
    Measured(h) && OccursAt(t, Text1(h.diffs), h.start2)
  }

  /** `t` with the patch carried out. */
  ghost function After(t: Text, h: Patch): Text
    requires Fits(t, h)
  {
    t[..h.start2] + Text2(h.diffs) + t[h.start2 + |Text1(h.diffs)|..]
  }

  /** Carried out one after the other, each where the ones before have left its old text, the patches turn `t` into `u`. */
  ghost predicate Chain(t: Text, ps: seq<Patch>, u: Text)
    decreases |ps|
  {
    if ps == [] then t == u else Fits(t, ps[0]) && Chain(After(t, ps[0]), ps[1..], u)
  }

  lemma FitsBetween(p: Text, h: Patch, q: Text)
    requires Measured(h) && h.start2 == |p|
    ensures Fits(p + Text1(h.diffs) + q, h)
    ensures After(p + Text1(h.diffs) + q, h) == p + Text2(h.diffs) + q
  {
    hide Text1, Text2;
    ThreeParts(p, Text1(h.diffs), q);
  }

  lemma FittingParts(t: Text, h: Patch)
    requires Fits(t, h)
    ensures Measured(h) && 0 <= h.start2 && h.start2 + |Text1(h.diffs)| <= |t|
    ensures t == t[..h.start2] + Text1(h.diffs) + t[h.start2 + |Text1(h.diffs)|..]
    ensures After(t, h) == t[..h.start2] + Text2(h.diffs) + t[h.start2 + |Text1(h.diffs)|..]
  {
    hide Text1, Text2;
  }

  lemma {:induction false} NoChain(t: Text, u: Text)
    ensures Chain(t, [], u) <==> t == u
  {
  }

  lemma {:induction false} ChainFirst(t: Text, h: Patch, rest: seq<Patch>, u: Text)
    ensures Chain(t, [h] + rest, u) <==> Fits(t, h) && Chain(After(t, h), rest, u)
  {
    hide Fits, After;
    assert ([h] + rest)[1..] == rest;
  }

  lemma {:induction false} ChainOne(t: Text, h: Patch, u: Text)
    ensures Chain(t, [h], u) <==> Fits(t, h) && u == After(t, h)
  {
    hide Fits, After, Chain;
    assert [h] + [] == [h];
    ChainFirst(t, h, [], u);
    if Fits(t, h) {
      NoChain(After(t, h), u);
    }
  }

  lemma {:induction false} ChainJoin(t: Text, ps: seq<Patch>, u: Text, qs: seq<Patch>, v: Text)
    requires Chain(t, ps, u) && Chain(u, qs, v)
    ensures Chain(t, ps + qs, v)
    decreases |ps|
  {
    hide Fits, After, Chain;
    if ps == [] {
      NoChain(t, u);
      assert ps + qs == qs;
    } else {
      var h, r := ps[0], ps[1..];
      assert ps == [h] + r && ps + qs == [h] + (r + qs);
      ChainFirst(t, h, r, u);
      ChainJoin(After(t, h), r, u, qs, v);
      ChainFirst(t, h, r + qs, v);
    }
  }

  lemma {:induction false} ChainSplit(t: Text, ps: seq<Patch>, k: nat, v: Text) returns (u: Text)
    requires k <= |ps| && Chain(t, ps, v)
    ensures Chain(t, ps[..k], u) && Chain(u, ps[k..], v)
    decreases |ps|
  {
    hide Fits, After, Chain;
    if k == 0 {
      u := t;
      NoChain(t, t);
      assert ps[..0] == [] && ps[0..] == ps;
    } else {
      var h, r := ps[0], ps[1..];
      assert ps == [h] + r && ps[..k] == [h] + r[..k - 1] && ps[k..] == r[k - 1..];
      ChainFirst(t, h, r, v);
      u := ChainSplit(After(t, h), r, k - 1, v);
      ChainFirst(t, h, r[..k - 1], u);
    }
  }

  /** The last patch of a chain, with the text it meets. */
  lemma ChainLast(t: Text, ps: seq<Patch>, v: Text) returns (u: Text)
    requires ps != [] && Chain(t, ps, v)
    ensures Chain(t, ps[..|ps| - 1], u) && Fits(u, ps[|ps| - 1]) && v == After(u, ps[|ps| - 1])
  {
    hide Fits, After;
    u := ChainSplit(t, ps, |ps| - 1, v);
    assert ps[|ps| - 1..] == [ps[|ps| - 1]];
    ChainOne(u, ps[|ps| - 1], v);
  }

  /** The length of the equality that a list begins with (that it ends with). */
  function LeadLength(s: seq<Diff>): nat {
    if s != [] && s[0].op == Equal then |s[0].text| else 0
  }

  function TrailLength(s: seq<Diff>): nat {
    if s != [] && s[|s| - 1].op == Equal then |s[|s| - 1].text| else 0
  }

  /** The patch keeps a margin on either side, or reaches the end of the text there. */
  ghost predicate Rooted(t: Text, h: Patch) {
    && (LeadLength(h.diffs) >= Margin || h.start2 == 0)
    && (TrailLength(h.diffs) >= Margin || h.start2 + |Text1(h.diffs)| == |t|)
  }

  /** So do the first and the last patch of a list that leads to `u`. */
  ghost predicate RootedEnds(ps: seq<Patch>, u: Text) {
    ps != [] ==>
      var h := ps[|ps| - 1];
      && (LeadLength(ps[0].diffs) >= Margin || ps[0].start2 == 0)
      && (TrailLength(h.diffs) >= Margin || h.start2 + |Text2(h.diffs)| == |u|)
  }

  /** `patch_deepCopy`. */
  method DeepCopy(a: PatchList) returns (b: PatchList)
    ensures fresh(b) && b.s == a.s
  {
    b := new PatchList([]);
    var c := 0;
    while c < |a.s|
      invariant 0 <= c <= |a.s| && b.s == a.s[..c]
      invariant fresh(b) && a.s == old(a.s)
    {
      var d := a.s[c];
      var e := new PatchObj();
      var f := 0;
      while f < |d.diffs|
        invariant 0 <= f <= |d.diffs| && e.diffs == d.diffs[..f]
        modifies e
      {
        e.diffs := e.diffs + [d.diffs[f]];
        f := f + 1;
      }
      e.start1, e.start2 := d.start1, d.start2;
      e.length1, e.length2 := d.length1, d.length2;
      assert e.Value() == d;
      b.s := b.s + [e.Value()];
      c := c + 1;
    }
  }
}
