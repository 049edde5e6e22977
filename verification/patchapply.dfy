/** `match_main`, `diff_xIndex`, `patch_addPadding` and `patch_apply`. */
module PatchApply {
  import opened Texts
  import opened Distance
  import opened Diffs
  import opened Lossless
  import opened Merge
  import opened Semantic
  import opened DiffMain
  import opened DiffApi
  import opened Levenshtein
  import opened Patches
  import opened PatchSplit

  // ----- matching

  /** `match_bitap_`: its scores are not modelled, so it is given. It looks for a text near a place. */
  type Matcher = (Text, Text, int) -> int

  /** Where `b` is looked for in `a`: at the place asked for, as far as there is one. */
  function NearestPlace(a: Text, c: int): int {
    Max(0, Min(c, |a|))
  }

  /** Where `b` is found in `a`, or -1. */
  function FoundAt(fuzzy: Matcher, a: Text, b: Text, c: int): (r: int)
    ensures r >= -1
  {
    if a == b then 0
    else if a == [] then -1
    else if OccursAt(a, b, NearestPlace(a, c)) then NearestPlace(a, c)
    else Max(-1, fuzzy(a, b, NearestPlace(a, c)))
  }

  /** A text that stands where it is looked for is found there, without the fuzzy matcher. */
  lemma FoundWhereExpected(fuzzy: Matcher, a: Text, b: Text, c: int)
    requires OccursAt(a, b, c)
    ensures FoundAt(fuzzy, a, b, c) == c
  {
  }

  /** `match_main`. */
  method MatchMain(fuzzy: Matcher, a: Text, b: Text, c0: int) returns (r: int)
    requires |b| <= MaxBits
    ensures r == FoundAt(fuzzy, a, b, c0)
    ensures OccursAt(a, b, c0) ==> r == c0
  {
    var c := Max(0, Min(c0, |a|));
    if a == b {
      r := 0;
    } else if |a| == 0 {
      r := -1;
    } else if Substring(a, c, c + |b|) == b {
      r := c;
    } else {
      r := Max(-1, fuzzy(a, b, c));
    }
  }

  // ----- from a place in the old text to one in the new text

  /** Where the place `loc` of the old text of `s` is in the new text. */
  function XIndex(s: seq<Diff>, loc: int): int {
    if s == [] then loc
    else
      var len := if s[0].op == Insert then 0 else |s[0].text|;
      if len > loc then (if s[0].op == Delete then 0 else loc)
      else (if s[0].op == Delete then 0 else |s[0].text|) + XIndex(s[1..], loc - len)
  }

  /** `diff_xIndex`. */
  method IndexAcross(a: seq<Diff>, b: int) returns (r: int)
    ensures r == XIndex(a, b)
  {
    var c, d, e, f := 0, 0, 0, 0;
    var g := 0;
    assert a[0..] == a;
    while g < |a|
      invariant 0 <= g <= |a| && c == e && d == f
      invariant f + XIndex(a[g..], b - e) == XIndex(a, b)
    {
      assert a[g..][0] == a[g] && a[g..][1..] == a[g + 1..];
      if a[g].op != Insert {
        c := c + |a[g].text|;
      }
      if a[g].op != Delete {
        d := d + |a[g].text|;
      }
      if c > b {
        break;
      }
      e, f := c, d;
      g := g + 1;
    }
    return if |a| != g && a[g].op == Delete then f else f + (b - e);
  }

  /** A place and its index split the two texts so that the diff splits with them: no more units are
      edited to either side than the diff edits in all. */
  lemma {:induction false} XIndexSplits(s: seq<Diff>, loc: nat)
    requires loc <= |Text1(s)|
    ensures 0 <= XIndex(s, loc) <= |Text2(s)|
    ensures var a, b, k := Text1(s), Text2(s), XIndex(s, loc); Dist(a[..loc], b[..k]) + Dist(a[loc..], b[k..]) <= EditChars(s)
    decreases |s|
  {
    hide Dist;
    if s == [] {
      DistSame([]);
    } else {
      var x, r := s[0], s[1..];
      var a, b := Text1(r), Text2(r);
      var len := if x.op == Insert then 0 else |x.text|;
      if len > loc {
        EditsCoverDistance(r);
        if x.op == Delete {
          SplitInDelete(x.text, loc, a, b);
        } else {
          SplitInEqual(x.text, loc, a, b);
        }
      } else {
        XIndexSplits(r, loc - len);
        var k := XIndex(r, loc - len);
        match x.op
        case Insert => SplitBehind([], x.text, a, b, loc, k);
        case Delete => SplitBehind(x.text, [], a, b, loc - len, k);
        case Equal => SplitBehind(x.text, x.text, a, b, loc - len, k);
      }
    }
  }

  lemma {:induction false} SplitInDelete(t: Text, loc: nat, a: Text, b: Text)
    requires loc < |t|
    ensures Dist((t + a)[..loc], b[..0]) + Dist((t + a)[loc..], b[0..]) <= |t| + Dist(a, b)
  {
    assert (t + a)[..loc] == t[..loc] && (t + a)[loc..] == t[loc..] + a && b[..0] == [] && b[0..] == [] + b;
    Subadditive(t[loc..], [], a, b);
    LengthBound(t[..loc], []);
    LengthBound(t[loc..], []);
  }

  lemma {:induction false} SplitInEqual(t: Text, loc: nat, a: Text, b: Text)
    requires loc < |t|
    ensures Dist((t + a)[..loc], (t + b)[..loc]) + Dist((t + a)[loc..], (t + b)[loc..]) <= Dist(a, b)
  {
    assert (t + a)[..loc] == t[..loc] == (t + b)[..loc];
    assert (t + a)[loc..] == t[loc..] + a && (t + b)[loc..] == t[loc..] + b;
    DistSame(t[..loc]);
    DistSame(t[loc..]);
    Subadditive(t[loc..], t[loc..], a, b);
  }

  lemma SplitBehind(t: Text, n: Text, a: Text, b: Text, i: nat, k: nat)
    requires i <= |a| && k <= |b| && (t == n || t == [] || n == [])
    ensures Dist((t + a)[..|t| + i], (n + b)[..|n| + k]) + Dist((t + a)[|t| + i..], (n + b)[|n| + k..])
         <= (if t == n then 0 else |t| + |n|) + Dist(a[..i], b[..k]) + Dist(a[i..], b[k..])
  {
    assert (t + a)[..|t| + i] == t + a[..i] && (n + b)[..|n| + k] == n + b[..k];
    assert (t + a)[|t| + i..] == a[i..] && (n + b)[|n| + k..] == b[k..];
    Subadditive(t, n, a[..i], b[..k]);
    if t == n {
      DistSame(t);
    } else {
      LengthBound(t, n);
    }
  }

  // ----- padding

  /** The units 1 to 4. */
  function Padding(): (c: Text)
    ensures |c| == Margin
  {
    seq(Margin, k requires 0 <= k < Margin => (k + 1) as Unit)
  }

  function ShiftedBy(h: Patch, n: int): Patch {
    h.(start1 := h.start1 + n, start2 := h.start2 + n)
  }

  function AllShifted(ps: seq<Patch>, n: int): (qs: seq<Patch>)
    ensures |qs| == |ps| && forall k :: 0 <= k < |ps| ==> qs[k] == ShiftedBy(ps[k], n)
  {
    seq(|ps|, k requires 0 <= k < |ps| => ShiftedBy(ps[k], n))
  }

  lemma ShiftedFits(p: Text, t: Text, q: Text, h: Patch)
    requires Fits(t, h)
    ensures var h' := ShiftedBy(h, |p|); Fits(p + t + q, h') && After(p + t + q, h') == p + After(t, h) + q
  {
    hide Text1, Text2, Fits, After;
    FittingParts(t, h);
    var x, o, n, z, h' := t[..h.start2], Text1(h.diffs), Text2(h.diffs), t[h.start2 + |Text1(h.diffs)|..], ShiftedBy(h, |p|);
    FiveParts(p, x, o, z, q);
    FiveParts(p, x, n, z, q);
    assert |p + x| == |p| + |x|;
    FitsBetween(p + x, h', z + q);
  }

  lemma FiveParts(p: Text, x: Text, o: Text, z: Text, q: Text)
    ensures p + (x + o + z) + q == (p + x) + o + (z + q)
  {
  }

  lemma {:induction false} ShiftedChain(p: Text, t: Text, q: Text, ps: seq<Patch>, u: Text)
    requires Chain(t, ps, u)
    ensures Chain(p + t + q, AllShifted(ps, |p|), p + u + q)
    decreases |ps|
  {
    hide Fits, After;
    if ps != [] {
      ShiftedFits(p, t, q, ps[0]);
      ShiftedChain(p, After(t, ps[0]), q, ps[1..], u);
      assert AllShifted(ps, |p|)[1..] == AllShifted(ps[1..], |p|);
    }
  }

  /** The first patch with padding, or what is missing of it, as its leading equality. */
  function FrontPadded(h: Patch): Patch {
    var c, e := Padding(), h.diffs;
    if |e| == 0 || e[0].op != Equal then
      Patch([Diff(Equal, c)] + e, h.start1 - Margin, h.start2 - Margin, h.length1 + Margin, h.length2 + Margin)
    else if Margin > |e[0].text| then
      var f := Margin - |e[0].text|;
      Patch(e[0 := Diff(Equal, Substring(c, |e[0].text|, |c|) + e[0].text)], h.start1 - f, h.start2 - f, h.length1 + f, h.length2 + f)
    else h
  }

  function BackPadded(h: Patch): Patch {
    var c, e := Padding(), h.diffs;
    if |e| == 0 || e[|e| - 1].op != Equal then
      h.(diffs := e + [Diff(Equal, c)], length1 := h.length1 + Margin, length2 := h.length2 + Margin)
    else if Margin > |e[|e| - 1].text| then
      var f := Margin - |e[|e| - 1].text|;
      h.(diffs := e[|e| - 1 := Diff(Equal, e[|e| - 1].text + Substring(c, 0, f))], length1 := h.length1 + f, length2 := h.length2 + f)
    else h
  }

  lemma LongerFront(s: seq<Diff>, g: Text)
    ensures var u := [Diff(Equal, g)] + s; Text1(u) == g + Text1(s) && Text2(u) == g + Text2(s)
    ensures s != [] && s[0].op == Equal ==>
              var u := s[0 := Diff(Equal, g + s[0].text)]; Text1(u) == g + Text1(s) && Text2(u) == g + Text2(s)
  {
    hide Text1, Text2, EditChars, Equalities;
    Concat([Diff(Equal, g)], s);
    Single(Diff(Equal, g));
    if s != [] && s[0].op == Equal {
      var x, r := s[0], s[1..];
      var y := Diff(Equal, g + x.text);
      assert s == [x] + r && s[0 := y] == [y] + r;
      Concat([x], r);
      Concat([y], r);
      Single(x);
      Single(y);
      assert g + (x.text + Text1(r)) == g + x.text + Text1(r) && g + (x.text + Text2(r)) == g + x.text + Text2(r);
    }
  }

  lemma LongerBack(s: seq<Diff>, g: Text)
    ensures var u := s + [Diff(Equal, g)]; Text1(u) == Text1(s) + g && Text2(u) == Text2(s) + g
    ensures s != [] && s[|s| - 1].op == Equal ==>
              var u := s[|s| - 1 := Diff(Equal, s[|s| - 1].text + g)]; Text1(u) == Text1(s) + g && Text2(u) == Text2(s) + g
  {
    hide Text1, Text2, EditChars, Equalities;
    Concat(s, [Diff(Equal, g)]);
    Single(Diff(Equal, g));
    if s != [] && s[|s| - 1].op == Equal {
      PatchSplit.LastOff(s);
      var r, x := s[..|s| - 1], s[|s| - 1];
      assert s[|s| - 1 := Diff(Equal, x.text + g)] == r + [Diff(Equal, x.text + g)];
      Merge.LengthenLast(r, x, g);
    }
  }

  /** `h'` is `h` with `g` before and `z` behind, on both sides. */
  ghost predicate Extended(h: Patch, g: Text, z: Text, h': Patch) {
    && Text1(h'.diffs) == g + Text1(h.diffs) + z && Text2(h'.diffs) == g + Text2(h.diffs) + z
    && h'.start2 == h.start2 - |g|
    && h'.length1 == h.length1 + |g| + |z| && h'.length2 == h.length2 + |g| + |z|
  }

  /** A patch extended by text that stands around its place does the same. */
  lemma ExtendedFits(p: Text, g: Text, h: Patch, z: Text, q: Text, h': Patch)
    requires Measured(h) && h.start2 == |p + g| && Extended(h, g, z, h')
    ensures var x := p + g + Text1(h.diffs) + (z + q); Fits(x, h) && Fits(x, h') && After(x, h') == After(x, h)
  {
    hide Text1, Text2, EditChars, Equalities, Fits, After;
    var o, n := Text1(h.diffs), Text2(h.diffs);
    FitsBetween(p + g, h, z + q);
    FitsBetween(p, h', q);
    assert p + g + o + (z + q) == p + (g + o + z) + q && p + g + n + (z + q) == p + (g + n + z) + q;
  }

  lemma FrontExtends(h: Patch)
    requires LeadLength(h.diffs) < Margin
    ensures Extended(h, Padding()[LeadLength(h.diffs)..], [], FrontPadded(h))
  {
    hide Text1, Text2, EditChars, Equalities;
    var g := Padding()[LeadLength(h.diffs)..];
    LongerFront(h.diffs, g);
    assert Padding()[0..] == Padding();
    assert h.diffs != [] && h.diffs[0].op == Equal ==> Substring(Padding(), LeadLength(h.diffs), |Padding()|) == g;
    assert g + Text1(h.diffs) + [] == g + Text1(h.diffs) && g + Text2(h.diffs) + [] == g + Text2(h.diffs);
  }

  lemma BackExtends(h: Patch)
    requires TrailLength(h.diffs) < Margin
    ensures Extended(h, [], Padding()[..Margin - TrailLength(h.diffs)], BackPadded(h))
  {
    hide Text1, Text2, EditChars, Equalities;
    var z := Padding()[..Margin - TrailLength(h.diffs)];
    LongerBack(h.diffs, z);
    assert Padding()[..Margin] == Padding();
    assert Substring(Padding(), 0, Margin - TrailLength(h.diffs)) == z;
    assert [] + Text1(h.diffs) + z == Text1(h.diffs) + z && [] + Text2(h.diffs) + z == Text2(h.diffs) + z;
  }

  lemma FrontAsIs(h: Patch)
    requires LeadLength(h.diffs) >= Margin
    ensures FrontPadded(h) == h
  {
  }

  lemma BackAsIs(h: Patch)
    requires TrailLength(h.diffs) >= Margin
    ensures BackPadded(h) == h
  {
  }

  /** Padding the front of a patch at the start of a padded text. */
  lemma FrontPaddedFits(x: Text, h: Patch)
    requires Fits(x, h) && Padding() <= x && (LeadLength(h.diffs) >= Margin || h.start2 == Margin)
    ensures Fits(x, FrontPadded(h)) && After(x, FrontPadded(h)) == After(x, h)
  {
    hide Text1, Text2, EditChars, Equalities, Fits, After, Padding, FrontPadded, LeadLength;
    var l := LeadLength(h.diffs);
    if l >= Margin {
      FrontAsIs(h);
    } else {
      FrontExtends(h);
      FittingParts(x, h);
      FitsMeasured(x, h);
      var p, g, o, q := Padding()[..l], Padding()[l..], Text1(h.diffs), x[h.start2 + |Text1(h.diffs)|..];
      assert x[..h.start2] == Padding() == p + g;
      assert x == p + g + o + ([] + q);
      ExtendedFits(p, g, h, [], q, FrontPadded(h));
    }
  }

  lemma FitsMeasured(x: Text, h: Patch)
    requires Fits(x, h)
    ensures Measured(h) && 0 <= h.start2 && h.start2 + |Text1(h.diffs)| <= |x|
  {
  }

  /** Padding the back of a patch at the end of a padded text. */
  lemma BackPaddedFits(x: Text, h: Patch, v: Text)
    requires Fits(x, h) && After(x, h) == v + Padding() && (TrailLength(h.diffs) >= Margin || h.start2 + |Text2(h.diffs)| == |v|)
    ensures Fits(x, BackPadded(h)) && After(x, BackPadded(h)) == After(x, h)
  {
    hide Text1, Text2, EditChars, Equalities, Fits, Padding, BackPadded, TrailLength;
    var l := TrailLength(h.diffs);
    if l >= Margin {
      BackAsIs(h);
    } else {
      BackExtends(h);
      FittingParts(x, h);
      FitsMeasured(x, h);
      var p, z, q, r := x[..h.start2], Padding()[..Margin - l], Padding()[Margin - l..], x[h.start2 + |Text1(h.diffs)|..];
      SameRest(p + Text2(h.diffs), r, v, Padding());
      assert r == z + q;
      assert x == p + [] + Text1(h.diffs) + (z + q);
      hide After;
      ExtendedFits(p, [], h, z, q, BackPadded(h));
    }
  }

  lemma SameRest(a: Text, b: Text, c: Text, d: Text)
    requires a + b == c + d && |a| == |c|
    ensures b == d
  {
    assert b == (a + b)[|a|..] && d == (c + d)[|c|..];
  }

  /** Padding the front moves neither end of a patch's new text, except to the left. */
  lemma FrontKeepsBack(h: Patch)
    ensures var h' := FrontPadded(h);
            && h'.start2 + |Text2(h'.diffs)| == h.start2 + |Text2(h.diffs)|
            && (TrailLength(h.diffs) >= Margin ==> TrailLength(h'.diffs) >= Margin)
  {
    hide Text1, Text2, EditChars, Equalities;
    if LeadLength(h.diffs) < Margin {
      FrontExtends(h);
    }
  }

  /** The patches moved behind a padding, with padding at both ends of the list. */
  function Padded(ps: seq<Patch>): (qs: seq<Patch>)
    requires ps != []
    ensures |qs| == |ps|
  {
    var qs := AllShifted(ps, Margin);
    var rs := qs[0 := FrontPadded(qs[0])];
    rs[|rs| - 1 := BackPadded(rs[|rs| - 1])]
  }

  /** What padding makes of a chain with rooted ends. */
  lemma {:induction false} PaddedChain(t: Text, ps: seq<Patch>, u: Text)
    requires ps != [] && Chain(t, ps, u) && RootedEnds(ps, u)
    ensures var c := Padding(); Chain(c + t + c, Padded(ps), c + u + c)
  {
    hide Fits, After, Chain, FrontPadded, BackPadded, Padding, LeadLength, TrailLength, Text1, Text2;
    var c, qs := Padding(), AllShifted(ps, Margin);
    ShiftedChain(c, t, c, ps, u);
    var h, rest, x := qs[0], qs[1..], c + t + c;
    assert qs == [h] + rest;
    ChainFirst(x, h, rest, c + u + c);
    assert x == c + (t + c);
    FrontPaddedFits(x, h);
    var rs := qs[0 := FrontPadded(h)];
    assert rs == [FrontPadded(h)] + rest;
    ChainFirst(x, FrontPadded(h), rest, c + u + c);
    FrontKeepsBack(h);
    var l := rs[|rs| - 1];
    var w := ChainLast(x, rs, c + u + c);
    BackPaddedFits(w, l, c + u);
    ChainOne(w, BackPadded(l), c + u + c);
    ChainJoin(x, rs[..|rs| - 1], w, [BackPadded(l)], c + u + c);
    assert rs[|rs| - 1 := BackPadded(l)] == rs[..|rs| - 1] + [BackPadded(l)];
  }

  /** The loop of `patch_addPadding` over all patches. */
  method ShiftAll(a: PatchList)
    modifies a
    ensures a.s == AllShifted(old(a.s), Margin)
  {
    ghost var ps := a.s;
    var d := 0;
    while d < |a.s|
      invariant 0 <= d <= |a.s| == |ps|
      invariant forall k :: 0 <= k < |ps| ==> a.s[k] == if k < d then ShiftedBy(ps[k], Margin) else ps[k]
    {
      a.s := a.s[d := a.s[d].(start1 := a.s[d].start1 + Margin, start2 := a.s[d].start2 + Margin)];
      d := d + 1;
    }
    assert a.s == AllShifted(ps, Margin);
  }

  /** `patch_addPadding`: pads the ends of the list for a text between two paddings. */
  method AddPadding(a: PatchList, ghost t: Text, ghost u: Text) returns (c: Text)
    requires a.s != []
    modifies a
    ensures c == Padding() && a.s == Padded(old(a.s))
    ensures Chain(t, old(a.s), u) && RootedEnds(old(a.s), u) ==> Chain(c + t + c, a.s, c + u + c)
  {
    hide Chain, RootedEnds, LeadLength, TrailLength;
    ghost var ps := a.s;
    c := [];
    var d := 1;
    while d <= Margin
      invariant 1 <= d <= Margin + 1 && c == Padding()[..d - 1]
    {
      c := c + [d as Unit];
      d := d + 1;
    }
    assert c == Padding();
    ShiftAll(a);
    var h, e := a.s[0], a.s[0].diffs;
    if |e| == 0 || e[0].op != Equal {
      e := [Diff(Equal, c)] + e;
      h := Patch(e, h.start1 - Margin, h.start2 - Margin, h.length1 + Margin, h.length2 + Margin);
    } else if Margin > |e[0].text| {
      var f := Margin - |e[0].text|;
      e := e[0 := Diff(Equal, Substring(c, |e[0].text|, |c|) + e[0].text)];
      h := Patch(e, h.start1 - f, h.start2 - f, h.length1 + f, h.length2 + f);
    }
    a.s := a.s[0 := h];
    h, e := a.s[|a.s| - 1], a.s[|a.s| - 1].diffs;
    if |e| == 0 || e[|e| - 1].op != Equal {
      e := e + [Diff(Equal, c)];
      h := h.(diffs := e, length1 := h.length1 + Margin, length2 := h.length2 + Margin);
    } else if Margin > |e[|e| - 1].text| {
      var f := Margin - |e[|e| - 1].text|;
      e := e[|e| - 1 := Diff(Equal, e[|e| - 1].text + Substring(c, 0, f))];
      h := h.(diffs := e, length1 := h.length1 + f, length2 := h.length2 + f);
    }
    a.s := a.s[|a.s| - 1 := h];
    if Chain(t, ps, u) && RootedEnds(ps, u) {
      PaddedChain(t, ps, u);
    }
  }

  // ----- patching where the text is not the expected one

  /** One edit made in `t`, at the index that `index` gives for its place `at` behind `j`. */
  function Edited(t: Text, j: int, q: Diff, index: seq<Diff>, at: int): Text {
    var k := XIndex(index, at);
    match q.op
    case Insert => Substring(t, 0, j + k) + q.text + Substring(t, j + k, |t|)
    case Delete => Substring(t, 0, j + k) + Substring(t, j + XIndex(index, at + |q.text|), |t|)
    case Equal => t
  }

  /** The place behind an entry in the old text. */
  function Behind(at: int, q: Diff): int {
    if q.op == Delete then at else at + |q.text|
  }

  /** The edits `ds` made one by one. */
  function Patched(t: Text, j: int, ds: seq<Diff>, index: seq<Diff>, at: int): Text
    decreases |ds|
  {
    if ds == [] then t
    else Patched(Edited(t, j, ds[0], index, at), j, ds[1..], index, Behind(at, ds[0]))
  }

  /** Nothing in front of the place `j` changes. */
  lemma {:induction false} FrontKept(t: Text, j: nat, ds: seq<Diff>, index: seq<Diff>, at: nat)
    ensures t[..Clamp(j, |t|)] <= Patched(t, j, ds, index, at)
    decreases |ds|
  {
    hide XIndex;
    if ds != [] {
      IndexNotNegative(index, at);
      IndexNotNegative(index, at + |ds[0].text|);
      var u := Edited(t, j, ds[0], index, at);
      assert t[..Clamp(j, |t|)] <= u;
      FrontKept(u, j, ds[1..], index, Behind(at, ds[0]));
    }
  }

  lemma {:induction false} IndexNotNegative(s: seq<Diff>, loc: nat)
    ensures XIndex(s, loc) >= 0
    decreases |s|
  {
    if s != [] {
      var len := if s[0].op == Insert then 0 else |s[0].text|;
      if len <= loc {
        IndexNotNegative(s[1..], loc - len);
      }
    }
  }

  lemma {:induction false} IndexMonotone(s: seq<Diff>, x: nat, y: nat)
    requires x <= y
    ensures XIndex(s, x) <= XIndex(s, y)
    decreases |s|
  {
    if s != [] {
      var len := if s[0].op == Insert then 0 else |s[0].text|;
      if len <= x {
        IndexMonotone(s[1..], x - len, y - len);
      } else if len <= y {
        IndexNotNegative(s[1..], y - len);
      }
    }
  }

  lemma {:induction false} IndexWithin(s: seq<Diff>, loc: nat)
    requires loc <= |Text1(s)|
    ensures 0 <= XIndex(s, loc) <= |Text2(s)|
  {
    hide *;
    XIndexSplits(s, loc);
  }

  /** One replacement in a patch: what lies between the indices of its two ends is replaced, and nothing else. */
  lemma {:induction false} OneReplacement(t: Text, j: nat, a: Text, d: Text, i: Text, z: Text, index: seq<Diff>)
    requires |a| + |d| <= |Text1(index)| && j + |Text2(index)| <= |t|
    ensures var k, l := XIndex(index, |a|), XIndex(index, |a| + |d|);
            && 0 <= k <= l <= |Text2(index)|
            && Patched(t, j, [Diff(Equal, a), Diff(Delete, d), Diff(Insert, i), Diff(Equal, z)], index, 0) == t[..j + k] + i + t[j + l..]
  {
    hide *;
    IndexWithin(index, |a|);
    IndexWithin(index, |a| + |d|);
    IndexMonotone(index, |a|, |a| + |d|);
    var k, l := j + XIndex(index, |a|), j + XIndex(index, |a| + |d|);
    var u := t[..k] + t[l..];
    EditedInside(t, j, Diff(Delete, d), index, |a|, k, l);
    EditedInside(u, j, Diff(Insert, i), index, |a|, k, k);
    ReplacedParts(t, k, l);
    TwoEdits(t, u, t[..k] + i + t[l..], j, Diff(Equal, a), Diff(Delete, d), Diff(Insert, i), Diff(Equal, z), index);
  }

  lemma ReplacedParts(t: Text, k: nat, l: nat)
    requires k <= l <= |t|
    ensures var u := t[..k] + t[l..]; u == t[..k] + [] + t[l..] && u[..k] == t[..k] && u[k..] == t[l..]
  {
  }

  /** Two edits between equalities. */
  lemma {:induction false} TwoEdits(t: Text, u: Text, r: Text, j: int, w: Diff, x: Diff, y: Diff, v: Diff, index: seq<Diff>)
    requires w.op == v.op == Equal
    requires Edited(t, j, x, index, |w.text|) == u && Edited(u, j, y, index, Behind(|w.text|, x)) == r
    ensures Patched(t, j, [w, x, y, v], index, 0) == r
  {
    hide *;
    var at := Behind(|w.text|, x);
    assert [w, x, y, v] == [w] + ([x] + ([y] + [v]));
    EqualFirst(t, j, w, [x] + ([y] + [v]), index);
    OneStep(t, j, x, [y] + [v], index, |w.text|);
    OneStep(u, j, y, [v], index, at);
    OnlyEqual(r, j, v, index, Behind(at, y));
  }

  lemma {:induction false} OneStep(t: Text, j: int, x: Diff, r: seq<Diff>, index: seq<Diff>, at: int)
    ensures Patched(t, j, [x] + r, index, at) == Patched(Edited(t, j, x, index, at), j, r, index, Behind(at, x))
  {
    hide Edited, Behind;
    assert ([x] + r)[1..] == r;
  }

  lemma EditedInside(t: Text, j: nat, x: Diff, index: seq<Diff>, at: nat, k: nat, l: nat)
    requires k == j + XIndex(index, at) && k <= l <= |t| && x.op != Equal
    requires x.op == Delete ==> l == j + XIndex(index, at + |x.text|)
    requires x.op == Insert ==> l == k
    ensures Edited(t, j, x, index, at) == t[..k] + (if x.op == Insert then x.text else []) + t[l..]
    ensures Behind(at, x) == if x.op == Insert then at + |x.text| else at
  {
    hide XIndex;
  }

  lemma {:induction false} OnlyEqual(t: Text, j: int, v: Diff, index: seq<Diff>, at: int)
    requires v.op == Equal
    ensures Patched(t, j, [v], index, at) == t
  {
    EqualKeeps(t, j, v, index, at);
    assert [v][1..] == [];
  }

  /** From the place `c` up to `hi`, or to the end if that is -1, the index runs along with the place. */
  ghost predicate Straight(index: seq<Diff>, c: nat, c': nat, hi: int) {
    forall loc {:trigger XIndex(index, loc)} :: c <= loc && (hi == -1 || loc < hi) ==> XIndex(index, loc) == c' + (loc - c)
  }

  /** All places that the edits ask for, the first of them at `at`, lie below `hi`. */
  predicate PlacesBelow(es: seq<Diff>, at: int, hi: int) {
    es != [] ==>
      && (es[0].op == Insert ==> at < hi) && (es[0].op == Delete ==> at + |es[0].text| < hi)
      && PlacesBelow(es[1..], Behind(at, es[0]), hi)
  }

  /** Behind the entries `pre` the index runs along as far as the texts are equal. */
  lemma {:induction false} StraightWhereEqual(pre: seq<Diff>, r: Text, post: seq<Diff>)
    ensures var c, c' := |Text1(pre)|, |Text2(pre)|;
            Straight(pre + [Diff(Equal, r)] + post, c, c', if post == [] then -1 else c + |r|)
  {
    var index, c, c', hi := pre + [Diff(Equal, r)] + post, |Text1(pre)|, |Text2(pre)|, if post == [] then -1 else |Text1(pre)| + |r|;
    forall loc {:trigger XIndex(index, loc)} | c <= loc && (hi == -1 || loc < hi)
      ensures XIndex(index, loc) == c' + (loc - c)
    {
      IndexBehind(pre, [Diff(Equal, r)] + post, loc);
      assert index == pre + ([Diff(Equal, r)] + post);
      IndexInEqual(r, post, loc - c);
    }
  }

  lemma {:induction false} IndexInEqual(r: Text, post: seq<Diff>, loc: nat)
    requires post == [] || loc < |r|
    ensures XIndex([Diff(Equal, r)] + post, loc) == loc
  {
    assert ([Diff(Equal, r)] + post)[1..] == post;
  }

  lemma {:induction false} IndexBehind(pre: seq<Diff>, s: seq<Diff>, loc: nat)
    requires loc >= |Text1(pre)|
    ensures XIndex(pre + s, loc) == |Text2(pre)| + XIndex(s, loc - |Text1(pre)|)
  {
    if pre == [] {
      assert pre + s == s;
    } else {
      assert (pre + s)[1..] == pre[1..] + s;
      IndexBehind(pre[1..], s, loc - if pre[0].op == Insert then 0 else |pre[0].text|);
    }
  }

  /** Where the text found differs from the expected one only before and behind the edits, and the edits ask for no
      place behind the part that is equal, they are all made as in the expected text; what differs is kept. */
  lemma {:induction false} EditsWhereEqual(p: Text, pre: seq<Diff>, r: Text, es: seq<Diff>, r': Text, post: seq<Diff>, q: Text)
    requires post == [] || PlacesBelow(es, |Text1(pre)| + |r|, |Text1(pre)| + |r + Text1(es) + r'|)
    ensures var index := pre + [Diff(Equal, r + Text1(es) + r')] + post;
            var ds := [Diff(Equal, Text1(pre) + r)] + es + [Diff(Equal, r' + Text1(post))];
            && Text1(index) == Text1(ds)
            && Patched(p + Text2(index) + q, |p|, ds, index, 0) == p + Text2(pre) + (r + Text2(es)) + (r' + Text2(post) + q)
  {
    hide XIndex, Text1, Text2, PlacesBelow, Straight, Patched;
    var o := r + Text1(es) + r';
    var index, c, c' := pre + [Diff(Equal, o)] + post, |Text1(pre)|, |Text2(pre)|;
    var a, z := Diff(Equal, Text1(pre) + r), Diff(Equal, r' + Text1(post));
    var ds := [a] + es + [z];
    SameOldTexts(pre, r, es, r', post);
    StraightWhereEqual(pre, o, post);
    var t := p + Text2(index) + q;
    Concat3(pre, [Diff(Equal, o)], post);
    Single(Diff(Equal, o));
    Rearranged(p, Text2(pre), r, Text1(es), r', Text2(post), q);
    EqualFirst(t, |p|, a, es + [z], index);
    assert ds == [a] + (es + [z]);
    PatchedBefore(t, |p|, es, z, index, c + |r|);
    EditsInPlace(p + Text2(pre), |p|, c, r, es, r' + Text2(post) + q, index, if post == [] then -1 else c + |o|);
  }

  lemma {:induction false} SameOldTexts(pre: seq<Diff>, r: Text, es: seq<Diff>, r': Text, post: seq<Diff>)
    ensures Text1(pre + [Diff(Equal, r + Text1(es) + r')] + post) == Text1([Diff(Equal, Text1(pre) + r)] + es + [Diff(Equal, r' + Text1(post))])
  {
    hide Text1, Text2;
    var o, a, z := Diff(Equal, r + Text1(es) + r'), Diff(Equal, Text1(pre) + r), Diff(Equal, r' + Text1(post));
    Concat3(pre, [o], post);
    Concat3([a], es, [z]);
    Single(o);
    Single(a);
    Single(z);
    Reassociated(Text1(pre), r, Text1(es), r', Text1(post));
  }

  lemma Reassociated(x: Text, r: Text, y: Text, r': Text, w: Text)
    ensures x + (r + y + r') + w == (x + r) + y + (r' + w)
  {
  }

  lemma Rearranged(p: Text, x: Text, r: Text, y: Text, r': Text, w: Text, q: Text)
    ensures p + (x + (r + y + r') + w) + q == p + x + r + y + (r' + w + q)
  {
    assert p + (x + (r + y + r') + w) + q == p + x + r + y + r' + w + q;
  }

  lemma {:induction false} EqualFirst(t: Text, j: int, x: Diff, r: seq<Diff>, index: seq<Diff>)
    requires x.op == Equal
    ensures Patched(t, j, [x] + r, index, 0) == Patched(t, j, r, index, |x.text|)
  {
    assert ([x] + r)[1..] == r;
  }

  /** A last equality changes nothing. */
  lemma {:induction false} PatchedBefore(t: Text, j: int, es: seq<Diff>, z: Diff, index: seq<Diff>, at: int)
    requires z.op == Equal
    ensures Patched(t, j, es + [z], index, at) == Patched(t, j, es, index, at)
    decreases |es|
  {
    hide Edited, Behind;
    if es == [] {
      assert es + [z] == [z] && [z][1..] == [];
      assert Edited(t, j, z, index, at) == t by { EqualKeeps(t, j, z, index, at); }
    } else {
      assert (es + [z])[1..] == es[1..] + [z];
      PatchedBefore(Edited(t, j, es[0], index, at), j, es[1..], z, index, Behind(at, es[0]));
    }
  }

  lemma EqualKeeps(t: Text, j: int, z: Diff, index: seq<Diff>, at: int)
    requires z.op == Equal
    ensures Edited(t, j, z, index, at) == t && Behind(at, z) == at + |z.text|
  {
  }

  lemma {:induction false} EditsInPlace(p: Text, j: int, c: nat, done: Text, es: seq<Diff>, q: Text, index: seq<Diff>, hi: int)
    requires j <= |p| && Straight(index, c, |p| - j, hi) && (hi == -1 || PlacesBelow(es, c + |done|, hi))
    ensures Patched(p + done + Text1(es) + q, j, es, index, c + |done|) == p + (done + Text2(es)) + q
    decreases |es|
  {
    hide XIndex, Substring, Edited, Straight;
    if es == [] {
      assert p + done + [] + q == p + done + q && done + [] == done;
    } else {
      var x, r := es[0], es[1..];
      var n := done + (if x.op == Delete then [] else x.text);
      EditInPlace(p, j, c, done, x, Text1(r), q, index, hi);
      EditsInPlace(p, j, c, n, r, q, index, hi);
      NextPatched(p + done + Text1(es) + q, j, es, index, c + |done|);
      TextsFrom(es, done);
      hide Text1, Text2, Patched, PlacesBelow;
    }
  }

  lemma {:induction false} NextPatched(t: Text, j: int, ds: seq<Diff>, index: seq<Diff>, at: int)
    requires ds != []
    ensures Patched(t, j, ds, index, at) == Patched(Edited(t, j, ds[0], index, at), j, ds[1..], index, Behind(at, ds[0]))
  {
    hide Edited, Behind;
  }

  lemma {:induction false} TextsFrom(ds: seq<Diff>, done: Text)
    requires ds != []
    ensures Text1(ds) == (if ds[0].op == Insert then [] else ds[0].text) + Text1(ds[1..])
    ensures Text2(ds) == (if ds[0].op == Delete then [] else ds[0].text) + Text2(ds[1..])
    ensures done + Text2(ds) == done + (if ds[0].op == Delete then [] else ds[0].text) + Text2(ds[1..])
  {
  }

  lemma EditInPlace(p: Text, j: int, c: nat, done: Text, x: Diff, a: Text, q: Text, index: seq<Diff>, hi: int)
    requires j <= |p| && Straight(index, c, |p| - j, hi)
    requires hi == -1 || PlacesBelow([x], c + |done|, hi)
    ensures var n, t := done + (if x.op == Delete then [] else x.text), p + done + ((if x.op == Insert then [] else x.text) + a) + q;
            Edited(t, j, x, index, c + |done|) == p + n + a + q && Behind(c + |done|, x) == c + |n|
  {
    hide XIndex, Substring;
    var at := c + |done|;
    assert x.op == Insert || x.op == Delete ==> hi == -1 || at < hi;
    assert x.op != Equal ==> j + XIndex(index, at) == |p + done|;
    assert x.op == Delete ==> j + XIndex(index, at + |x.text|) == |p + done| + |x.text|;
    hide Straight, PlacesBelow;
    EditAt(p + done, x.text, a + q);
    Regroup(p, done, [], a, q);
    Regroup(p, done, x.text, a, q);
  }

  lemma Regroup(p: Text, done: Text, x: Text, a: Text, q: Text)
    ensures p + done + (x + a) + q == (p + done) + (x + (a + q)) == p + (done + x) + a + q
    ensures p + done + a + q == (p + done) + (a + q) && p + (done + []) + a + q == (p + done) + (a + q)
  {
    assert done + [] == done;
  }

  lemma EditAt(p: Text, x: Text, q: Text)
    ensures [] + q == q && p + (x + q) == p + x + q
    ensures Substring(p + q, 0, |p|) == p && Substring(p + q, |p|, |p + q|) == q
    ensures Substring(p + (x + q), 0, |p|) == p && Substring(p + (x + q), |p| + |x|, |p + (x + q)|) == q
  {
  }

  /** Why the places are bounded: places of later edits count what earlier ones insert, the index does not. The patch
      inserts `x` and deletes `b` of `abce`; in the text found, `abdc`, that deletes `d`. */
  lemma {:induction false} InsertionPushesOn(p: Text, x: Unit, a: Unit, b: Unit, c: Unit, d: Unit, e: Unit, q: Text)
    ensures var ds := [Diff(Insert, [x]), Diff(Equal, [a]), Diff(Delete, [b]), Diff(Equal, [c, e])];
            var index := [Diff(Equal, [a, b]), Diff(Insert, [d]), Diff(Equal, [c]), Diff(Delete, [e])];
            && Text1(index) == Text1(ds) == [a, b, c, e] && Text2(index) == [a, b, d, c]
            && Patched(p + [a, b, d, c] + q, |p|, ds, index, 0) == p + [x, a, b, c] + q
  {
    var v, w, y, z := Diff(Insert, [x]), Diff(Equal, [a]), Diff(Delete, [b]), Diff(Equal, [c, e]);
    var index := [Diff(Equal, [a, b]), Diff(Insert, [d]), Diff(Equal, [c]), Diff(Delete, [e])];
    assert index[0] == Diff(Equal, [a, b]) && index[1] == Diff(Insert, [d]) && index[2] == Diff(Equal, [c]) && index[3] == Diff(Delete, [e]);
    hide Text1, Text2, XIndex, Patched, Substring, Edited;
    FourTexts(v, w, y, z);
    FourTexts(index[0], index[1], index[2], index[3]);
    PushedIndex(index[0], index[1], index[2], index[3]);
    assert [] + ([a] + [b] + [c, e]) == [a, b, c, e] && [a, b] + ([] + [c] + [e]) == [a, b, c, e];
    assert [a, b] + ([d] + [c] + []) == [a, b, d, c];
    Pushed(p + [a, b, d, c] + q, p + [x, a, b, d, c] + q, p + [x, a, b, c] + q, |p|, v, w, y, z, index) by {
      PushedTexts(p, x, a, b, c, d, q);
    }
  }

  lemma Pushed(t: Text, u: Text, r: Text, j: nat, v: Diff, w: Diff, y: Diff, z: Diff, index: seq<Diff>)
    requires j + 4 <= |t| && |u| == |t| + 1 && v.op == Insert && w.op == z.op == Equal && y.op == Delete
    requires |v.text| == |w.text| == |y.text| == 1
    requires XIndex(index, 0) == 0 && XIndex(index, 2) == 3 && XIndex(index, 3) == 4
    requires t[..j] + v.text + t[j..] == u && u[..j + 3] + [] + u[j + 4..] == r
    ensures Patched(t, j, [v, w, y, z], index, 0) == r
  {
    hide *;
    EditedInside(t, j, v, index, 0, j, j);
    EqualKeeps(u, j, w, index, 1);
    EditedInside(u, j, y, index, 2, j + 3, j + 4);
    ThreeEntries(t, u, r, j, v, w, y, z, index);
  }

  lemma PushedTexts(p: Text, x: Unit, a: Unit, b: Unit, c: Unit, d: Unit, q: Text)
    ensures var j, t, u := |p|, p + [a, b, d, c] + q, p + [x, a, b, d, c] + q;
            && t[..j] + [x] + t[j..] == u
            && u[..j + 3] + [] + u[j + 4..] == p + [x, a, b, c] + q
  {
  }

  lemma {:induction false} ThreeEntries(t: Text, u: Text, r: Text, j: int, v: Diff, w: Diff, y: Diff, z: Diff, index: seq<Diff>)
    requires w.op == z.op == Equal
    requires Edited(t, j, v, index, 0) == u && Edited(u, j, y, index, Behind(Behind(0, v), w)) == r
    ensures Patched(t, j, [v, w, y, z], index, 0) == r
  {
    hide *;
    assert [v, w, y, z] == [v] + ([w] + ([y] + [z]));
    OneStep(t, j, v, [w] + ([y] + [z]), index, 0);
    EqualKeeps(u, j, w, index, Behind(0, v));
    OneStep(u, j, w, [y] + [z], index, Behind(0, v));
    OneStep(u, j, y, [z], index, Behind(Behind(0, v), w));
    OnlyEqual(r, j, z, index, Behind(Behind(Behind(0, v), w), y));
  }

  function OldPart(x: Diff): Text {
    if x.op == Insert then [] else x.text
  }

  function NewPart(x: Diff): Text {
    if x.op == Delete then [] else x.text
  }

  lemma FourTexts(v: Diff, w: Diff, y: Diff, z: Diff)
    ensures Text1([v, w, y, z]) == OldPart(v) + (OldPart(w) + OldPart(y) + OldPart(z))
    ensures Text2([v, w, y, z]) == NewPart(v) + (NewPart(w) + NewPart(y) + NewPart(z))
  {
    hide Text1, Text2;
    Concat([v], [w, y, z]);
    Triple(w, y, z);
    Single(v);
    Single(w);
    Single(y);
    Single(z);
    assert [v, w, y, z] == [v] + [w, y, z];
  }

  lemma PushedIndex(v: Diff, w: Diff, y: Diff, z: Diff)
    requires v.op == Equal && |v.text| == 2 && w.op == Insert && |w.text| == 1
    requires y.op == Equal && |y.text| == 1 && z.op == Delete && |z.text| == 1
    ensures var s := [v, w, y, z]; XIndex(s, 0) == 0 && XIndex(s, 2) == 3 && XIndex(s, 3) == 4
  {
    hide XIndex;
    assert [v, w, y, z] == [v] + ([w] + ([y] + [z]));
    IndexInEqual(v.text, [w] + ([y] + [z]), 0);
    NextIndex(v, [w] + ([y] + [z]), 2);
    NextIndex(w, [y] + [z], 0);
    IndexInEqual(y.text, [z], 0);
    NextIndex(v, [w] + ([y] + [z]), 3);
    NextIndex(w, [y] + [z], 1);
    NextIndex(y, [z], 1);
    NextIndex(z, [], 0);
    assert [z] + [] == [z] && v == Diff(Equal, v.text) && y == Diff(Equal, y.text);
  }

  lemma {:induction false} NextIndex(x: Diff, r: seq<Diff>, loc: int)
    ensures var len := if x.op == Insert then 0 else |x.text|;
            XIndex([x] + r, loc) ==
            if len > loc then (if x.op == Delete then 0 else loc) else (if x.op == Delete then 0 else |x.text|) + XIndex(r, loc - len)
  {
    assert ([x] + r)[1..] == r;
  }

  /** The loop of `patch_apply` over the entries of a patch. */
  method PatchInexact(b0: Text, j: nat, ds: seq<Diff>, index: seq<Diff>) returns (b: Text)
    ensures b == Patched(b0, j, ds, index, 0)
    ensures b0[..Clamp(j, |b0|)] <= b
  {
    hide XIndex, Substring;
    b := b0;
    var h, i, k := 0, 0, 0;
    assert ds[0..] == ds;
    while i < |ds|
      invariant 0 <= i <= |ds|
      invariant Patched(b, j, ds[i..], index, h) == Patched(b0, j, ds, index, 0)
    {
      var q := ds[i];
      assert ds[i..][0] == q && ds[i..][1..] == ds[i + 1..];
      ghost var b1, h1 := b, h;
      if q.op != Equal {
        k := IndexAcross(index, h);
      }
      if q.op == Insert {
        b := Substring(b, 0, j + k) + q.text + Substring(b, j + k, |b|);
      } else if q.op == Delete {
        var l := IndexAcross(index, h + |q.text|);
        b := Substring(b, 0, j + k) + Substring(b, j + l, |b|);
      }
      if q.op != Delete {
        h := h + |q.text|;
      }
      assert b == Edited(b1, j, q, index, h1) && h == Behind(h1, q);
      i := i + 1;
    }
    FrontKept(b0, j, ds, index, 0);
  }

  // ----- applying

  /** Where the old text `h` of a patch is found: its start, or -1, and the start of its end if both ends were looked for
      one by one, or -1. The ends have to be in order. */
  function Located(fuzzy: Matcher, b: Text, h: Text, g: int): (int, int) {
    if |h| <= MaxBits then (FoundAt(fuzzy, b, h, g), -1)
    else
      var j := FoundAt(fuzzy, b, Substring(h, 0, MaxBits), g);
      var i := FoundAt(fuzzy, b, Substring(h, |h| - MaxBits, |h|), g + |h| - MaxBits);
      if j == -1 then (-1, -1) else if i == -1 || j >= i then (-1, i) else (j, i)
  }

  method Locate(fuzzy: Matcher, b: Text, h: Text, g: int) returns (j: int, i: int)
    ensures (j, i) == Located(fuzzy, b, h, g)
    ensures OccursAt(b, h, g) ==> j == g && i == (if |h| > MaxBits then g + |h| - MaxBits else -1)
    ensures j >= -1 && i >= -1
    ensures j != -1 ==> if |h| > MaxBits then i > j else i == -1
  {
    hide FoundAt;
    i := -1;
    if |h| > MaxBits {
      EndsOccur(b, h, g);
      j := MatchMain(fuzzy, b, Substring(h, 0, MaxBits), g);
      if j != -1 {
        i := MatchMain(fuzzy, b, Substring(h, |h| - MaxBits, |h|), g + |h| - MaxBits);
        if i == -1 || j >= i {
          j := -1;
        }
      }
    } else {
      j := MatchMain(fuzzy, b, h, g);
    }
  }

  lemma EndsOccur(b: Text, h: Text, g: int)
    requires |h| > MaxBits
    ensures var x, y := Substring(h, 0, MaxBits), Substring(h, |h| - MaxBits, |h|);
            |x| == |y| == MaxBits && (OccursAt(b, h, g) ==> OccursAt(b, x, g) && OccursAt(b, y, g + |h| - MaxBits))
  {
    if OccursAt(b, h, g) {
      var k := |h| - MaxBits;
      assert b[g..g + |h|][..MaxBits] == b[g..g + MaxBits];
      assert b[g..g + |h|][k..] == b[g + k..g + k + MaxBits];
    }
  }

  /** What a patch does where `t` was found at `j` instead of its old text: unless that is long and too different, its edits
      are made through the index of the straightened diff `d` from the one to the other. */
  ghost predicate AppliedInexactly(b0: Text, j: nat, a: Patch, t: Text, timeout: real, d: seq<Diff>, b: Text, e: bool) {
    var h := Text1(a.diffs);
    && DiffMakes(false, timeout, h, t, d) && Right(h, t, d) && Canonical(d) && Dist(h, t) <= EditChars(d) <= Most(timeout, h, t)
    && (e <==> |h| <= MaxBits || 2 * Cost(d, 0, 0) <= |h|)
    && b == if e then Patched(b0, j, a.diffs, Straightened(d, 1), 0) else b0
  }

  /** What a patch does; `t` is what is found where its old text is looked for, up to the end of the stretch of the matcher's
      length at `i` if the ends were looked for one by one. A patch that is not found does nothing. */
  ghost predicate AppliedAt(fuzzy: Matcher, b0: Text, a: Patch, delta0: int, timeout: real, t: Text, d: seq<Diff>, b: Text, delta: int, e: bool) {
    var h := Text1(a.diffs);
    var (j, i) := Located(fuzzy, b0, h, a.start2 + delta0);
    if j < 0 then !e && b == b0 && delta == delta0 - (a.length2 - a.length1)
    else
      && delta == j - (a.start2 + delta0)
      && t == Substring(b0, j, if |h| <= MaxBits then j + |h| else i + MaxBits)
      && if t == h then e && b == Substring(b0, 0, j) + Text2(a.diffs) + Substring(b0, j + |h|, |b0|)
         else AppliedInexactly(b0, j, a, t, timeout, d, b, e)
  }

  /** The step of `patch_apply` for one patch; `delta0` is how far the last patch was found from its place. */
  method ApplyOne(fuzzy: Matcher, b0: Text, a: Patch, delta0: int, timeout: real) returns (b: Text, delta: int, e: bool, ghost t: Text, ghost d: seq<Diff>)
    ensures Fits(b0, a) && delta0 == 0 ==> e && delta == 0 && b == After(b0, a)
    ensures AppliedAt(fuzzy, b0, a, delta0, timeout, t, d, b, delta, e)
    ensures e ==> var j := a.start2 + delta0 + delta; j >= 0 && b0[..Clamp(j, |b0|)] <= b
    ensures !e ==> b == b0
  {
    hide Text1, Text2, Fits, After, OccursAt, Substring, Located, AppliedInexactly;
    b, delta, d := b0, delta0, [];
    var g := a.start2 + delta;
    var h := Text1(a.diffs);
    FoundAsExpected(b, a);
    var at, end := Locate(fuzzy, b, h, g);
    t := [];
    if at == -1 {
      e := false;
      delta := delta - (a.length2 - a.length1);
    } else {
      e := true;
      delta := at - g;
      var found := if end == -1 then Substring(b, at, at + |h|) else Substring(b, at, end + MaxBits);
      t := found;
      if h == found {
        FrontStays(b, at, h, Text2(a.diffs));
        b := Substring(b, 0, at) + Text2(a.diffs) + Substring(b, at + |h|, |b|);
      } else {
        b, e, d := ApplyInexact(b, at, a, found, timeout);
      }
    }
  }

  lemma FoundAsExpected(b: Text, a: Patch)
    ensures Fits(b, a) ==>
              var h, j := Text1(a.diffs), a.start2;
              OccursAt(b, h, j) && j >= 0 && Substring(b, j, j + |h|) == h
              && After(b, a) == Substring(b, 0, j) + Text2(a.diffs) + Substring(b, j + |h|, |b|)
  {
    hide Text1, Text2;
  }

  lemma FrontStays(b: Text, j: nat, h: Text, n: Text)
    ensures b[..Clamp(j, |b|)] <= Substring(b, 0, j) + n + Substring(b, j + |h|, |b|)
  {
  }

  /** What `patch_apply` does where it has found `t` instead of the old text of the patch. */
  method ApplyInexact(b0: Text, j: nat, a: Patch, t: Text, timeout: real) returns (b: Text, e: bool, ghost o: seq<Diff>)
    ensures AppliedInexactly(b0, j, a, t, timeout, o, b, e)
    ensures if e then b0[..Clamp(j, |b0|)] <= b else b == b0 && |Text1(a.diffs)| > MaxBits
  {
    hide Text1, Text2, EditChars, Canonical, Ready, GetsStuck, Straightened, Patched, Dist, Minimal, Safe, Most, Contained, Lev, Cost, DiffMakes;
    b := b0;
    var h := Text1(a.diffs);
    var d, hangs := DiffTexts(h, t, false, timeout);
    o := d.s;
    var l := DiffLevenshtein(d);
    e := !(|h| > MaxBits && 2 * l > |h|);
    if e {
      CanonicalIsReady(d.s);
      ReadyNeverStuck(d.s, 1);
      hangs := CleanupSemanticLossless(d);
      b := PatchInexact(b, j, a.diffs, d.s);
    }
  }

  /** The text so far, and how far the last patch was found from its place. */
  datatype Progress = Progress(text: Text, delta: int)

  ghost predicate Stepped(fuzzy: Matcher, a: Patch, timeout: real, x: Progress, y: Progress, e: bool) {
    exists t, d :: AppliedAt(fuzzy, x.text, a, x.delta, timeout, t, d, y.text, y.delta, e)
  }

  /** How the patches `ps`, padded and then split into `parts`, are applied one after the other; `e` says which succeed. */
  ghost predicate AppliedInTurn(fuzzy: Matcher, ps: seq<Patch>, text: Text, timeout: real, parts: seq<seq<Patch>>, steps: seq<Progress>, e: seq<bool>, b: Text)
    requires ps != []
  {
    var c, small := Padding(), Flat(parts);
    && |parts| == |ps| && (forall k :: 0 <= k < |ps| ==> PiecesOf(Padded(ps)[k], parts[k]))
    && |e| == |small| && |steps| == |small| + 1 && steps[0] == Progress(c + text + c, 0)
    && (forall k :: 0 <= k < |small| ==> Stepped(fuzzy, small[k], timeout, steps[k], steps[k + 1], e[k]))
    && b == (var t := steps[|small|].text; Substring(t, |c|, |t| - |c|))
  }

  /** `patch_apply`. Patches that lead from the text to `u`, rooted at their ends, all succeed and give `u`. */
  method Apply(fuzzy: Matcher, patches: PatchList, text: Text, timeout: real, ghost u: Text)
    returns (b: Text, e: seq<bool>, ghost parts: seq<seq<Patch>>, ghost steps: seq<Progress>)
    ensures Chain(text, patches.s, u) && RootedEnds(patches.s, u) ==> b == u && false !in e
    ensures if patches.s == [] then b == text && e == [] else AppliedInTurn(fuzzy, patches.s, text, timeout, parts, steps, e, b)
    ensures true !in e ==> b == text
  {
    hide Chain, RootedEnds, Fits, After, AllSmall, Padding, PiecesOf, Flat, Padded;
    parts, steps := [], [];
    if |patches.s| == 0 {
      assert Chain(text, [], u) <==> text == u by { NoChain(text, u); }
      b, e := text, [];
      return;
    }
    var a := DeepCopy(patches);
    var c := AddPadding(a, text, u);
    ghost var y := c + u + c;
    b := c + text + c;
    parts := SplitMax(a, b, y);
    b, e, steps := ApplyAll(fuzzy, a, b, timeout, y);
    Unpadded(c, text);
    Unpadded(c, u);
    b := Substring(b, |c|, |b| - |c|);
  }

  /** The loop of `patch_apply` over the patches, padded and split. */
  method ApplyAll(fuzzy: Matcher, a: PatchList, x: Text, timeout: real, ghost y: Text) returns (b: Text, e: seq<bool>, ghost steps: seq<Progress>)
    ensures Chain(x, a.s, y) ==> b == y && false !in e
    ensures |e| == |a.s| && |steps| == |a.s| + 1 && steps[0] == Progress(x, 0) && b == steps[|a.s|].text
    ensures forall k :: 0 <= k < |a.s| ==> Stepped(fuzzy, a.s[k], timeout, steps[k], steps[k + 1], e[k])
    ensures true !in e ==> b == x
  {
    hide Chain, Fits, After, AppliedAt;
    var delta, f := 0, 0;
    b, e := x, [];
    steps := [Progress(x, 0)];
    assert a.s[0..] == a.s;
    while f < |a.s|
      invariant 0 <= f <= |a.s| && |e| == f
      invariant Chain(x, a.s, y) ==> delta == 0 && Chain(b, a.s[f..], y) && false !in e
      invariant |steps| == f + 1 && steps[0] == Progress(x, 0) && steps[f] == Progress(b, delta)
      invariant forall k :: 0 <= k < f ==> Stepped(fuzzy, a.s[k], timeout, steps[k], steps[k + 1], e[k])
      invariant true !in e ==> b == x
    {
      assert a.s[f..] == [a.s[f]] + a.s[f + 1..];
      ChainFirst(b, a.s[f], a.s[f + 1..], y);
      var ok;
      ghost var found, d;
      b, delta, ok, found, d := ApplyOne(fuzzy, b, a.s[f], delta, timeout);
      e := e + [ok];
      steps := steps + [Progress(b, delta)];
      f := f + 1;
    }
    NoChain(b, y);
    assert a.s[f..] == [];
  }

  lemma Unpadded(c: Text, t: Text)
    ensures var x := c + t + c; Substring(x, |c|, |x| - |c|) == t
  {
  }
}
