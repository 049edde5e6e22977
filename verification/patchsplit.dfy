/** `patch_splitMax`: cuts patches whose old text is too long for the matcher. */
module PatchSplit {
  import opened Texts
  import opened Diffs
  import Merge
  import opened Patches

  // ----- taking entries off a patch

  /** `all` cut in two: the entries taken and those left, with the texts and the edits of the whole. */
  ghost predicate Portioned(taken: seq<Diff>, left: seq<Diff>, all: seq<Diff>) {
    && Text1(taken) + Text1(left) == Text1(all) && Text2(taken) + Text2(left) == Text2(all)
    && EditChars(taken) + EditChars(left) == EditChars(all)
  }

  lemma NoneTaken(all: seq<Diff>)
    ensures Portioned([], all, all)
  {
    assert [] + Text1(all) == Text1(all) && [] + Text2(all) == Text2(all);
  }

  lemma {:induction false} OneMoreTaken(taken: seq<Diff>, left: seq<Diff>, all: seq<Diff>, y: Diff, rest: seq<Diff>)
    requires Portioned(taken, left, all) && SameTexts([y] + rest, left) && EditChars([y] + rest) == EditChars(left)
    ensures Portioned(taken + [y], rest, all)
  {
    hide Text1, Text2, EditChars, Equalities;
    Concat(taken, [y]);
    Concat([y], rest);
    assert Text1(taken) + Text1([y]) + Text1(rest) == Text1(taken) + (Text1([y]) + Text1(rest));
    assert Text2(taken) + Text2([y]) + Text2(rest) == Text2(taken) + (Text2([y]) + Text2(rest));
  }

  lemma {:induction false} WholeTaken(taken: seq<Diff>, left: seq<Diff>, all: seq<Diff>)
    requires Portioned(taken, left, all) && left != []
    ensures Portioned(taken + [left[0]], left[1..], all) && Bulk(left[1..]) < Bulk(left)
  {
    hide Text1, Text2, EditChars, Equalities;
    assert [left[0]] + left[1..] == left;
    OneMoreTaken(taken, left, all, left[0], left[1..]);
  }

  /** The first `k` units of the next entry are taken. */
  lemma {:induction false} PartTaken(taken: seq<Diff>, left: seq<Diff>, all: seq<Diff>, k: nat)
    requires Portioned(taken, left, all) && left != [] && k <= |left[0].text|
    ensures var x := left[0];
            Portioned(taken + [Diff(x.op, x.text[..k])], [Diff(x.op, x.text[k..])] + left[1..], all)
    ensures k > 0 ==> Bulk([Diff(left[0].op, left[0].text[k..])] + left[1..]) < Bulk(left)
  {
    hide Text1, Text2, EditChars, Equalities;
    var x, r := left[0], left[1..];
    var y, z := Diff(x.op, x.text[..k]), Diff(x.op, x.text[k..]);
    CutTexts(x, y, z);
    assert left == [x] + r;
    assert ([z] + r)[1..] == r;
    Concat([x], r);
    Concat([y, z], r);
    assert [y] + ([z] + r) == [y, z] + r;
    OneMoreTaken(taken, left, all, y, [z] + r);
  }

  lemma CutTexts(x: Diff, y: Diff, z: Diff)
    requires x.op == y.op == z.op && x.text == y.text + z.text
    ensures SameTexts([y, z], [x]) && EditChars([y, z]) == EditChars([x])
  {
    hide Text1, Text2, EditChars, Equalities;
    Pair(y, z);
    Single(x);
    Single(y);
    Single(z);
  }

  /** Entries and units together. */
  function Bulk(s: seq<Diff>): nat {
    if s == [] then 0 else 1 + |s[0].text| + Bulk(s[1..])
  }

  /** A long deletion straight after the context before it is never cut. */
  predicate Monolithic(s: seq<Diff>) {
    |s| >= 2 && s[0].op == Equal && s[1].op == Delete && |s[1].text| > 2 * MaxBits
  }

  /** `s` holds nothing but equalities. */
  ghost predicate Idle(s: seq<Diff>) {
    forall k :: 0 <= k < |s| ==> s[k].op == Equal
  }

  lemma {:induction false} IdleTexts(s: seq<Diff>)
    requires Idle(s)
    ensures Text1(s) == Text2(s)
  {
    if s != [] {
      IdleTexts(s[1..]);
    }
  }

  lemma {:induction false} TakenTexts(s: seq<Diff>, y: Diff)
    ensures |Text1(s + [y])| == |Text1(s)| + (if y.op == Insert then 0 else |y.text|)
    ensures |Text2(s + [y])| == |Text2(s)| + (if y.op == Delete then 0 else |y.text|)
    ensures Idle(s + [y]) <==> Idle(s) && y.op == Equal
  {
    hide Text1, Text2, EditChars, Equalities;
    Concat(s, [y]);
    Single(y);
    assert (s + [y])[|s|] == y;
    forall k | 0 <= k < |s|
      ensures (s + [y])[k] == s[k]
    {
    }
  }

  /** The patch `h` has taken `taken` on top of `pre`. */
  ghost predicate Filling(h: Patch, pre: Patch, taken: seq<Diff>, empty: bool) {
    && h.diffs == pre.diffs + taken && h.start1 == pre.start1 && h.start2 == pre.start2
    && h.length1 == pre.length1 + |Text1(taken)| && h.length2 == pre.length2 + |Text2(taken)|
    && (empty <==> Idle(taken))
    && (h.length1 <= MaxBits - Margin || Monolithic(h.diffs))
  }

  lemma FillingMore(h: Patch, pre: Patch, taken: seq<Diff>, empty: bool, y: Diff, h': Patch)
    requires Filling(h, pre, taken, empty)
    requires h' == WithEntry(h, y)
    requires h'.length1 <= MaxBits - Margin || Monolithic(h'.diffs)
    ensures Filling(h', pre, taken + [y], empty && y.op == Equal)
  {
    hide Text1, Text2, Idle, Monolithic;
    TakenTexts(taken, y);
    assert h.diffs + [y] == pre.diffs + (taken + [y]);
  }

  /** `h` with the entry `y` taken on. */
  function WithEntry(h: Patch, y: Diff): Patch {
    Patch(h.diffs + [y], h.start1, h.start2, h.length1 + (if y.op == Insert then 0 else |y.text|), h.length2 + (if y.op == Delete then 0 else |y.text|))
  }

  /** The entry `y` comes off the front of `left`, whole or in part, and `rest` is left. */
  ghost predicate TakenOff(left: seq<Diff>, y: Diff, rest: seq<Diff>) {
    && left != [] && y.op == left[0].op && |y.text| <= |left[0].text| && y.text == left[0].text[..|y.text|]
    && (|y.text| == 0 ==> |left[0].text| == 0)
    && rest == (if y.text == left[0].text then [] else [Diff(y.op, left[0].text[|y.text|..])]) + left[1..]
  }

  lemma {:induction false} TakenOffPortions(taken: seq<Diff>, left: seq<Diff>, all: seq<Diff>, y: Diff, rest: seq<Diff>)
    requires Portioned(taken, left, all) && TakenOff(left, y, rest)
    ensures Portioned(taken + [y], rest, all) && Bulk(rest) < Bulk(left)
  {
    hide Portioned, Bulk;
    if y.text == left[0].text {
      WholeTaken(taken, left, all);
      assert rest == left[1..];
    } else {
      PartTaken(taken, left, all, |y.text|);
    }
  }

  lemma CutText(t: Text, n: int)
    requires n > 0
    ensures var i := Substring(t, 0, n);
            |i| <= n && |i| <= |t| && |i| == Min(|t|, n) && i == t[..|i|] && (|i| == 0 ==> |t| == 0) && Substring(t, |i|, |t|) == t[|i|..]
  {
  }

  /** One round of the inner loop. */
  method MoveEntry(h: PatchObj, d: PatchObj, e0: int, f0: int, empty0: bool) returns (e: int, f: int, empty: bool, ghost y: Diff)
    requires h != d && h.length1 < MaxBits - Margin && d.diffs != []
    modifies h, d
    ensures TakenOff(old(d.diffs), y, d.diffs) && h.Value() == WithEntry(old(h.Value()), y)
    ensures e == e0 + (if y.op == Insert then 0 else |y.text|) && f == f0 + (if y.op == Delete then 0 else |y.text|)
    ensures empty == (empty0 && y.op == Equal)
    ensures h.length1 <= MaxBits - Margin || Monolithic(h.diffs)
    ensures var x, s := old(d.diffs)[0], old(h.diffs);
            var whole := x.op == Insert || (x.op == Delete && |s| == 1 && s[0].op == Equal && |x.text| > 2 * MaxBits);
            y == if whole then x else Diff(x.op, x.text[..Min(|x.text|, MaxBits - Margin - old(h.length1))])
  {
    e, f, empty := e0, f0, empty0;
    var g, i := d.diffs[0].op, d.diffs[0].text;
    y := d.diffs[0];
    if g == Insert {
      h.length2 := h.length2 + |i|;
      f := f + |i|;
      h.diffs := h.diffs + [d.diffs[0]];
      d.diffs := d.diffs[1..];
      empty := false;
    } else if g == Delete && |h.diffs| == 1 && h.diffs[0].op == Equal && |i| > 2 * MaxBits {
      h.length1 := h.length1 + |i|;
      e := e + |i|;
      empty := false;
      h.diffs := h.diffs + [Diff(g, i)];
      d.diffs := d.diffs[1..];
    } else {
      e, f, empty, y := MovePart(h, d, e, f, empty);
    }
  }

  /** An equality or a deletion is taken as far as there is room. */
  method MovePart(h: PatchObj, d: PatchObj, e0: int, f0: int, empty0: bool) returns (e: int, f: int, empty: bool, ghost y: Diff)
    requires h != d && h.length1 < MaxBits - Margin && d.diffs != [] && d.diffs[0].op != Insert
    modifies h, d
    ensures TakenOff(old(d.diffs), y, d.diffs) && h.Value() == WithEntry(old(h.Value()), y)
    ensures e == e0 + |y.text| && f == f0 + (if y.op == Delete then 0 else |y.text|)
    ensures empty == (empty0 && y.op == Equal) && h.length1 <= MaxBits - Margin
    ensures var x := old(d.diffs)[0]; y == Diff(x.op, x.text[..Min(|x.text|, MaxBits - Margin - old(h.length1))])
  {
    e, f, empty := e0, f0, empty0;
    var g, i := d.diffs[0].op, d.diffs[0].text;
    CutText(i, MaxBits - h.length1 - Margin);
    i := Substring(i, 0, MaxBits - h.length1 - Margin);
    hide Substring;
    h.length1 := h.length1 + |i|;
    e := e + |i|;
    if g == Equal {
      h.length2 := h.length2 + |i|;
      f := f + |i|;
    } else {
      empty := false;
    }
    y := Diff(g, i);
    h.diffs := h.diffs + [Diff(g, i)];
    if i == d.diffs[0].text {
      d.diffs := d.diffs[1..];
    } else {
      d.diffs := [Diff(g, Substring(d.diffs[0].text, |i|, |d.diffs[0].text|))] + d.diffs[1..];
    }
  }

  /** The inner loop: moves entries, or parts of them, from the long patch `d` to `h` until it is full. */
  method FillPatch(h: PatchObj, d: PatchObj, e0: int, f0: int) returns (e: int, f: int, empty: bool, ghost taken: seq<Diff>)
    requires h != d && h.length1 <= Margin && d.diffs != []
    modifies h, d
    ensures Filling(h.Value(), old(h.Value()), taken, empty)
    ensures e == e0 + |Text1(taken)| && f == f0 + |Text2(taken)|
    ensures Portioned(taken, d.diffs, old(d.diffs)) && Bulk(d.diffs) < Bulk(old(d.diffs))
    ensures d.diffs == [] || h.length1 >= MaxBits - Margin
  {
    hide Text1, Text2, EditChars, Portioned, Filling, Idle, TakenOff, Monolithic, Bulk;
    e, f, empty, taken := e0, f0, true, [];
    ghost var all, pre := d.diffs, h.Value();
    NoneTaken(all);
    FillingStarts(pre);
    while |d.diffs| != 0 && h.length1 < MaxBits - Margin
      invariant Filling(h.Value(), pre, taken, empty) && Portioned(taken, d.diffs, all)
      invariant e == e0 + |Text1(taken)| && f == f0 + |Text2(taken)|
      invariant Bulk(d.diffs) < Bulk(all) || (d.diffs == all && h.length1 <= Margin)
      decreases Bulk(d.diffs)
    {
      ghost var left, h0, empty0 := d.diffs, h.Value(), empty;
      ghost var y;
      e, f, empty, y := MoveEntry(h, d, e, f, empty);
      TakenOffPortions(taken, left, all, y, d.diffs);
      TakenTexts(taken, y);
      FillingMore(h0, pre, taken, empty0, y, h.Value());
      taken := taken + [y];
    }
  }

  lemma FillingStarts(h: Patch)
    requires h.length1 <= Margin
    ensures Filling(h, h, [], true)
  {
  }

  // ----- cutting one patch

  /** `a.splice(i, n, ...items)`. */
  function Splice(s: seq<Patch>, i: nat, n: nat, items: seq<Patch>): seq<Patch>
    requires i + n <= |s|
  {
    s[..i] + items + s[i + n..]
  }

  ghost predicate EndsWithText(t: Text, g: Text) {
    |g| <= |t| && t[|t| - |g|..] == g
  }

  /** The matcher can take the old text of the patch whole, or the patch is one long deletion in context. */
  predicate Small(h: Patch) {
    h.length1 <= MaxBits || Monolithic(h.diffs)
  }

  ghost predicate AllSmall(ps: seq<Patch>) {
    forall k :: 0 <= k < |ps| ==> Small(ps[k])
  }

  /** Every patch has an edit. */
  ghost predicate AllEdit(ps: seq<Patch>) {
    forall k :: 0 <= k < |ps| ==> !Idle(ps[k].diffs)
  }

  /** How much longer the old texts of the patches are than their new ones. */
  function Surplus(ps: seq<Patch>): int {
    if ps == [] then 0 else ps[0].length1 - ps[0].length2 + Surplus(ps[1..])
  }

  /** `start1` runs ahead of `start2` by `ahead` and by what the patches before have taken away. */
  ghost predicate Placed(ps: seq<Patch>, ahead: int) {
    forall k :: 0 <= k < |ps| ==> ps[k].start1 - ps[k].start2 == ahead + Surplus(ps[..k])
  }

  lemma {:induction false} SurplusMore(ps: seq<Patch>, h: Patch)
    ensures Surplus(ps + [h]) == Surplus(ps) + (h.length1 - h.length2)
  {
    if ps == [] {
      assert ps + [h] == [h] && [h][1..] == [];
    } else {
      assert (ps + [h])[1..] == ps[1..] + [h];
      SurplusMore(ps[1..], h);
    }
  }

  lemma {:induction false} PlacedMore(ps: seq<Patch>, h: Patch, ahead: int)
    requires Placed(ps, ahead) && h.start1 - h.start2 == ahead + Surplus(ps)
    ensures Placed(ps + [h], ahead)
  {
    hide Surplus;
    var qs := ps + [h];
    forall k | 0 <= k < |qs|
      ensures qs[k].start1 - qs[k].start2 == ahead + Surplus(qs[..k])
    {
      assert qs[..k] == ps[..k];
      assert ps[..|ps|] == ps;
    }
  }

  /** All but the last patch are as long as they may be before the context behind them is added. */
  ghost predicate AllFull(ps: seq<Patch>) {
    forall k :: 0 <= k < |ps| - 1 ==> ps[k].length1 >= MaxBits - Margin
  }

  ghost predicate Full(ps: seq<Patch>) {
    forall k :: 0 <= k < |ps| ==> ps[k].length1 >= MaxBits - Margin
  }

  lemma OneMoreFull(ps: seq<Patch>, h: Patch)
    requires Full(ps)
    ensures AllFull(ps + [h]) && (h.length1 >= MaxBits - Margin ==> Full(ps + [h]))
  {
  }

  /** A patch that is not too long stays; the pieces of another are small but full, edit something, and have their places. */
  ghost predicate PiecesOf(big: Patch, ps: seq<Patch>) {
    if big.length1 <= MaxBits then ps == [big] else AllSmall(ps) && AllFull(ps) && AllEdit(ps) && Placed(ps, big.start1 - big.start2)
  }

  function Flat(parts: seq<seq<Patch>>): seq<Patch> {
    if parts == [] then [] else Flat(parts[..|parts| - 1]) + parts[|parts| - 1]
  }

  lemma {:induction false} FlatMore(parts: seq<seq<Patch>>, ps: seq<Patch>)
    ensures Flat(parts + [ps]) == Flat(parts) + ps
  {
    assert (parts + [ps])[..|parts|] == parts;
  }

  /** The pieces so far of the long patch `big`, which fits `w`: they lead to a text in which `done` stands for
      the new text of what has been taken, and the old text of `left` follows; `g` is the context for the next piece. */
  ghost predicate Splitting(w: Text, big: Patch, ps: seq<Patch>, done: Text, left: seq<Diff>, f: int, g: Text)
    requires Fits(w, big)
  {
    var p, q := w[..big.start2], w[big.start2 + |Text1(big.diffs)|..];
    && Chain(w, ps, p + done + Text1(left) + q) && done + Text2(left) == Text2(big.diffs)
    && f == |p + done| && EndsWithText(p + done, g) && |g| <= Margin
  }

  lemma FitsInside(w: Text, big: Patch)
    requires Fits(w, big)
    ensures 0 <= big.start2 && big.start2 + |Text1(big.diffs)| <= |w|
  {
  }

  lemma SplittingStarts(w: Text, big: Patch)
    requires Fits(w, big)
    ensures Splitting(w, big, [], [], big.diffs, big.start2, [])
  {
    hide Text1, Text2;
    FittingParts(w, big);
    var p := w[..big.start2];
    assert p + [] == p && [] + Text2(big.diffs) == Text2(big.diffs);
  }

  lemma {:induction false} SplittingEnds(w: Text, big: Patch, ps: seq<Patch>, done: Text, left: seq<Diff>, f: int, g: Text)
    requires Fits(w, big) && Splitting(w, big, ps, done, left, f, g) && left == []
    ensures Chain(w, ps, After(w, big))
  {
    var p, q := w[..big.start2], w[big.start2 + |Text1(big.diffs)|..];
    assert p + done + [] + q == p + done + q && done + [] == done;
  }

  /** A piece in its context: `g` before it, `i` behind it. */
  ghost predicate PieceOf(h: Patch, g: Text, taken: seq<Diff>, i: Text, f: int) {
    && Measured(h) && h.start2 == f - |g|
    && Text1(h.diffs) == g + Text1(taken) + i && Text2(h.diffs) == g + Text2(taken) + i
  }

  /** The next piece fits, and leads on. */
  lemma {:induction false} PieceFits(p: Text, done: Text, g: Text, h: Patch, taken: seq<Diff>, i: Text, rest: Text, q: Text)
    requires PieceOf(h, g, taken, i, |p + done|) && EndsWithText(p + done, g)
    ensures var x := p + done + (Text1(taken) + (i + rest)) + q;
            Fits(x, h) && After(x, h) == p + (done + Text2(taken)) + (i + rest) + q
  {
    hide Text1, Text2, EditChars, Equalities, Fits, After;
    var d := (p + done)[..|p + done| - |g|];
    var o, n := Text1(taken), Text2(taken);
    assert p + done == d + g;
    Regrouped(p, done, d, g, o, i, rest, q);
    Regrouped(p, done, d, g, n, i, rest, q);
    FitsBetween(d, h, rest + q);
    assert p + done + (n + (i + rest)) + q == p + (done + n) + (i + rest) + q;
  }

  lemma Regrouped(p: Text, done: Text, d: Text, g: Text, o: Text, i: Text, rest: Text, q: Text)
    requires p + done == d + g
    ensures p + done + (o + (i + rest)) + q == d + (g + o + i) + (rest + q)
  {
    assert p + done + (o + (i + rest)) + q == (p + done) + (o + i + rest + q);
    assert d + g + (o + i + rest + q) == d + (g + o + i) + (rest + q);
  }

  /** One piece more, unless it edits nothing. */
  lemma {:induction false} PieceMore(w: Text, big: Patch, ps: seq<Patch>, done: Text, left: seq<Diff>, f: int, g: Text, taken: seq<Diff>, left': seq<Diff>, h: Patch, g': Text, i: Text)
    requires Fits(w, big) && Splitting(w, big, ps, done, left, f, g) && Portioned(taken, left', left)
    requires i == Substring(Text1(left'), 0, Margin) && PieceOf(h, g, taken, i, f)
    requires g' == Substring(g + Text2(taken), |g + Text2(taken)| - Margin, |g + Text2(taken)|)
    ensures Splitting(w, big, ps + [h], done + Text2(taken), left', f + |Text2(taken)|, g')
    ensures Idle(taken) ==> Splitting(w, big, ps, done + Text2(taken), left', f + |Text2(taken)|, g')
  {
    hide Text1, Text2, EditChars, Equalities, Fits, After, Chain, Substring, PieceOf, Idle, EndsWithText;
    FitsInside(w, big);
    var p, q := w[..big.start2], w[big.start2 + |Text1(big.diffs)|..];
    var rest := RestOf(Text1(left'), Margin);
    PieceFits(p, done, g, h, taken, i, rest, q);
    var x, y := p + done + Text1(left) + q, p + (done + Text2(taken)) + Text1(left') + q;
    ChainOne(x, h, y);
    ChainJoin(w, ps, x, [h], y);
    assert done + (Text2(taken) + Text2(left')) == (done + Text2(taken)) + Text2(left');
    assert |p + (done + Text2(taken))| == |p + done| + |Text2(taken)|;
    NextContext(p, done, g, Text2(taken), g');
    if Idle(taken) {
      IdleTexts(taken);
      assert p + done + (Text1(taken) + Text1(left')) + q == y;
    }
  }

  lemma RestOf(t: Text, n: nat) returns (rest: Text)
    ensures t == Substring(t, 0, n) + rest
  {
    rest := t[|Substring(t, 0, n)|..];
  }

  lemma NextContext(p: Text, done: Text, g: Text, n: Text, g': Text)
    requires EndsWithText(p + done, g) && g' == Substring(g + n, |g + n| - Margin, |g + n|)
    ensures EndsWithText(p + (done + n), g') && |g'| <= Margin
  {
    var d := (p + done)[..|p + done| - |g|];
    assert p + (done + n) == (p + done) + n == d + (g + n);
    var k := |g + n| - |g'|;
    assert g' == (g + n)[k..];
    assert (d + (g + n))[|d| + k..] == (g + n)[k..];
  }

  /** The context behind a piece goes into its last equality, or becomes one. */
  function WithContextBehind(s: seq<Diff>, i: Text): seq<Diff> {
    if i == [] then s
    else if s != [] && s[|s| - 1].op == Equal then s[..|s| - 1] + [Diff(Equal, s[|s| - 1].text + i)]
    else s + [Diff(Equal, i)]
  }

  lemma {:induction false} ContextBehindTexts(s: seq<Diff>, i: Text)
    ensures var u := WithContextBehind(s, i); Text1(u) == Text1(s) + i && Text2(u) == Text2(s) + i
  {
    hide Text1, Text2, EditChars, Equalities;
    if i == [] {
      assert Text1(s) + [] == Text1(s) && Text2(s) + [] == Text2(s);
    } else if s != [] && s[|s| - 1].op == Equal {
      LastOff(s);
      Merge.LengthenLast(s[..|s| - 1], s[|s| - 1], i);
    } else {
      Concat(s, [Diff(Equal, i)]);
      Single(Diff(Equal, i));
    }
  }

  lemma LastOff(s: seq<Diff>)
    requires s != []
    ensures s == s[..|s| - 1] + [s[|s| - 1]]
  {
  }

  lemma StillMonolithic(s: seq<Diff>, i: Text)
    requires Monolithic(s)
    ensures Monolithic(WithContextBehind(s, i))
  {
  }

  /** A new piece at `e` and `f`, with the context `g` before it. */
  function Opening(e: int, f: int, g: Text): Patch {
    Patch(if g == [] then [] else [Diff(Equal, g)], e - |g|, f - |g|, |g|, |g|)
  }

  lemma {:induction false} OpeningTexts(e: int, f: int, g: Text, taken: seq<Diff>)
    ensures var s := Opening(e, f, g).diffs + taken; Text1(s) == g + Text1(taken) && Text2(s) == g + Text2(taken)
  {
    hide Text1, Text2, EditChars, Equalities;
    if g == [] {
      assert [] + taken == taken && [] + Text1(taken) == Text1(taken) && [] + Text2(taken) == Text2(taken);
    } else {
      Concat([Diff(Equal, g)], taken);
      Single(Diff(Equal, g));
    }
  }

  lemma {:induction false} PieceBuilt(e: int, f: int, g: Text, taken: seq<Diff>, empty: bool, h: Patch, i: Text, h': Patch)
    requires Filling(h, Opening(e, f, g), taken, empty) && |i| <= Margin
    requires h' == Patch(WithContextBehind(h.diffs, i), h.start1, h.start2, h.length1 + |i|, h.length2 + |i|)
    ensures Text2(h.diffs) == g + Text2(taken) && PieceOf(h', g, taken, i, f) && Small(h')
  {
    hide Text1, Text2, EditChars, Equalities, WithContextBehind, Monolithic, Idle;
    OpeningTexts(e, f, g, taken);
    ContextBehindTexts(h.diffs, i);
    if Monolithic(h.diffs) {
      StillMonolithic(h.diffs, i);
    }
  }

  /** One piece of the long patch `d`, with its context, and the context for the next one. */
  method CutPiece(d: PatchObj, e0: int, f0: int, g0: Text) returns (h: PatchObj, e: int, f: int, g: Text, empty: bool, ghost taken: seq<Diff>)
    requires |g0| <= Margin && d.diffs != []
    modifies d
    ensures fresh(h) && Small(h.Value()) && (empty <==> Idle(taken)) && (empty <==> Idle(h.diffs))
    ensures e == e0 + |Text1(taken)| && f == f0 + |Text2(taken)|
    ensures Portioned(taken, d.diffs, old(d.diffs)) && Bulk(d.diffs) < Bulk(old(d.diffs))
    ensures PieceOf(h.Value(), g0, taken, Substring(Text1(d.diffs), 0, Margin), f0)
    ensures d.diffs == [] || h.length1 >= MaxBits - Margin
    ensures h.start1 - h.start2 == e0 - f0 && h.length1 - h.length2 == |Text1(taken)| - |Text2(taken)|
    ensures g == Substring(g0 + Text2(taken), |g0 + Text2(taken)| - Margin, |g0 + Text2(taken)|)
  {
    hide Text1, Text2, EditChars, Portioned, Idle, Monolithic, Bulk, Filling, Small, PieceOf, Measured, WithContextBehind;
    h := new PatchObj();
    h.start1, h.start2 := e0 - |g0|, f0 - |g0|;
    if g0 != [] {
      h.length1, h.length2 := |g0|, |g0|;
      h.diffs := h.diffs + [Diff(Equal, g0)];
    }
    assert h.Value() == Opening(e0, f0, g0);
    e, f, empty, taken := FillPatch(h, d, e0, f0);
    FilledIdle(h.Value(), Opening(e0, f0, g0), taken, empty);
    ghost var h1 := h.Value();
    g := Text2(h.diffs);
    g := Substring(g, |g| - Margin, |g|);
    var i := Substring(Text1(d.diffs), 0, Margin);
    PutBehind(h, i);
    PieceBuilt(e0, f0, g0, taken, empty, h1, i, h.Value());
    PieceIdle(e0, f0, g0, taken, empty, h1, i);
    PiecePlace(e0, f0, g0, taken, empty, h1);
  }

  /** Puts the context `i` behind a piece. */
  method PutBehind(h: PatchObj, i: Text)
    modifies h
    ensures var o := old(h.Value());
            h.Value() == Patch(WithContextBehind(o.diffs, i), o.start1, o.start2, o.length1 + |i|, o.length2 + |i|)
  {
    if i != [] {
      h.length1 := h.length1 + |i|;
      h.length2 := h.length2 + |i|;
      if |h.diffs| != 0 && h.diffs[|h.diffs| - 1].op == Equal {
        h.diffs := h.diffs[..|h.diffs| - 1] + [Diff(Equal, h.diffs[|h.diffs| - 1].text + i)];
      } else {
        h.diffs := h.diffs + [Diff(Equal, i)];
      }
    }
  }

  lemma {:induction false} PiecePlace(e: int, f: int, g: Text, taken: seq<Diff>, empty: bool, h: Patch)
    requires Filling(h, Opening(e, f, g), taken, empty)
    ensures h.start1 - h.start2 == e - f && h.length1 - h.length2 == |Text1(taken)| - |Text2(taken)|
  {
    hide Text1, Text2, Monolithic, Idle;
  }

  /** The context adds no edits. */
  lemma PieceIdle(e: int, f: int, g: Text, taken: seq<Diff>, empty: bool, h: Patch, i: Text)
    requires Filling(h, Opening(e, f, g), taken, empty)
    ensures Idle(WithContextBehind(h.diffs, i)) <==> empty
  {
    hide Text1, Text2, Monolithic;
    var o := Opening(e, f, g).diffs;
    IdleConcat(o, taken);
    IdleContext(h.diffs, i);
  }

  lemma IdleConcat(s: seq<Diff>, t: seq<Diff>)
    ensures Idle(s + t) <==> Idle(s) && Idle(t)
  {
    assert forall k :: 0 <= k < |s| ==> (s + t)[k] == s[k];
    assert forall k :: 0 <= k < |t| ==> (s + t)[|s| + k] == t[k];
  }

  lemma IdleContext(s: seq<Diff>, i: Text)
    ensures Idle(WithContextBehind(s, i)) <==> Idle(s)
  {
    hide Idle;
    if i != [] {
      if s != [] && s[|s| - 1].op == Equal {
        LastOff(s);
        IdleConcat(s[..|s| - 1], [s[|s| - 1]]);
        IdleConcat(s[..|s| - 1], [Diff(Equal, s[|s| - 1].text + i)]);
        IdleOne(s[|s| - 1]);
        IdleOne(Diff(Equal, s[|s| - 1].text + i));
      } else {
        IdleConcat(s, [Diff(Equal, i)]);
        IdleOne(Diff(Equal, i));
      }
    }
  }

  lemma IdleOne(x: Diff)
    ensures Idle([x]) <==> x.op == Equal
  {
    assert [x][0] == x;
  }

  lemma FilledIdle(h: Patch, pre: Patch, taken: seq<Diff>, empty: bool)
    requires Filling(h, pre, taken, empty)
    ensures empty <==> Idle(taken)
  {
  }

  /** The outer loop of the source for the long patch `d`, just taken out of the list behind `lead`: puts its pieces there. */
  method SplitPatch(a: PatchList, c0: int, d: PatchObj, ghost lead: seq<Patch>, ghost tail: seq<Patch>, ghost w: Text) returns (c: int, ghost ps: seq<Patch>)
    requires a.s == lead + tail && c0 == |lead| - 1
    modifies a, d
    ensures a.s == lead + ps + tail && c == c0 + |ps| && AllSmall(ps) && AllEdit(ps)
    ensures AllFull(ps) && Placed(ps, old(d.start1) - old(d.start2))
    ensures var big := old(d.Value()); Fits(w, big) ==> Chain(w, ps, After(w, big))
  {
    hide Text1, Text2, EditChars, Fits, After, Chain, Splitting, Small, Portioned, PieceOf, Idle, Bulk, Placed, Surplus, AllSmall, AllEdit, AllFull, Full;
    c, ps := c0, [];
    NonePlaced(d.start1 - d.start2);
    var e, f := d.start1, d.start2;
    var g: Text := [];
    ghost var big, done: Text := d.Value(), [];
    if Fits(w, big) {
      SplittingStarts(w, big);
    }
    while |d.diffs| != 0
      invariant a.s == lead + ps + tail && c == c0 + |ps| && AllSmall(ps) && AllEdit(ps) && |g| <= Margin
      invariant Fits(w, big) ==> Splitting(w, big, ps, done, d.diffs, f, g)
      invariant AllFull(ps) && (d.diffs != [] ==> Full(ps))
      invariant Placed(ps, big.start1 - big.start2) && e - f == big.start1 - big.start2 + Surplus(ps)
      decreases Bulk(d.diffs)
    {
      var h, empty;
      ghost var taken, left, g0, f0, ps0 := [], d.diffs, g, f, ps;
      h, e, f, g, empty, taken := CutPiece(d, e, f, g);
      if !empty {
        c := c + 1;
        PutIn(lead, ps, tail, h.Value());
        a.s := Splice(a.s, c, 0, [h.Value()]);
        OneMoreFull(ps, h.Value());
        OneMoreFine(ps, h.Value());
        PlacedMore(ps, h.Value(), big.start1 - big.start2);
        SurplusMore(ps, h.Value());
        ps := ps + [h.Value()];
      } else {
        IdleTexts(taken);
      }
      ContextSized(g0 + Text2(taken));
      if Fits(w, big) {
        PieceMore(w, big, ps0, done, left, f0, g0, taken, d.diffs, h.Value(), g, Substring(Text1(d.diffs), 0, Margin));
      }
      done := done + Text2(taken);
    }
    if Fits(w, big) {
      SplittingEnds(w, big, ps, done, d.diffs, f, g);
    }
  }

  lemma OneMoreFine(ps: seq<Patch>, h: Patch)
    requires AllSmall(ps) && Small(h) && AllEdit(ps) && !Idle(h.diffs)
    ensures AllSmall(ps + [h]) && AllEdit(ps + [h])
  {
    hide Small, Idle;
  }

  lemma NonePlaced(ahead: int)
    ensures Placed([], ahead) && Surplus([]) == 0 && AllSmall([]) && AllEdit([]) && AllFull([]) && Full([])
  {
  }

  lemma PutIn(lead: seq<Patch>, ps: seq<Patch>, tail: seq<Patch>, h: Patch)
    ensures Splice(lead + ps + tail, |lead| + |ps|, 0, [h]) == lead + (ps + [h]) + tail
  {
  }

  lemma ContextSized(t: Text)
    ensures |Substring(t, |t| - Margin, |t|)| <= Margin
  {
  }

  /** `patch_splitMax`: whatever the patches turn into whatever, they still do, and now they are small. `parts` says
      what has become of each. */
  method SplitMax(a: PatchList, ghost t: Text, ghost u: Text) returns (ghost parts: seq<seq<Patch>>)
    modifies a
    ensures Chain(t, old(a.s), u) ==> Chain(t, a.s, u)
    ensures AllSmall(a.s)
    ensures a.s == Flat(parts) && |parts| == |old(a.s)| && forall k :: 0 <= k < |parts| ==> PiecesOf(old(a.s)[k], parts[k])
  {
    hide Chain, AllSmall, PiecesOf, Flat;
    ghost var before := a.s;
    parts := [];
    NothingFlat();
    var c := 0;
    assert a.s == [] + before[0..];
    while c < |a.s|
      invariant |parts| <= |before| && a.s == Flat(parts) + before[|parts|..] && c == |Flat(parts)|
      invariant forall k :: 0 <= k < |parts| ==> PiecesOf(before[k], parts[k])
      invariant AllSmall(Flat(parts))
      invariant Chain(t, before, u) ==> Chain(t, a.s, u)
      decreases |before| - |parts|
    {
      assert before[|parts|..] == [before[|parts|]] + before[|parts| + 1..];
      ghost var ps;
      c, ps := SplitNext(a, c, Flat(parts), before[|parts|], before[|parts| + 1..], t, u);
      FlatMore(parts, ps);
      SmallJoin(Flat(parts), ps);
      parts := parts + [ps];
    }
    assert before[|before|..] == [];
    assert a.s == Flat(parts);
  }

  /** One round of `patch_splitMax`: what becomes of the patch `big` behind `lead`. */
  method SplitNext(a: PatchList, c0: nat, ghost lead: seq<Patch>, ghost big: Patch, ghost tail: seq<Patch>, ghost t: Text, ghost u: Text)
    returns (c: nat, ghost ps: seq<Patch>)
    requires a.s == lead + ([big] + tail) && c0 == |lead|
    modifies a
    ensures a.s == lead + ps + tail && c == |lead + ps| && PiecesOf(big, ps) && AllSmall(ps)
    ensures Chain(t, old(a.s), u) ==> Chain(t, a.s, u)
  {
    hide Fits, After, Chain, Monolithic, Idle, Placed, AllEdit;
    ghost var before := a.s;
    assert before == lead + [big] + tail && before[c0] == big;
    ps := [big];
    c := c0;
    if !(a.s[c].length1 <= MaxBits) {
      ghost var w: Text := [];
      if Chain(t, before, u) {
        w := ChainAround(t, lead, big, tail, before, u);
      }
      var d := Opened(a.s[c]);
      CutOut(lead, big, tail);
      a.s := Splice(a.s, c, 1, []);
      var k: int;
      k, ps := SplitPatch(a, c - 1, d, lead, tail, w);
      c := k + 1;
      if Chain(t, before, u) {
        ChainExchanged(t, lead, w, big, ps, tail, u);
      }
    } else {
      c := c + 1;
    }
  }

  lemma CutOut(lead: seq<Patch>, big: Patch, tail: seq<Patch>)
    ensures Splice(lead + [big] + tail, |lead|, 1, []) == lead + tail
  {
  }

  lemma SmallJoin(ps: seq<Patch>, qs: seq<Patch>)
    requires AllSmall(ps) && AllSmall(qs)
    ensures AllSmall(ps + qs)
  {
    hide Small;
  }

  lemma {:induction false} ChainExchanged(t: Text, lead: seq<Patch>, w: Text, big: Patch, ps: seq<Patch>, tail: seq<Patch>, u: Text)
    requires Fits(w, big) && Chain(t, lead, w) && Chain(w, ps, After(w, big)) && Chain(After(w, big), tail, u)
    ensures Chain(t, lead + ps + tail, u)
  {
    hide Fits, After, Chain;
    ChainJoin(t, lead, w, ps, After(w, big));
    ChainJoin(t, lead + ps, After(w, big), tail, u);
  }

  lemma NothingFlat()
    ensures Flat([]) == [] && AllSmall(Flat([]))
  {
  }

  /** A list patch as an object of its own. */
  method Opened(h: Patch) returns (d: PatchObj)
    ensures fresh(d) && d.Value() == h
  {
    d := new PatchObj();
    d.diffs := h.diffs;
    d.start1, d.start2, d.length1, d.length2 := h.start1, h.start2, h.length1, h.length2;
  }

  lemma ChainAround(t: Text, lead: seq<Patch>, big: Patch, tail: seq<Patch>, ps: seq<Patch>, u: Text) returns (w: Text)
    requires ps == lead + [big] + tail && Chain(t, ps, u)
    ensures Fits(w, big) && Chain(t, lead, w) && Chain(After(w, big), tail, u)
  {
    hide Fits, After;
    w := ChainSplit(t, ps, |lead|, u);
    assert ps[..|lead|] == lead && ps[|lead|..] == [big] + tail;
    assert ([big] + tail)[0] == big && ([big] + tail)[1..] == tail;
  }
}
