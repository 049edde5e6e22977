/** `diff_cleanupMerge`: reorders and merges runs of edits, factors out what a
    run's deletion and insertion share, and slides lone edits sideways when that
    swallows an equality. Proved: the two texts stay, the pass ends, and the
    list it ends in is in a normal form. */
module Merge {
  import opened Texts
  import opened Common
  import opened Diffs

  // ----- the normal form

  /** `y` may follow `x`: a run of edits is at most one deletion and then one insertion,
      with no common ends, and equalities do not touch. */
  predicate Beside(x: Diff, y: Diff) {
    match x.op
    case Equal => y.op != Equal
    case Insert => y.op == Equal
    case Delete => y.op == Equal || (y.op == Insert && Lcp(y.text, x.text) == 0 && Lcs(y.text, x.text) == 0)
  }

  ghost predicate Tidy(s: seq<Diff>) {
    forall i :: 0 <= i < |s| - 1 ==> Beside(s[i], s[i + 1])
  }

  predicate EndsWith(s: Text, t: Text) {
    |t| <= |s| && s[|s| - |t|..] == t
  }

  predicate StartsWith(s: Text, t: Text) {
    |t| <= |s| && s[..|t|] == t
  }

  /** The edit at `i` can be slid over the whole equality on its left or on its right. */
  predicate Slidable(s: seq<Diff>, i: int) {
    Enclosed(s, i) && (EndsWith(s[i].text, s[i - 1].text) || StartsWith(s[i].text, s[i + 1].text))
  }

  ghost predicate Canonical(s: seq<Diff>) {
    && Tidy(s)
    && (forall i :: 0 <= i < |s| ==> !Slidable(s, i))
    && (s != [] ==> s[|s| - 1].op != Equal || s[|s| - 1].text != [])
  }

  // ----- merging one run of edits

  /** The list before a run, with `g` appended to its last equality. */
  function WithPrefix(p: seq<Diff>, g: Text): seq<Diff> {
    if g == [] then p
    else if p == [] then [Diff(Equal, g)]
    else p[..|p| - 1] + [Diff(Equal, p[|p| - 1].text + g)]
  }

  function MergedEdits(c: nat, d: nat, e: Text, f: Text): seq<Diff> {
    (if c > 0 then [Diff(Delete, e)] else []) + (if d > 0 then [Diff(Insert, f)] else [])
  }

  /** A list up to an equality: everything before the run, the merged run, the equality. */
  function MergedRun(p: seq<Diff>, c: nat, d: nat, e: Text, f: Text, x: Diff): seq<Diff> {
    var g, h := Front(f, e), Back(f, e);
    WithPrefix(p, f[..g]) + MergedEdits(c, d, Core(e, f, e), Core(f, f, e)) + [Diff(Equal, f[|f| - h..] + x.text)]
  }

  predicate Holds(s: seq<Diff>, op: Op) {
    exists i :: 0 <= i < |s| && s[i].op == op
  }

  lemma HoldsMore(r: seq<Diff>, x: Diff)
    ensures forall op :: Holds(r + [x], op) <==> Holds(r, op) || x.op == op
    ensures forall op :: !Holds([], op)
  {
    var u := r + [x];
    forall op
      ensures Holds(u, op) <==> Holds(r, op) || x.op == op
    {
      assert u[|r|] == x;
      if i :| 0 <= i < |r| && r[i].op == op {
        assert u[i].op == op;
      }
    }
  }

  /** What the first pass makes of the equality `x` behind the entries `p` that are done and the open run `r`: a run of two
      or more is merged, and an equality right behind another one is joined to it. */
  function AtEqual(p: seq<Diff>, r: seq<Diff>, x: Diff): seq<Diff> {
    if |r| > 1 then MergedRun(p, if Holds(r, Delete) then 1 else 0, if Holds(r, Insert) then 1 else 0, Text1(r), Text2(r), x)
    else if r == [] && p != [] then p[..|p| - 1] + [Diff(Equal, p[|p| - 1].text + x.text)]
    else p + r + [x]
  }

  /** The first pass from there on: `t` is to come. */
  function Passed(p: seq<Diff>, r: seq<Diff>, t: seq<Diff>): seq<Diff>
    decreases |t|
  {
    if t == [] then p + r
    else if t[0].op == Equal then Passed(AtEqual(p, r, t[0]), [], t[1..])
    else Passed(p, r + [t[0]], t[1..])
  }

  /** The whole first pass: runs are merged, up to an empty equality put behind the list for the time being. */
  function MergedAll(s: seq<Diff>): seq<Diff> {
    WithoutEmptyEnd(Passed([], [], s + [Diff(Equal, [])]))
  }

  function WithoutEmptyEnd(s: seq<Diff>): seq<Diff> {
    if s != [] && s[|s| - 1].text == [] then s[..|s| - 1] else s
  }

  predicate OpenEnded(p: seq<Diff>) {
    p == [] || p[|p| - 1].op == Equal
  }

  /** The run `r` holds `c` deletions of `e` in all and `d` insertions of `f` in all. */
  ghost predicate RunOf(r: seq<Diff>, c: nat, d: nat, e: Text, f: Text) {
    && |r| == c + d && Text1(r) == e && Text2(r) == f && EditChars(r) == |e| + |f| && Equalities(r) == 0
    && (c == 0 ==> e == []) && (d == 0 ==> f == [])
    && (|r| == 1 ==> r[0] == if c == 1 then Diff(Delete, e) else Diff(Insert, f))
    && (forall i :: 0 <= i < |r| ==> r[i].op != Equal)
    && (c > 0 <==> Holds(r, Delete)) && (d > 0 <==> Holds(r, Insert))
  }

  lemma RunGrows(r: seq<Diff>, c: nat, d: nat, e: Text, f: Text, x: Diff)
    requires RunOf(r, c, d, e, f) && x.op != Equal
    ensures x.op == Delete ==> RunOf(r + [x], c + 1, d, e + x.text, f)
    ensures x.op == Insert ==> RunOf(r + [x], c, d + 1, e, f + x.text)
  {
    hide Holds;
    Concat(r, [x]);
    Single(x);
    HoldsMore(r, x);
  }

  /** Only whether there are deletions and insertions in a run matters, not how many. */
  lemma MergedRunIs(p: seq<Diff>, r: seq<Diff>, c: nat, d: nat, e: Text, f: Text, x: Diff)
    requires RunOf(r, c, d, e, f) && c + d > 1
    ensures MergedRun(p, c, d, e, f, x) == AtEqual(p, r, x)
  {
    hide Front, Back, Core, WithPrefix, Text1, Text2, EditChars, Equalities, Holds;
  }

  /** Lengthening the last equality of a list lengthens both of its texts. */
  lemma {:induction false} LengthenLast(q: seq<Diff>, x: Diff, g: Text)
    requires x.op == Equal
    ensures var y := Diff(Equal, x.text + g);
            && Text1(q + [y]) == Text1(q + [x]) + g && Text2(q + [y]) == Text2(q + [x]) + g
            && EditChars(q + [y]) == EditChars(q + [x])
  {
    hide Text1, Text2, EditChars, Equalities;
    var y := Diff(Equal, x.text + g);
    Concat(q, [x]);
    Concat(q, [y]);
    Single(x);
    Single(y);
    assert Text1(q) + (x.text + g) == Text1(q) + x.text + g;
    assert Text2(q) + (x.text + g) == Text2(q) + x.text + g;
  }

  lemma {:induction false} WithPrefixTexts(p: seq<Diff>, g: Text)
    requires OpenEnded(p)
    ensures Text1(WithPrefix(p, g)) == Text1(p) + g && Text2(WithPrefix(p, g)) == Text2(p) + g
    ensures EditChars(WithPrefix(p, g)) == EditChars(p)
    ensures OpenEnded(WithPrefix(p, g)) && |p| <= |WithPrefix(p, g)|
    ensures g == [] ==> |WithPrefix(p, g)| == |p|
  {
    if g != [] {
      if p == [] {
        Single(Diff(Equal, g));
      } else {
        hide Text1, Text2, EditChars;
        assert p == p[..|p| - 1] + [p[|p| - 1]];
        LengthenLast(p[..|p| - 1], p[|p| - 1], g);
      }
    }
  }

  lemma MergedEditsTexts(c: nat, d: nat, e: Text, f: Text)
    requires (c == 0 ==> e == []) && (d == 0 ==> f == [])
    ensures var m := MergedEdits(c, d, e, f);
            Text1(m) == e && Text2(m) == f && EditChars(m) == |e| + |f| && |m| <= c + d
  {
    var x := if c > 0 then [Diff(Delete, e)] else [];
    var y := if d > 0 then [Diff(Insert, f)] else [];
    Single(Diff(Delete, e));
    Single(Diff(Insert, f));
    assert Text1(x) == e && Text2(x) == [] && EditChars(x) == |e|;
    assert Text1(y) == [] && Text2(y) == f && EditChars(y) == |f|;
    hide Text1, Text2, EditChars;
    Concat(x, y);
  }

  lemma Regroup(p: Text, g: Text, m: Text, h: Text, x: Text)
    ensures (p + g) + m + (h + x) == p + (g + m + h) + x
  {
  }

  /** Merging a run keeps both texts. */
  lemma MergedRunTexts(p: seq<Diff>, r: seq<Diff>, c: nat, d: nat, e: Text, f: Text, x: Diff)
    requires OpenEnded(p) && RunOf(r, c, d, e, f) && x.op == Equal
    ensures SameTexts(MergedRun(p, c, d, e, f, x), p + r + [x])
  {
    hide Core, WithPrefix, MergedEdits, Text1, Text2, EditChars, Front, Back;
    var g, h := f[..Front(f, e)], f[|f| - Back(f, e)..];
    var e', f' := Core(e, f, e), Core(f, f, e);
    var q, m, y := WithPrefix(p, g), MergedEdits(c, d, e', f'), Diff(Equal, h + x.text);
    CutEnds(f, e);
    WithPrefixTexts(p, g);
    CoreOfNothing(c, d, e, f);
    MergedEditsTexts(c, d, e', f');
    Concat3(q, m, [y]);
    Concat3(p, r, [x]);
    Single(x);
    Single(y);
    Regroup(Text1(p), g, e', h, x.text);
    Regroup(Text2(p), g, f', h, x.text);
  }

  lemma CoreOfNothing(c: nat, d: nat, e: Text, f: Text)
    requires (c == 0 ==> e == []) && (d == 0 ==> f == [])
    ensures (c == 0 ==> Core(e, f, e) == []) && (d == 0 ==> Core(f, f, e) == [])
  {
  }

  /** Merging a run adds entries only by taking units out of edits. */
  lemma {:induction false} MergedRunChars(p: seq<Diff>, r: seq<Diff>, c: nat, d: nat, e: Text, f: Text, x: Diff)
    requires OpenEnded(p) && RunOf(r, c, d, e, f) && x.op == Equal
    ensures var m := MergedRun(p, c, d, e, f, x);
            && EditChars(m) <= EditChars(p + r + [x])
            && (EditChars(m) == EditChars(p + r + [x]) ==> |m| <= |p + r + [x]| && m[|m| - 1] == x)
  {
    hide Core, WithPrefix, MergedEdits, Text1, Text2, EditChars, Front, Back;
    var g, h := f[..Front(f, e)], f[|f| - Back(f, e)..];
    var e', f' := Core(e, f, e), Core(f, f, e);
    var q, m, y := WithPrefix(p, g), MergedEdits(c, d, e', f'), Diff(Equal, h + x.text);
    CutEnds(f, e);
    WithPrefixTexts(p, g);
    CoreOfNothing(c, d, e, f);
    MergedEditsTexts(c, d, e', f');
    Concat3(q, m, [y]);
    Concat3(p, r, [x]);
    Single(x);
    Single(y);
    assert |e| == |g| + |e'| + |h| && |f| == |g| + |f'| + |h|;
    assert h == [] ==> y == x;
  }

  lemma MergedRunTidy(p: seq<Diff>, r: seq<Diff>, c: nat, d: nat, e: Text, f: Text, x: Diff)
    requires OpenEnded(p) && RunOf(r, c, d, e, f) && x.op == Equal && Tidy(p) && c + d > 0
    ensures Tidy(MergedRun(p, c, d, e, f, x))
  {
    hide Lcp, Lcs, Core, Front, Back, Tidy, WithPrefix, MergedEdits, RunOf, Beside;
    CoresDiffer(f, e);
    TidyPrefix(p, f[..Front(f, e)]);
    TidyRun(WithPrefix(p, f[..Front(f, e)]), c, d, Core(e, f, e), Core(f, f, e), Diff(Equal, f[|f| - Back(f, e)..] + x.text));
  }

  lemma {:induction false} TidyRun(q: seq<Diff>, c: nat, d: nat, e: Text, f: Text, x: Diff)
    requires Tidy(q) && OpenEnded(q) && c + d > 0 && Lcp(f, e) == 0 && Lcs(f, e) == 0 && x.op == Equal
    ensures Tidy(q + MergedEdits(c, d, e, f) + [x])
  {
    hide Lcp, Lcs, Tidy;
    var u := if c > 0 then q + [Diff(Delete, e)] else q;
    var v := if d > 0 then u + [Diff(Insert, f)] else u;
    if c > 0 {
      TidyAppend(q, Diff(Delete, e));
    }
    if d > 0 {
      TidyAppend(u, Diff(Insert, f));
    }
    TidyAppend(v, x);
    assert q + MergedEdits(c, d, e, f) == v;
  }

  lemma TidyPrefix(p: seq<Diff>, g: Text)
    requires OpenEnded(p) && Tidy(p)
    ensures Tidy(WithPrefix(p, g)) && OpenEnded(WithPrefix(p, g))
  {
    hide Lcp, Lcs;
  }

  lemma SpliceMiddle(p: seq<Diff>, r: seq<Diff>, t: seq<Diff>, m: seq<Diff>)
    ensures Splice(p + r + t, |p|, |r|, m) == p + m + t
  {
    assert (p + r + t)[..|p|] == p && (p + r + t)[|p| + |r|..] == t;
  }

  /** Moves what the run's insertion and deletion share in front into the equality before it. */
  method FactorFront(a: DiffList, b0: nat, c: nat, d: nat, e0: Text, f0: Text, ghost p: seq<Diff>, ghost r: seq<Diff>, ghost t: seq<Diff>)
    returns (b: nat, e: Text, f: Text)
    requires a.s == p + r + t && b0 == |p| + |r| && |r| == c + d
    requires OpenEnded(p)
    modifies a
    ensures a.s == WithPrefix(p, f0[..Front(f0, e0)]) + r + t
    ensures b == |WithPrefix(p, f0[..Front(f0, e0)])| + |r|
    ensures e == e0[Front(f0, e0)..] && f == f0[Front(f0, e0)..]
  {
    hide Lcp, Lcs;
    b, e, f := b0, e0, f0;
    var g := CommonPrefix(f, e);
    assert g == Front(f0, e0);
    if g != 0 {
      if 0 < b - c - d && a.s[b - c - d - 1].op == Equal {
        a.s := a.s[b - c - d - 1 := Diff(Equal, a.s[b - c - d - 1].text + f[..g])];
      } else {
        a.s := Splice(a.s, 0, 0, [Diff(Equal, f[..g])]);
        b := b + 1;
      }
      f := f[g..];
      e := e[g..];
    }
  }

  lemma UpdateAt(q: seq<Diff>, x: Diff, t: seq<Diff>, y: Diff)
    ensures var s := q + ([x] + t); s[|q|] == x && s[|q| := y] == q + ([y] + t)
  {
  }

  /** Moves what they share behind into the equality `a.s[b]` that closes the run. */
  method FactorBack(a: DiffList, b: nat, e0: Text, f0: Text, ghost q: seq<Diff>, ghost x: Diff, ghost t: seq<Diff>)
    returns (e: Text, f: Text, ghost g: nat)
    requires a.s == q + ([x] + t) && b == |q| && x.op == Equal
    modifies a
    ensures g == Lcs(f0, e0)
    ensures a.s == q + ([Diff(Equal, f0[|f0| - g..] + x.text)] + t)
    ensures e == e0[..|e0| - g] && f == f0[..|f0| - g]
  {
    hide Lcs;
    e, f := e0, f0;
    var h := CommonSuffix(f, e);
    g := h;
    UpdateAt(q, x, t, Diff(Equal, f[|f| - h..] + x.text));
    if h != 0 {
      a.s := a.s[b := Diff(Equal, f[|f| - h..] + a.s[b].text)];
      f := f[..|f| - h];
      e := e[..|e| - h];
    } else {
      assert f0[|f0|..] == [] && [] + x.text == x.text;
      assert f0[..|f0|] == f0 && e0[..|e0|] == e0;
    }
  }

  lemma {:induction false} AfterFront(e: Text, f: Text, e1: Text, f1: Text, g: nat)
    requires e1 == e[Front(f, e)..] && f1 == f[Front(f, e)..] && g == Lcs(f1, e1)
    ensures g == Back(f, e) && f[|f| - g..] == f1[|f1| - g..]
  {
    hide Lcp, Lcs, Front;
    DropDrop(f, Front(f, e), g, f1);
  }

  lemma CoreAfterFront(e: Text, f: Text, e1: Text, f1: Text, g: nat)
    requires e1 == e[Front(f, e)..] && f1 == f[Front(f, e)..] && g == Back(f, e)
    ensures Core(e, f, e) == e1[..|e1| - g] && Core(f, f, e) == f1[..|f1| - g]
  {
    hide Lcp, Lcs, Front, Back;
    DropDrop(f, Front(f, e), g, f1);
    DropDrop(e, Front(f, e), g, e1);
  }

  /** The step of the first pass that closes a run of two or more edits at the equality `a.s[b0]`. */
  method MergeRun(a: DiffList, b0: nat, c: nat, d: nat, e0: Text, f0: Text, ghost p: seq<Diff>, ghost r: seq<Diff>, ghost x: Diff, ghost t: seq<Diff>)
    returns (b: nat)
    requires a.s == p + r + ([x] + t) && b0 == |p| + |r| && x.op == Equal
    requires OpenEnded(p) && RunOf(r, c, d, e0, f0) && c + d > 1
    modifies a
    ensures a.s == MergedRun(p, c, d, e0, f0, x) + t
    ensures b == |MergedRun(p, c, d, e0, f0, x)|
  {
    hide Lcp, Lcs, RunOf, Text1, Text2, EditChars, WithPrefix, Front, Back, Core;
    b := b0;
    var e, f := e0, f0;
    RunFacts(r, c, d, e0, f0);
    ghost var q, y := WithPrefix(p, f0[..Front(f0, e0)]), Diff(Equal, f0[|f0| - Back(f0, e0)..] + x.text);
    if c != 0 && d != 0 {
      b, e, f := FactorFront(a, b, c, d, e, f, p, r, [x] + t);
      ghost var e1, f1, g := e, f, 0;
      e, f, g := FactorBack(a, b, e, f, q + r, x, t);
      AfterFront(e0, f0, e1, f1, g);
      CoreAfterFront(e0, f0, e1, f1, g);
    } else {
      NothingShared(p, e0, f0, x);
    }
    b := ReplaceRun(a, b, c, d, e, f, q, r, [y] + t);
    assert a.s == q + MergedEdits(c, d, e, f) + [y] + t;
  }

  method ReplaceRun(a: DiffList, b0: nat, c: nat, d: nat, e: Text, f: Text, ghost q: seq<Diff>, ghost r: seq<Diff>, ghost t: seq<Diff>)
    returns (b: nat)
    requires a.s == q + r + t && b0 == |q| + |r| && |r| == c + d > 0
    modifies a
    ensures a.s == q + MergedEdits(c, d, e, f) + t && b == |q| + |MergedEdits(c, d, e, f)| + 1
  {
    SpliceMiddle(q, r, t, MergedEdits(c, d, e, f));
    if c == 0 {
      a.s := Splice(a.s, b0 - d, c + d, [Diff(Insert, f)]);
    } else if d == 0 {
      a.s := Splice(a.s, b0 - c, c + d, [Diff(Delete, e)]);
    } else {
      a.s := Splice(a.s, b0 - c - d, c + d, [Diff(Delete, e), Diff(Insert, f)]);
    }
    b := b0 - c - d + (if c != 0 then 1 else 0) + (if d != 0 then 1 else 0) + 1;
  }

  lemma CoreOfAll(s: Text, f: Text, e: Text)
    requires (s == f || s == e) && Front(f, e) == 0 && Back(f, e) == 0
    ensures Core(s, f, e) == s
  {
    hide Lcp, Lcs, Front, Back;
    assert s[0..|s|] == s;
  }

  lemma NoPrefix(p: seq<Diff>)
    ensures WithPrefix(p, []) == p
  {
  }

  lemma NothingShared(p: seq<Diff>, e: Text, f: Text, x: Diff)
    requires (e == [] || f == []) && x.op == Equal
    ensures WithPrefix(p, f[..Front(f, e)]) == p
    ensures Core(e, f, e) == e && Core(f, f, e) == f
    ensures Diff(Equal, f[|f| - Back(f, e)..] + x.text) == x
  {
    hide Lcp, Lcs, Front, Back, Core, WithPrefix;
    assert Front(f, e) == 0 && Back(f, e) == 0;
    CoreOfAll(e, f, e);
    CoreOfAll(f, f, e);
    assert f[..0] == [];
    NoPrefix(p);
    assert f[|f|..] == [] && [] + x.text == x.text;
  }

  lemma RunFacts(r: seq<Diff>, c: nat, d: nat, e: Text, f: Text)
    requires RunOf(r, c, d, e, f)
    ensures |r| == c + d && (c == 0 ==> e == []) && (d == 0 ==> f == [])
  {
  }

  // ----- the first pass

  /** `s` stands for the texts of `o`, edits no more units, and is no longer unless
      it edits fewer; a trailing empty equality does not count. */
  ghost predicate NoWorse(s: seq<Diff>, o: seq<Diff>) {
    && SameTexts(s, o)
    && s != [] && s[|s| - 1].op == Equal
    && EditChars(s) <= EditChars(o)
    && (EditChars(s) == EditChars(o) ==> |s| <= |o| || (|s| == |o| + 1 && s[|s| - 1].text == []))
  }

  /** Between two entries: `p` is done, `r` is the open run, `t` is still to come. */
  ghost predicate MidPass(s: seq<Diff>, o: seq<Diff>, p: seq<Diff>, r: seq<Diff>, t: seq<Diff>, c: nat, d: nat, e: Text, f: Text) {
    && s == p + r + t && NoWorse(s, o)
    && Tidy(p) && OpenEnded(p) && RunOf(r, c, d, e, f)
  }

  lemma NothingOpen()
    ensures RunOf([], 0, 0, [], []) && Tidy([]) && OpenEnded([])
  {
  }

  lemma PassStarts(o: seq<Diff>)
    ensures var s := o + [Diff(Equal, [])]; MidPass(s, o, [], [], s, 0, 0, [], [])
  {
    hide Text1, Text2, EditChars, Equalities, RunOf, Tidy, OpenEnded;
    NothingOpen();
    Concat(o, [Diff(Equal, [])]);
    Single(Diff(Equal, []));
    assert Text1(o) + [] == Text1(o) && Text2(o) + [] == Text2(o);
    assert o + [Diff(Equal, [])] == [] + [] + (o + [Diff(Equal, [])]);
  }

  lemma TakeEdit(s: seq<Diff>, o: seq<Diff>, p: seq<Diff>, r: seq<Diff>, t: seq<Diff>, c: nat, d: nat, e: Text, f: Text)
    requires MidPass(s, o, p, r, t, c, d, e, f) && t != [] && t[0].op != Equal
    ensures t[0].op == Delete ==> MidPass(s, o, p, r + [t[0]], t[1..], c + 1, d, e + t[0].text, f)
    ensures t[0].op == Insert ==> MidPass(s, o, p, r + [t[0]], t[1..], c, d + 1, e, f + t[0].text)
  {
    RunGrows(r, c, d, e, f, t[0]);
    assert p + r + t == p + (r + [t[0]]) + t[1..];
  }

  /** Exchanging the front `u` of a list for `m`, which stands for the same texts. */
  lemma {:induction false} ExchangeFront(o: seq<Diff>, u: seq<Diff>, m: seq<Diff>, t: seq<Diff>)
    requires NoWorse(u + t, o) && SameTexts(m, u) && EditChars(m) <= EditChars(u)
    requires u != [] && m != [] && u[|u| - 1].op == m[|m| - 1].op == Equal
    requires EditChars(m) == EditChars(u) ==> |m| < |u| || (|m| == |u| && m[|m| - 1] == u[|u| - 1])
    ensures NoWorse(m + t, o)
  {
    hide Text1, Text2, EditChars, Equalities;
    Concat(u, t);
    Concat(m, t);
    if t == [] {
      assert u + t == u && m + t == m;
    } else {
      assert (u + t)[|u + t| - 1] == t[|t| - 1] == (m + t)[|m + t| - 1];
    }
  }

  lemma CloseRun(s: seq<Diff>, o: seq<Diff>, p: seq<Diff>, r: seq<Diff>, t: seq<Diff>, c: nat, d: nat, e: Text, f: Text)
    requires MidPass(s, o, p, r, t, c, d, e, f) && t != [] && t[0].op == Equal && c + d > 1
    ensures var m := MergedRun(p, c, d, e, f, t[0]); MidPass(m + t[1..], o, m, [], t[1..], 0, 0, [], [])
  {
    hide MergedRun, Text1, Text2, EditChars, Tidy, NoWorse;
    var m := MergedRun(p, c, d, e, f, t[0]);
    MergedRunTexts(p, r, c, d, e, f, t[0]);
    MergedRunChars(p, r, c, d, e, f, t[0]);
    MergedRunTidy(p, r, c, d, e, f, t[0]);
    MergedRunCloses(p, c, d, e, f, t[0]);
    assert s == p + r + [t[0]] + t[1..];
    ExchangeFront(o, p + r + [t[0]], m, t[1..]);
    FreshRun(m + t[1..], o, m, t[1..]);
  }

  lemma FreshRun(s: seq<Diff>, o: seq<Diff>, p: seq<Diff>, t: seq<Diff>)
    requires s == p + t && NoWorse(s, o) && Tidy(p) && OpenEnded(p)
    ensures MidPass(s, o, p, [], t, 0, 0, [], [])
  {
    hide NoWorse, Tidy, OpenEnded, RunOf;
    EmptyRun();
    assert p + [] == p;
  }

  lemma MergedRunCloses(p: seq<Diff>, c: nat, d: nat, e: Text, f: Text, x: Diff)
    ensures var m := MergedRun(p, c, d, e, f, x); m != [] && m[|m| - 1].op == Equal
  {
  }

  lemma EmptyRun()
    ensures RunOf([], 0, 0, [], [])
  {
  }

  lemma PassEquality(s: seq<Diff>, o: seq<Diff>, p: seq<Diff>, r: seq<Diff>, t: seq<Diff>, c: nat, d: nat, e: Text, f: Text)
    requires MidPass(s, o, p, r, t, c, d, e, f) && t != [] && t[0].op == Equal && c + d <= 1
    requires r != [] || p == []
    ensures MidPass(s, o, p + r + [t[0]], [], t[1..], 0, 0, [], [])
  {
    hide NoWorse, Tidy, OpenEnded, RunOf;
    RunIsEdits(r, c, d, e, f);
    LoneEditTidy(p, r, t[0]);
    assert t == [t[0]] + t[1..];
    assert p + r + ([t[0]] + t[1..]) == p + r + [t[0]] + t[1..];
    FreshRun(s, o, p + r + [t[0]], t[1..]);
  }

  lemma RunIsEdits(r: seq<Diff>, c: nat, d: nat, e: Text, f: Text)
    requires RunOf(r, c, d, e, f)
    ensures |r| == c + d && (r != [] ==> r[0].op != Equal)
  {
    hide Text1, Text2, EditChars, Equalities;
  }

  /** At most one edit and then an equality keep a list tidy. */
  lemma LoneEditTidy(p: seq<Diff>, r: seq<Diff>, x: Diff)
    requires Tidy(p) && OpenEnded(p) && |r| <= 1 && (r != [] ==> r[0].op != Equal) && (r != [] || p == []) && x.op == Equal
    ensures Tidy(p + r + [x]) && OpenEnded(p + r + [x])
  {
    hide Lcp, Lcs, Tidy;
    if r != [] {
      TidyAppend(p, r[0]);
      assert r == [r[0]];
    } else {
      assert p + r == p;
    }
    TidyAppend(p + r, x);
  }

  lemma TidyAppend(p: seq<Diff>, x: Diff)
    requires Tidy(p) && (p == [] || Beside(p[|p| - 1], x))
    ensures Tidy(p + [x])
  {
    hide Beside;
  }

  lemma JoinEqualities(o: seq<Diff>, n: seq<Diff>, x: Diff, z: Diff, t: seq<Diff>)
    requires NoWorse(n + [x] + ([z] + t), o) && Tidy(n + [x]) && x.op == z.op == Equal
    ensures var q := n + [Diff(Equal, x.text + z.text)]; MidPass(q + t, o, q, [], t, 0, 0, [], [])
  {
    var p, q := n + [x], n + [Diff(Equal, x.text + z.text)];
    LengthenLast(n, x, z.text);
    Single(z);
    Concat(p, [z]);
    TidyInit(n, x, Diff(Equal, x.text + z.text));
    hide Text1, Text2, EditChars, Tidy, NoWorse;
    assert p + ([z] + t) == p + [z] + t;
    ExchangeFront(o, p + [z], q, t);
    FreshRun(q + t, o, q, t);
  }

  lemma TidyInit(n: seq<Diff>, x: Diff, y: Diff)
    requires Tidy(n + [x]) && x.op == y.op == Equal
    ensures Tidy(n + [y])
  {
    hide Lcp, Lcs;
    var s, u := n + [x], n + [y];
    forall i | 0 <= i < |u| - 1
      ensures Beside(u[i], u[i + 1])
    {
      assert Beside(s[i], s[i + 1]);
    }
  }

  lemma BeforeEquality(p: seq<Diff>, r: seq<Diff>, t: seq<Diff>, c: nat, d: nat, e: Text, f: Text)
    requires OpenEnded(p) && RunOf(r, c, d, e, f)
    ensures |r| == c + d && (r == [] ==> e == [] && f == [])
    ensures var b := |p| + |r|; b > 0 ==> ((p + r + t)[b - 1].op == Equal <==> r == [])
    ensures r == [] && p == [] <==> |p| + |r| == 0
  {
  }

  lemma PassEnds(s: seq<Diff>, o: seq<Diff>, p: seq<Diff>, r: seq<Diff>, t: seq<Diff>, c: nat, d: nat, e: Text, f: Text)
    requires MidPass(s, o, p, r, t, c, d, e, f) && t == []
    ensures s == p && Tidy(s) && NoWorse(s, o)
  {
    hide Text1, Text2, EditChars, Tidy;
    BeforeEquality(p, r, t, c, d, e, f);
  }

  lemma {:induction false} DropEmpty(s: seq<Diff>, o: seq<Diff>)
    requires Tidy(s) && NoWorse(s, o)
    ensures s != [] && s[|s| - 1].op == Equal
    ensures var u := if s[|s| - 1].text == [] then s[..|s| - 1] else s;
            && Tidy(u) && SameTexts(u, o)
            && (u != [] ==> u[|u| - 1].op != Equal || u[|u| - 1].text != [])
            && (EditChars(u) < EditChars(o) || (EditChars(u) == EditChars(o) && |u| <= |o|))
  {
    hide Lcp, Lcs, Text1, Text2, EditChars;
    var u, x := s[..|s| - 1], s[|s| - 1];
    assert s == u + [x];
    Concat(u, [x]);
    Single(x);
  }

  lemma LastOff(p: seq<Diff>, n: seq<Diff>, x: Diff, z: Diff, t: seq<Diff>)
    requires p != [] && n == p[..|p| - 1] && x == p[|p| - 1]
    ensures p == n + [x] && p + [] + ([z] + t) == n + [x] + ([z] + t)
  {
  }

  lemma Joined(n: seq<Diff>, x: Diff, z: Diff, t: seq<Diff>)
    ensures var s, b, y := n + [x] + ([z] + t), |n| + 1, Diff(Equal, x.text + z.text);
            s[b - 1] == x && s[b] == z && Splice(s[b - 1 := y], b, 1, []) == n + [y] + t
  {
  }

  /** The step of the first pass at the equality `a.s[b0]`. */
  method AtEquality(a: DiffList, b0: nat, c: nat, d: nat, e: Text, f: Text, ghost o: seq<Diff>, ghost p: seq<Diff>, ghost r: seq<Diff>, ghost t: seq<Diff>)
    returns (b: nat, ghost q: seq<Diff>)
    requires MidPass(a.s, o, p, r, t, c, d, e, f) && t != [] && t[0].op == Equal && b0 == |p| + |r|
    modifies a
    ensures MidPass(a.s, o, q, [], t[1..], 0, 0, [], []) && b == |q| && q == AtEqual(p, r, t[0])
  {
    hide Lcp, Lcs, Text1, Text2, EditChars, MergedRun, Front, Back, Core, WithPrefix, RunOf, NoWorse, Tidy, Beside, Holds;
    b := b0;
    ghost var z, t' := t[0], t[1..];
    assert t == [z] + t';
    BeforeEquality(p, r, t, c, d, e, f);
    if c + d > 1 {
      CloseRun(a.s, o, p, r, t, c, d, e, f);
      MergedRunIs(p, r, c, d, e, f, z);
      b := MergeRun(a, b, c, d, e, f, p, r, z, t');
      q := MergedRun(p, c, d, e, f, z);
    } else if b != 0 && a.s[b - 1].op == Equal {
      ghost var n, x := p[..|p| - 1], p[|p| - 1];
      LastOff(p, n, x, z, t');
      JoinEqualities(o, n, x, z, t');
      q := n + [Diff(Equal, x.text + z.text)];
      Joined(n, x, z, t');
      a.s := a.s[b - 1 := Diff(Equal, a.s[b - 1].text + a.s[b].text)];
      a.s := Splice(a.s, b, 1, []);
    } else {
      PassEquality(a.s, o, p, r, t, c, d, e, f);
      q := p + r + [z];
      b := b + 1;
    }
  }

  /** The first pass of `diff_cleanupMerge`. */
  method MergePass(a: DiffList)
    modifies a
    ensures SameTexts(a.s, old(a.s)) && Tidy(a.s)
    ensures a.s != [] ==> a.s[|a.s| - 1].op != Equal || a.s[|a.s| - 1].text != []
    ensures EditChars(a.s) < EditChars(old(a.s)) || (EditChars(a.s) == EditChars(old(a.s)) && |a.s| <= |old(a.s)|)
    ensures a.s == MergedAll(old(a.s))
  {
    hide Lcp, Lcs, Text1, Text2, EditChars, RunOf, NoWorse, Tidy, OpenEnded, Beside, AtEqual;
    ghost var o := a.s;
    PassStarts(a.s);
    a.s := a.s + [Diff(Equal, [])];
    var b, c, d := 0, 0, 0;
    var e: Text, f: Text := [], [];
    ghost var p, r, t := [], [], a.s;
    while b < |a.s|
      invariant 0 <= b <= |a.s| && b == |p| + |r|
      invariant MidPass(a.s, o, p, r, t, c, d, e, f)
      invariant Passed(p, r, t) == Passed([], [], o + [Diff(Equal, [])])
      decreases |t|
    {
      assert a.s[b] == t[0];
      match a.s[b].op
      case Insert =>
        TakeEdit(a.s, o, p, r, t, c, d, e, f);
        d := d + 1;
        f := f + a.s[b].text;
        b := b + 1;
        r, t := r + [t[0]], t[1..];
      case Delete =>
        TakeEdit(a.s, o, p, r, t, c, d, e, f);
        c := c + 1;
        e := e + a.s[b].text;
        b := b + 1;
        r, t := r + [t[0]], t[1..];
      case Equal =>
        b, p := AtEquality(a, b, c, d, e, f, o, p, r, t);
        c, d, e, f := 0, 0, [], [];
        r, t := [], t[1..];
    }
    PassEnds(a.s, o, p, r, t, c, d, e, f);
    DropEmpty(a.s, o);
    if a.s[|a.s| - 1].text == [] {
      a.s := a.s[..|a.s| - 1];
    }
  }

  lemma {:induction false} PassGood(s: seq<Diff>, o: seq<Diff>, p: seq<Diff>, r: seq<Diff>, t: seq<Diff>, c: nat, d: nat, e: Text, f: Text)
    requires MidPass(s, o, p, r, t, c, d, e, f)
    ensures Tidy(Passed(p, r, t)) && NoWorse(Passed(p, r, t), o)
    decreases |t|
  {
    hide Lcp, Lcs, Text1, Text2, EditChars, MergedRun, RunOf, NoWorse, Tidy, OpenEnded, Beside, AtEqual;
    if t == [] {
      PassEnds(s, o, p, r, t, c, d, e, f);
      assert p + r + t == p + r;
    } else if t[0].op == Equal {
      EqualPassed(s, o, p, r, t, c, d, e, f);
      var q := AtEqual(p, r, t[0]);
      PassGood(q + t[1..], o, q, [], t[1..], 0, 0, [], []);
    } else {
      TakeEdit(s, o, p, r, t, c, d, e, f);
      if t[0].op == Delete {
        PassGood(s, o, p, r + [t[0]], t[1..], c + 1, d, e + t[0].text, f);
      } else {
        PassGood(s, o, p, r + [t[0]], t[1..], c, d + 1, e, f + t[0].text);
      }
    }
  }

  lemma EqualPassed(s: seq<Diff>, o: seq<Diff>, p: seq<Diff>, r: seq<Diff>, t: seq<Diff>, c: nat, d: nat, e: Text, f: Text)
    requires MidPass(s, o, p, r, t, c, d, e, f) && t != [] && t[0].op == Equal
    ensures var q := AtEqual(p, r, t[0]); MidPass(q + t[1..], o, q, [], t[1..], 0, 0, [], [])
  {
    hide Lcp, Lcs, Text1, Text2, EditChars, MergedRun, RunOf, NoWorse, Tidy, Beside, Holds;
    var z, t' := t[0], t[1..];
    assert t == [z] + t';
    BeforeEquality(p, r, t, c, d, e, f);
    if c + d > 1 {
      CloseRun(s, o, p, r, t, c, d, e, f);
      MergedRunIs(p, r, c, d, e, f, z);
    } else if r == [] && p != [] {
      LastOff(p, p[..|p| - 1], p[|p| - 1], z, t');
      JoinEqualities(o, p[..|p| - 1], p[|p| - 1], z, t');
    } else {
      PassEquality(s, o, p, r, t, c, d, e, f);
      assert s == p + r + [z] + t';
    }
  }

  /** The first pass keeps both texts, leaves a tidy list, and edits fewer units or has no more entries. */
  lemma {:induction false} MergedAllGood(o: seq<Diff>)
    ensures var u := MergedAll(o);
            && Tidy(u) && SameTexts(u, o)
            && (u != [] ==> u[|u| - 1].op != Equal || u[|u| - 1].text != [])
            && (EditChars(u) < EditChars(o) || (EditChars(u) == EditChars(o) && |u| <= |o|))
  {
    hide Passed, Text1, Text2, EditChars, NoWorse, Tidy;
    PassStarts(o);
    var s := o + [Diff(Equal, [])];
    PassGood(s, o, [], [], s, 0, 0, [], []);
    DropEmpty(Passed([], [], s), o);
  }

  // ----- the second pass

  /** The edit at `b` slid over the whole equality on its left or, if that is not possible, on its right, which joins the two. */
  function SlidAt(s: seq<Diff>, b: nat): (u: seq<Diff>)
    requires 0 < b < |s| - 1
    ensures |u| == if Slidable(s, b) then |s| - 1 else |s|
    ensures !Slidable(s, b) ==> u == s
  {
    var x, y, z := s[b - 1], s[b], s[b + 1];
    if !Enclosed(s, b) then s
    else if EndsWith(y.text, x.text) then
      Splice(s, b - 1, 3, [Diff(y.op, x.text + y.text[..|y.text| - |x.text|]), Diff(Equal, x.text + z.text)])
    else if StartsWith(y.text, z.text) then
      Splice(s, b - 1, 3, [Diff(Equal, x.text + z.text), Diff(y.op, y.text[|z.text|..] + z.text)])
    else s
  }

  /** The whole second pass from entry `b` on. */
  function SlidAll(s: seq<Diff>, b: nat): (u: seq<Diff>)
    requires b > 0
    ensures |u| <= |s|
    decreases |s| - b
  {
    if b >= |s| - 1 then s else SlidAll(SlidAt(s, b), b + 1)
  }

  lemma {:induction false} SlidAtTexts(s: seq<Diff>, b: nat)
    requires 0 < b < |s| - 1
    ensures SameTexts(SlidAt(s, b), s) && EditChars(SlidAt(s, b)) == EditChars(s)
  {
    hide SameTexts, EditChars, Splice, EndsWith, StartsWith;
    if Enclosed(s, b) {
      var x, y, z := s[b - 1], s[b], s[b + 1];
      LongerThanEnd(y.text, x.text);
      LongerThanEnd(y.text, z.text);
      if EndsWith(y.text, x.text) {
        SlideLeft(x, y, z);
        ThreeExchanged(s, b - 1, x, y, z, [Diff(y.op, x.text + y.text[..|y.text| - |x.text|]), Diff(Equal, x.text + z.text)]);
      } else if StartsWith(y.text, z.text) {
        SlideRight(x, y, z);
        ThreeExchanged(s, b - 1, x, y, z, [Diff(Equal, x.text + z.text), Diff(y.op, y.text[|z.text|..] + z.text)]);
      }
    }
    Unchanged(s);
  }

  lemma Unchanged(s: seq<Diff>)
    ensures SameTexts(s, s)
  {
  }

  lemma {:induction false} ThreeExchanged(s: seq<Diff>, i: nat, x: Diff, y: Diff, z: Diff, m: seq<Diff>)
    requires i + 3 <= |s| && x == s[i] && y == s[i + 1] && z == s[i + 2]
    requires SameTexts([x, y, z], m) && EditChars([x, y, z]) == EditChars(m)
    ensures SameTexts(Splice(s, i, 3, m), s) && EditChars(Splice(s, i, 3, m)) == EditChars(s)
  {
    hide Text1, Text2, EditChars;
    assert s[i..i + 3] == [x, y, z];
    ReplaceStretch(s, i, 3, m);
  }

  lemma LongerThanEnd(s: Text, t: Text)
    ensures EndsWith(s, t) || StartsWith(s, t) ==> |t| <= |s|
  {
  }

  /** The second pass keeps both texts and the edited units; if nothing got shorter nothing can slide. */
  lemma {:induction false} SlidAllGood(s: seq<Diff>, b: nat)
    requires b > 0
    ensures var u := SlidAll(s, b);
            && SameTexts(u, s) && EditChars(u) == EditChars(s)
            && (|u| == |s| ==> u == s && forall i :: b <= i < |s| ==> !Slidable(s, i))
    decreases |s| - b
  {
    hide Text1, Text2, EditChars, SlidAt;
    if b < |s| - 1 {
      SlidAtTexts(s, b);
      SlidAllGood(SlidAt(s, b), b + 1);
    }
  }

  /** Both passes, again and again until nothing slides any more. */
  function Normalized(s: seq<Diff>): seq<Diff>
    decreases EditChars(s), |s|
  {
    var m := MergedAll(s);
    var u := SlidAll(m, 1);
    MergedAllGood(s);
    SlidAllGood(m, 1);
    if |u| < |m| then Normalized(u) else u
  }

  /** The result stands for the same two texts, edits no more units than before, and is in normal form. */
  lemma {:induction false} NormalizedGood(s: seq<Diff>)
    ensures SameTexts(Normalized(s), s) && Canonical(Normalized(s)) && EditChars(Normalized(s)) <= EditChars(s)
    decreases EditChars(s), |s|
  {
    hide MergedAll, SlidAll, Text1, Text2, EditChars, Tidy, Slidable;
    var m := MergedAll(s);
    var u := SlidAll(m, 1);
    MergedAllGood(s);
    SlidAllGood(m, 1);
    if |u| < |m| {
      NormalizedGood(u);
    } else {
      NoneAtFront(m);
    }
  }

  lemma NoneAtFront(s: seq<Diff>)
    ensures !Slidable(s, 0)
  {
  }

  // ----- the normal form stays

  /** An equality behind a tidy list, with an open run in between, goes through as it is. */
  lemma {:induction false} TidyAtEqual(p: seq<Diff>, r: seq<Diff>, x: Diff)
    requires Tidy(p + r) && !Holds(r, Equal) && x.op == Equal && (r == [] ==> p == [])
    ensures AtEqual(p, r, x) == p + r + [x]
  {
    if |r| > 1 {
      TidyRunIsPair(p, r);
      PairStays(p, r, x);
    }
  }

  lemma TidyRunIsPair(p: seq<Diff>, r: seq<Diff>)
    requires Tidy(p + r) && !Holds(r, Equal) && |r| > 1
    ensures |r| == 2 && r[0].op == Delete && r[1].op == Insert && Lcp(r[1].text, r[0].text) == 0 && Lcs(r[1].text, r[0].text) == 0
  {
    hide Lcp, Lcs, Tidy;
    var s, k := p + r, |p|;
    assert s[k] == r[0] && s[k + 1] == r[1] && (|r| > 2 ==> s[k + 2] == r[2]);
    assert forall i :: 0 <= i < |r| ==> r[i].op != Equal;
    if |r| > 2 {
      NextBeside(s, k + 1);
    }
    NextBeside(s, k);
  }

  lemma NextBeside(s: seq<Diff>, i: nat)
    requires Tidy(s) && i < |s| - 1
    ensures Beside(s[i], s[i + 1])
  {
  }

  lemma PairStays(p: seq<Diff>, r: seq<Diff>, x: Diff)
    requires |r| == 2 && r[0].op == Delete && r[1].op == Insert && Lcp(r[1].text, r[0].text) == 0 && Lcs(r[1].text, r[0].text) == 0
    requires x.op == Equal
    ensures AtEqual(p, r, x) == p + r + [x]
  {
    hide *;
    var e, f := r[0].text, r[1].text;
    PairTexts(r);
    AtPair(p, r, x);
    PairMerged(p, e, f, x);
    assert p + [Diff(Delete, e)] + [Diff(Insert, f)] == p + ([Diff(Delete, e)] + [Diff(Insert, f)]);
  }

  lemma {:induction false} AtPair(p: seq<Diff>, r: seq<Diff>, x: Diff)
    requires |r| > 1 && Holds(r, Delete) && Holds(r, Insert)
    ensures AtEqual(p, r, x) == MergedRun(p, 1, 1, Text1(r), Text2(r), x)
  {
    hide Holds, MergedRun, Text1, Text2;
  }

  lemma {:induction false} PairMerged(p: seq<Diff>, e: Text, f: Text, x: Diff)
    requires Lcp(f, e) == 0 && Lcs(f, e) == 0 && x.op == Equal
    ensures MergedRun(p, 1, 1, e, f, x) == p + [Diff(Delete, e)] + [Diff(Insert, f)] + [x]
  {
    hide Lcp, Lcs, Front, Back, Core, WithPrefix;
    NoEndsShared(e, f);
    CoreOfAll(e, f, e);
    CoreOfAll(f, f, e);
    assert f[..0] == [] && f[|f|..] == [] && [] + x.text == x.text;
    NoPrefix(p);
    assert p + ([Diff(Delete, e)] + [Diff(Insert, f)]) == p + [Diff(Delete, e)] + [Diff(Insert, f)];
  }

  lemma {:induction false} PairTexts(r: seq<Diff>)
    requires |r| == 2 && r[0].op == Delete && r[1].op == Insert
    ensures Text1(r) == r[0].text && Text2(r) == r[1].text && Holds(r, Delete) && Holds(r, Insert)
    ensures r == [Diff(Delete, r[0].text)] + [Diff(Insert, r[1].text)]
  {
    hide Text1, Text2;
    assert r == [r[0], r[1]];
    Pair(r[0], r[1]);
    Single(r[0]);
    Single(r[1]);
    assert r[0].text + [] == r[0].text && [] + r[1].text == r[1].text;
  }

  lemma {:induction false} NoEndsShared(e: Text, f: Text)
    requires Lcp(f, e) == 0 && Lcs(f, e) == 0
    ensures Front(f, e) == 0 && Back(f, e) == 0
  {
    hide Lcp, Lcs;
    assert f[0..] == f && e[0..] == e;
  }

  ghost predicate ClosedEnd(s: seq<Diff>) {
    s != [] ==> s[|s| - 1].op != Equal || s[|s| - 1].text != []
  }

  /** A tidy list goes through the first pass, up to the empty equality `z`, as it is. */
  lemma {:induction false} TidyPassed(p: seq<Diff>, r: seq<Diff>, t: seq<Diff>, z: Diff)
    requires Tidy(p + r + t) && OpenEnded(p) && !Holds(r, Equal) && (r == [] && p != [] ==> t == [] || t[0].op != Equal)
    requires z == Diff(Equal, []) && ClosedEnd(p + r + t)
    ensures WithoutEmptyEnd(Passed(p, r, t + [z])) == p + r + t
    decreases |t|
  {
    hide AtEqual, Holds, Beside, Passed, WithoutEmptyEnd;
    PassesOne(p, r, t + [z]);
    if t == [] {
      assert p + r + t == p + r && t + [z] == [z] && [z][1..] == [];
      EmptyEnd(p, r, z);
    } else {
      TidyFront(p + r, t);
      assert (t + [z])[1..] == t[1..] + [z];
      assert p + r + t == p + (r + [t[0]]) + t[1..] == (p + r + [t[0]]) + [] + t[1..];
      if t[0].op == Equal {
        TidyAtEqual(p, r, t[0]);
        HoldsMore([], t[0]);
        EqualThenEdit(p + r, t);
        TidyPassed(p + r + [t[0]], [], t[1..], z);
      } else {
        HoldsMore(r, t[0]);
        TidyPassed(p, r + [t[0]], t[1..], z);
      }
    }
  }

  lemma {:induction false} PassesOne(p: seq<Diff>, r: seq<Diff>, t: seq<Diff>)
    requires t != []
    ensures Passed(p, r, t) == if t[0].op == Equal then Passed(AtEqual(p, r, t[0]), [], t[1..]) else Passed(p, r + [t[0]], t[1..])
    ensures Passed(AtEqual(p, r, t[0]), [], []) == AtEqual(p, r, t[0])
  {
    hide AtEqual;
  }

  lemma EmptyEnd(p: seq<Diff>, r: seq<Diff>, z: Diff)
    requires Tidy(p + r) && OpenEnded(p) && !Holds(r, Equal) && z == Diff(Equal, []) && ClosedEnd(p + r)
    ensures WithoutEmptyEnd(AtEqual(p, r, z)) == p + r
  {
    hide Holds, Tidy, MergedRun, Text1, Text2;
    if r == [] && p != [] {
      var x := p[|p| - 1];
      assert p + r == p && x.text + [] == x.text;
      assert p[..|p| - 1] + [Diff(Equal, x.text)] == p;
    } else {
      TidyAtEqual(p, r, z);
    }
  }

  lemma TidyFront(p: seq<Diff>, t: seq<Diff>)
    requires Tidy(p + t)
    ensures Tidy(p)
  {
    hide Beside;
    assert forall i :: 0 <= i < |p| ==> (p + t)[i] == p[i];
    assert forall i :: 0 <= i < |p| - 1 ==> Beside((p + t)[i], (p + t)[i + 1]);
  }

  lemma EqualThenEdit(p: seq<Diff>, t: seq<Diff>)
    requires Tidy(p + t) && t != [] && t[0].op == Equal
    ensures |t| > 1 ==> t[1].op != Equal
  {
    hide Lcp, Lcs;
    if |t| > 1 {
      assert (p + t)[|p|] == t[0] && (p + t)[|p| + 1] == t[1];
      assert Beside((p + t)[|p|], (p + t)[|p| + 1]);
    }
  }

  /** Three entries around a slid edit against the two that replace them. */
  lemma SlidTexts(x: Diff, y: Diff, z: Diff, u: Diff, v: Diff)
    requires x.op == z.op == Equal && x.text + y.text + z.text == u.text + v.text
    requires (u.op == y.op && v.op == Equal && v.text == x.text + z.text)
          || (u.op == Equal && v.op == y.op && u.text == x.text + z.text)
    ensures SameTexts([x, y, z], [u, v]) && EditChars([x, y, z]) == EditChars([u, v])
  {
    hide Text1, Text2, EditChars, Equalities;
    Triple(x, y, z);
    Pair(u, v);
    Single(x);
    Single(y);
    Single(z);
    Single(u);
    Single(v);
    NothingAdded(x.text, z.text);
  }

  lemma NothingAdded(x: Text, z: Text)
    ensures x + [] + z == x + z && [] + (x + z) == x + z && (x + z) + [] == x + z
  {
  }

  lemma SlideLeft(x: Diff, y: Diff, z: Diff)
    requires x.op == z.op == Equal && EndsWith(y.text, x.text)
    ensures var m := [Diff(y.op, x.text + y.text[..|y.text| - |x.text|]), Diff(Equal, x.text + z.text)];
            SameTexts([x, y, z], m) && EditChars([x, y, z]) == EditChars(m)
  {
    hide SameTexts, EditChars;
    var k := y.text[..|y.text| - |x.text|];
    assert y.text == k + x.text;
    assert x.text + (k + x.text) + z.text == (x.text + k) + (x.text + z.text);
    SlidTexts(x, y, z, Diff(y.op, x.text + k), Diff(Equal, x.text + z.text));
  }

  lemma SlideRight(x: Diff, y: Diff, z: Diff)
    requires x.op == z.op == Equal && StartsWith(y.text, z.text)
    ensures var m := [Diff(Equal, x.text + z.text), Diff(y.op, y.text[|z.text|..] + z.text)];
            SameTexts([x, y, z], m) && EditChars([x, y, z]) == EditChars(m)
  {
    hide SameTexts, EditChars;
    var k := y.text[|z.text|..];
    assert y.text == z.text + k;
    assert x.text + (z.text + k) + z.text == (x.text + z.text) + (k + z.text);
    SlidTexts(x, y, z, Diff(Equal, x.text + z.text), Diff(y.op, k + z.text));
  }

  /** Overwriting two of three neighbours and removing the third. */
  lemma ExchangeThree(s: seq<Diff>, i: nat, m: seq<Diff>)
    requires i + 3 <= |s| && |m| == 2
    ensures Splice(s[i + 1 := m[0]][i + 2 := m[1]], i, 1, []) == Splice(s, i, 3, m)
    ensures Splice(s[i := m[0]][i + 1 := m[1]], i + 2, 1, []) == Splice(s, i, 3, m)
  {
  }

  lemma EndTest(s: Text, t: Text)
    ensures EndsWith(s, t) <==> Substring(s, |s| - |t|, |s|) == t
    ensures EndsWith(s, t) ==> |t| <= |s|
  {
  }

  lemma StartTest(s: Text, t: Text)
    ensures StartsWith(s, t) <==> Substring(s, 0, |t|) == t
    ensures StartsWith(s, t) ==> |t| <= |s|
  {
  }

  /** The second pass of `diff_cleanupMerge`. */
  method SlidePass(a: DiffList) returns (changes: bool)
    modifies a
    ensures a.s == SlidAll(old(a.s), 1)
    ensures SameTexts(a.s, old(a.s)) && EditChars(a.s) == EditChars(old(a.s))
    ensures changes ==> |a.s| < |old(a.s)|
    ensures !changes ==> a.s == old(a.s) && forall i :: 0 <= i < |a.s| ==> !Slidable(a.s, i)
  {
    hide Text1, Text2, EditChars, Substring, Splice, EndsWith, StartsWith;
    changes := false;
    var b := 1;
    while b < |a.s| - 1
      invariant 1 <= b && SlidAll(a.s, b) == SlidAll(old(a.s), 1)
      invariant if changes then |a.s| < |old(a.s)| else a.s == old(a.s)
      decreases |a.s| - b
    {
      ghost var s := a.s;
      if a.s[b - 1].op == Equal && a.s[b + 1].op == Equal {
        var x, y, z := a.s[b - 1], a.s[b], a.s[b + 1];
        EndTest(y.text, x.text);
        StartTest(y.text, z.text);
        if Substring(y.text, |y.text| - |x.text|, |y.text|) == x.text {
          var y', z' := Diff(y.op, x.text + y.text[..|y.text| - |x.text|]), Diff(Equal, x.text + z.text);
          ExchangeThree(s, b - 1, [y', z']);
          a.s := a.s[b := y'];
          a.s := a.s[b + 1 := z'];
          a.s := Splice(a.s, b - 1, 1, []);
          changes := true;
        } else if Substring(y.text, 0, |z.text|) == z.text {
          var x', y' := Diff(Equal, x.text + z.text), Diff(y.op, y.text[|z.text|..] + z.text);
          ExchangeThree(s, b - 1, [x', y']);
          a.s := a.s[b - 1 := x'];
          a.s := a.s[b := y'];
          a.s := Splice(a.s, b + 1, 1, []);
          changes := true;
        }
      }
      assert a.s == SlidAt(s, b);
      b := b + 1;
    }
    SlidAllGood(old(a.s), 1);
    NoneAtFront(a.s);
  }

  /** A list in normal form stays as it is. */
  lemma {:induction false} NormalFormStays(s: seq<Diff>)
    requires Canonical(s)
    ensures Normalized(s) == s
  {
    hide Tidy, Slidable, EditChars;
    TidyMerged(s);
    NothingSlides(s, 1);
  }

  lemma {:induction false} NothingSlides(s: seq<Diff>, b: nat)
    requires b > 0 && forall i :: 0 <= i < |s| ==> !Slidable(s, i)
    ensures SlidAll(s, b) == s
    decreases |s| - b
  {
    hide SlidAt, Slidable;
    if b < |s| - 1 {
      NothingSlides(s, b + 1);
    }
  }

  /** A tidy list that does not end in an empty equality goes through the first pass as it is. */
  lemma {:induction false} TidyMerged(s: seq<Diff>)
    requires Tidy(s) && ClosedEnd(s)
    ensures MergedAll(s) == s
  {
    hide Passed, Tidy;
    HoldsMore([], Diff(Equal, []));
    assert [] + [] + s == s;
    TidyPassed([], [], s, Diff(Equal, []));
  }

  /** `diff_cleanupMerge`. The result is what the two passes come to; it stands for the same two texts, is in normal form and
      edits no more units than before. Each repetition edits fewer units or is shorter, so the passes come to an end. */
  method CleanupMerge(a: DiffList)
    modifies a
    ensures a.s == Normalized(old(a.s))
    ensures SameTexts(a.s, old(a.s))
    ensures Canonical(a.s)
    ensures EditChars(a.s) <= EditChars(old(a.s))
    decreases EditChars(a.s), |a.s|
  {
    hide Text1, Text2, EditChars, MergedAll, SlidAll, Tidy;
    ghost var o := a.s;
    MergePass(a);
    var changes := SlidePass(a);
    SlidAllGood(MergedAll(o), 1);
    if changes {
      CleanupMerge(a);
    }
  }
}
