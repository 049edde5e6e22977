/** `patch_addContext_` and `patch_make`. */
module PatchMake {
  import opened Texts
  import opened Distance
  import opened Diffs
  import opened Merge
  import opened Lossless
  import opened Semantic
  import Efficiency
  import opened DiffMain
  import opened DiffApi
  import opened Patches

  /** The text occurs more than once. */
  predicate Ambiguous(t: Text, p: Text) {
    IndexOf(t, p, 0) != LastIndexOf(t, p)
  }

  lemma WholeOnce(t: Text)
    ensures !Ambiguous(t, t)
  {
    assert OccursAt(t, t, 0);
  }

  /** The old text of a patch, widened by `d` on both sides as far as the text goes. */
  function Widened(t: Text, start: int, length: nat, d: nat): Text {
    Substring(t, start - d, start + length + d)
  }

  /** The context search is over at `d`. */
  predicate Settles(t: Text, start: int, length: nat, d: nat) {
    var p := Widened(t, start, length, d);
    !Ambiguous(t, p) || |p| >= MaxBits - Margin - Margin
  }

  lemma WideEnough(t: Text, start: int, length: nat, d: nat)
    requires start <= d && |t| <= start + length + d
    ensures Settles(t, start, length, d)
  {
    assert Widened(t, start, length, d) == t;
    WholeOnce(t);
  }

  /** The search for a context: the smallest multiple of the margin that settles it. */
  method ContextSize(t: Text, start: int, length: nat) returns (d: nat)
    ensures FirstSettled(t, start, length, d)
  {
    hide Ambiguous, OccursAt, Substring;
    var c := Substring(t, start, start + length);
    d := 0;
    while Ambiguous(t, c) && |c| < MaxBits - Margin - Margin
      invariant d % Margin == 0 && c == Widened(t, start, length, d)
      invariant forall k: nat :: k < d && k % Margin == 0 ==> !Settles(t, start, length, k)
      decreases Max(0, start - d) + Max(0, |t| - start - length - d)
    {
      if start <= d && |t| <= start + length + d {
        WideEnough(t, start, length, d);
      }
      assert !Settles(t, start, length, d);
      d := d + Margin;
      c := Substring(t, start - d, start + length + d);
    }
  }

  /** `patch_addContext_`: takes in the settled context and one more margin. */
  method AddContext(a: PatchObj, t: Text) returns (ghost d: nat)
    modifies a
    ensures t == [] ==> a.Value() == old(a.Value())
    ensures t != [] ==>
              && FirstSettled(t, old(a.start2), old(a.length1), d)
              && a.Value() == WithContext(t, old(a.Value()), d + Margin)
  {
    hide Settles, Substring;
    d := 0;
    if |t| == 0 {
      return;
    }
    var pad := ContextSize(t, a.start2, a.length1);
    d := pad;
    pad := pad + Margin;
    var x := Substring(t, a.start2 - pad, a.start2);
    if x != [] {
      a.diffs := [Diff(Equal, x)] + a.diffs;
    }
    assert a.diffs == EqualUnlessEmpty(x) + old(a.diffs);
    var y := Substring(t, a.start2 + a.length1, a.start2 + a.length1 + pad);
    if y != [] {
      a.diffs := a.diffs + [Diff(Equal, y)];
    }
    assert a.diffs == EqualUnlessEmpty(x) + old(a.diffs) + EqualUnlessEmpty(y);
    a.start1 := a.start1 - |x|;
    a.start2 := a.start2 - |x|;
    a.length1 := a.length1 + |x| + |y|;
    a.length2 := a.length2 + |x| + |y|;
  }

  /** The smallest multiple of the margin that settles the search. */
  ghost predicate FirstSettled(t: Text, start: int, length: nat, d: nat) {
    && d % Margin == 0 && Settles(t, start, length, d)
    && forall k: nat :: k < d && k % Margin == 0 ==> !Settles(t, start, length, k)
  }

  /** The patch with the text around it taken in, `d` units on either side where there are as many. */
  function WithContext(t: Text, h: Patch, d: nat): Patch {
    var x := Substring(t, h.start2 - d, h.start2);
    var y := Substring(t, h.start2 + h.length1, h.start2 + h.length1 + d);
    Patch(EqualUnlessEmpty(x) + h.diffs + EqualUnlessEmpty(y), h.start1 - |x|, h.start2 - |x|, h.length1 + |x| + |y|, h.length2 + |x| + |y|)
  }

  /** Context changes neither where a patch fits nor what it does. */
  lemma ContextFits(t: Text, h: Patch, d: nat)
    requires Fits(t, h) && d >= Margin
    ensures var h' := WithContext(t, h, d); Fits(t, h') && After(t, h') == After(t, h) && Rooted(t, h')
  {
    hide Text1, Text2, EditChars, Equalities, Fits, After, Substring, EqualUnlessEmpty, LeadLength, TrailLength;
    FittingPlace(t, h);
    var i, k := h.start2, h.start2 + h.length1;
    var x, y := Substring(t, i - d, i), Substring(t, k, k + d);
    PrefixPart(t, i, d);
    SuffixPart(t, k, d);
    ContextTexts(h, x, y);
    TakenIn(t, t[..i - |x|], x, h, y, t[k + |y|..], WithContext(t, h, d));
    ContextEnds(h.diffs, x, y);
  }

  lemma TakenIn(t: Text, p: Text, x: Text, h: Patch, y: Text, q: Text, h': Patch)
    requires Measured(h) && Measured(h') && h'.start2 == |p| && h.start2 == |p| + |x|
    requires Text1(h'.diffs) == x + Text1(h.diffs) + y && Text2(h'.diffs) == x + Text2(h.diffs) + y
    requires t == p + x + Text1(h.diffs) + (y + q)
    ensures Fits(t, h) && Fits(t, h') && After(t, h') == After(t, h)
  {
    hide Text1, Text2, EditChars, Equalities, Fits, After;
    var o, n := Text1(h.diffs), Text2(h.diffs);
    assert t == p + (x + o + y) + q;
    FitsBetween(p, h', q);
    FitsBetween(p + x, h, y + q);
    assert p + (x + n + y) + q == p + x + n + (y + q);
  }

  lemma FittingPlace(t: Text, h: Patch)
    requires Fits(t, h)
    ensures Measured(h) && 0 <= h.start2 && h.start2 + h.length1 <= |t|
    ensures t == t[..h.start2] + Text1(h.diffs) + t[h.start2 + h.length1..]
  {
  }

  lemma PrefixPart(t: Text, i: nat, d: nat)
    requires i <= |t| && d >= Margin
    ensures var x := Substring(t, i - d, i); |x| <= i && (|x| >= Margin || |x| == i) && t[..i] == t[..i - |x|] + x
  {
  }

  lemma SuffixPart(t: Text, k: nat, d: nat)
    requires k <= |t| && d >= Margin
    ensures var y := Substring(t, k, k + d); k + |y| <= |t| && (|y| >= Margin || k + |y| == |t|) && t[k..] == y + t[k + |y|..]
  {
  }

  lemma ContextTexts(h: Patch, x: Text, y: Text)
    requires Measured(h)
    ensures var h' := Patch(EqualUnlessEmpty(x) + h.diffs + EqualUnlessEmpty(y), h.start1 - |x|, h.start2 - |x|, h.length1 + |x| + |y|, h.length2 + |x| + |y|);
            Text1(h'.diffs) == x + Text1(h.diffs) + y && Text2(h'.diffs) == x + Text2(h.diffs) + y && Measured(h')
  {
    hide Text1, Text2, EditChars, Equalities, EqualUnlessEmpty;
    EqualUnlessEmptyTexts(x);
    EqualUnlessEmptyTexts(y);
    Concat3(EqualUnlessEmpty(x), h.diffs, EqualUnlessEmpty(y));
  }

  lemma ContextEnds(s: seq<Diff>, x: Text, y: Text)
    ensures var u := EqualUnlessEmpty(x) + s + EqualUnlessEmpty(y);
            (x != [] ==> LeadLength(u) == |x|) && (y != [] ==> TrailLength(u) == |y|)
  {
  }

  // ----- making patches

  /** The text while a diff is carried out: the new text of the first `j` entries, the old one of the rest. */
  ghost function Rolled(b: seq<Diff>, j: nat): Text
    requires j <= |b|
  {
    Text2(b[..j]) + Text1(b[j..])
  }

  ghost predicate Started(a: Patch, b: seq<Diff>, m: nat, n: nat)
    requires m <= n <= |b|
  {
    a.diffs == b[m..n] && a.start1 == a.start2 == |Text2(b[..m])| && Measured(a)
  }

  /** Between two entries: the patches so far lead from the text to `h`, which is the text rolled to `m`;
      the open patch holds the entries from there on, all but a short last equality. */
  ghost predicate Making(text: Text, b: seq<Diff>, j: nat, ps: seq<Patch>, a: Patch, e: nat, f: int, g: int, h: Text, d: Text, m: nat, n: nat) {
    && m <= n <= j <= |b| && e == |a.diffs| == n - m
    && Chain(text, ps, h) && RootedEnds(ps, h)
    && h == Rolled(b, m) && d == Rolled(b, n) == Rolled(b, j) && g == |Text2(b[..j])|
    && (e == 0 ==> a.length1 == a.length2 == 0 && f == g && h == d)
    && (e > 0 ==> Started(a, b, m, n) && b[m].op != Equal)
    && (e > 0 && j < |b| ==> n == j)
  }

  lemma {:induction false} RolledEnds(b: seq<Diff>)
    ensures Rolled(b, 0) == Text1(b) && Rolled(b, |b|) == Text2(b)
  {
    assert b[..0] == [] && b[0..] == b && b[..|b|] == b && b[|b|..] == [];
    assert Text2([]) + Text1(b) == Text1(b) && Text2(b) + Text1([]) == Text2(b);
  }

  /** Carrying out one entry. */
  lemma RolledNext(b: seq<Diff>, j: nat)
    requires j < |b|
    ensures var d, k, g := Rolled(b, j), b[j].text, |Text2(b[..j])|;
            && Text2(b[..j + 1]) == Text2(b[..j]) + (if b[j].op == Delete then [] else k)
            && (b[j].op == Insert ==> Rolled(b, j + 1) == Substring(d, 0, g) + k + Substring(d, g, |d|))
            && (b[j].op == Delete ==> Rolled(b, j + 1) == Substring(d, 0, g) + Substring(d, g + |k|, |d|))
            && (b[j].op == Equal ==> Rolled(b, j + 1) == d)
  {
    hide Text1, Text2, EditChars, Equalities, Substring, Rolled;
    RolledCut(b, j);
    RolledTexts(Text2(b[..j]), b[j].text, Text1(b[j + 1..]));
  }

  lemma RolledCut(b: seq<Diff>, j: nat)
    requires j < |b|
    ensures var p, k, q := Text2(b[..j]), b[j].text, Text1(b[j + 1..]);
            && Text2(b[..j + 1]) == p + (if b[j].op == Delete then [] else k)
            && Rolled(b, j) == p + ((if b[j].op == Insert then [] else k) + q)
            && Rolled(b, j + 1) == p + (if b[j].op == Delete then [] else k) + q
  {
    hide Text1, Text2, EditChars, Equalities;
    var x := b[j];
    assert b[..j + 1] == b[..j] + [x] && b[j..] == [x] + b[j + 1..];
    Concat(b[..j], [x]);
    Concat([x], b[j + 1..]);
    Single(x);
  }

  lemma RolledTexts(p: Text, k: Text, q: Text)
    ensures [] + q == q && p + [] == p && p + (k + q) == p + k + q
    ensures Substring(p + q, 0, |p|) == p && Substring(p + q, |p|, |p + q|) == q
    ensures Substring(p + (k + q), 0, |p|) == p && Substring(p + (k + q), |p| + |k|, |p + (k + q)|) == q
  {
  }

  lemma EntryTaken(a: Patch, b: seq<Diff>, m: nat, n: nat, a': Patch)
    requires m <= n < |b| && Started(a, b, m, n)
    requires a'.diffs == a.diffs + [b[n]] && a'.start1 == a.start1 && a'.start2 == a.start2
    requires a'.length1 == a.length1 + (if b[n].op == Insert then 0 else |b[n].text|)
    requires a'.length2 == a.length2 + (if b[n].op == Delete then 0 else |b[n].text|)
    ensures Started(a', b, m, n + 1)
  {
    hide Text1, Text2, EditChars, Equalities;
    assert b[m..n + 1] == b[m..n] + [b[n]];
    Concat(b[m..n], [b[n]]);
    Single(b[n]);
  }

  lemma NothingTaken(a: Patch, b: seq<Diff>, m: nat)
    requires m <= |b| && a.diffs == [] && a.length1 == a.length2 == 0 && a.start1 == a.start2 == |Text2(b[..m])|
    ensures Started(a, b, m, m)
  {
    assert b[m..m] == [];
  }

  /** The open patch fits the text rolled to its start, and rolls it on to its end. */
  lemma StartedFits(a: Patch, b: seq<Diff>, m: nat, n: nat)
    requires m <= n <= |b| && Started(a, b, m, n)
    ensures Fits(Rolled(b, m), a) && After(Rolled(b, m), a) == Rolled(b, n)
  {
    hide Text1, Text2, EditChars, Equalities, Fits, After;
    var p, x, q := b[..m], b[m..n], b[n..];
    assert b[m..] == x + q && b[..n] == p + x;
    Concat(x, q);
    Concat(p, x);
    assert Text2(p) + (Text1(x) + Text1(q)) == Text2(p) + Text1(x) + Text1(q);
    FitsBetween(Text2(p), a, Text1(q));
  }

  /** Closing the open patch with context `d`. */
  lemma {:induction false} PatchClosed(text: Text, b: seq<Diff>, ps: seq<Patch>, a: Patch, h: Text, m: nat, n: nat, d: nat, a': Patch)
    requires m <= n <= |b| && Chain(text, ps, h) && RootedEnds(ps, h) && h == Rolled(b, m) && Started(a, b, m, n) && d >= Margin
    requires if h == [] then a' == a else a' == WithContext(h, a, d)
    ensures Chain(text, ps + [a'], Rolled(b, n)) && RootedEnds(ps + [a'], Rolled(b, n))
  {
    hide Text1, Text2, EditChars, Equalities, Fits, After, Chain, WithContext, Started, Rolled;
    StartedFits(a, b, m, n);
    if h == [] {
      NothingAround(a);
    } else {
      ContextFits(h, a, d);
    }
    ChainOne(h, a', Rolled(b, n));
    ChainJoin(text, ps, h, [a'], Rolled(b, n));
    EndsRooted(ps, h, a', Rolled(b, n));
  }

  lemma NothingAround(a: Patch)
    requires Fits([], a)
    ensures Rooted([], a)
  {
  }

  lemma EndsRooted(ps: seq<Patch>, h: Text, a: Patch, u: Text)
    requires RootedEnds(ps, h) && Fits(h, a) && Rooted(h, a) && u == After(h, a)
    ensures RootedEnds(ps + [a], u)
  {
    hide Text1, Text2, LeadLength, TrailLength;
    assert (ps + [a])[|ps|] == a;
    if ps != [] {
      assert (ps + [a])[0] == ps[0];
    }
  }

  lemma {:induction false} MakingStarts(text: Text, b: seq<Diff>, a: Patch)
    requires Text1(b) == text && a.diffs == [] && a.length1 == a.length2 == 0
    ensures Making(text, b, 0, [], a, 0, 0, 0, text, text, 0, 0)
  {
    hide Text1, EditChars, Equalities;
    RolledEnds(b);
    assert b[..0] == [];
  }

  /** An equality outside any patch, or a short one at the very end, is passed over. */
  lemma EqualPassed(text: Text, b: seq<Diff>, j: nat, ps: seq<Patch>, a: Patch, e: nat, f: int, g: int, h: Text, d: Text, m: nat, n: nat)
    requires Making(text, b, j, ps, a, e, f, g, h, d, m, n) && j < |b| && b[j].op == Equal && (e == 0 || j + 1 == |b|)
    ensures var l := |b[j].text|;
            Making(text, b, j + 1, ps, a, e, f + l, g + l, h, d, if e == 0 then j + 1 else m, if e == 0 then j + 1 else n)
  {
    hide Text1, Text2, EditChars, Equalities, Chain, RootedEnds, Started, Rolled;
    RolledNext(b, j);
  }

  /** An entry goes into the open patch, or opens one. */
  lemma EntryMade(text: Text, b: seq<Diff>, j: nat, ps: seq<Patch>, a: Patch, e: nat, f: int, g: int, h: Text, d: Text, m: nat, n: nat, a': Patch, d': Text)
    requires Making(text, b, j, ps, a, e, f, g, h, d, m, n) && j < |b| && (e == 0 ==> b[j].op != Equal)
    requires a'.diffs == a.diffs + [b[j]]
    requires if e == 0 then a'.start1 == f && a'.start2 == g else a'.start1 == a.start1 && a'.start2 == a.start2
    requires a'.length1 == a.length1 + (if b[j].op == Insert then 0 else |b[j].text|)
    requires a'.length2 == a.length2 + (if b[j].op == Delete then 0 else |b[j].text|)
    requires b[j].op == Insert ==> d' == Substring(d, 0, g) + b[j].text + Substring(d, g, |d|)
    requires b[j].op == Delete ==> d' == Substring(d, 0, g) + Substring(d, g + |b[j].text|, |d|)
    requires b[j].op == Equal ==> d' == d
    ensures Making(text, b, j + 1, ps, a', e + 1,
                   f + (if b[j].op == Insert then 0 else |b[j].text|), g + (if b[j].op == Delete then 0 else |b[j].text|),
                   h, d', if e == 0 then j else m, j + 1)
  {
    hide Text1, Text2, EditChars, Equalities, Chain, RootedEnds, Started, Rolled, Substring;
    RolledNext(b, j);
    if e == 0 {
      var a0 := a.(start1 := f, start2 := g);
      NothingTaken(a0, b, j);
      EntryTaken(a0, b, j, j, a');
    } else {
      EntryTaken(a, b, m, n, a');
    }
  }

  /** A long equality closes the open patch. */
  lemma PatchMade(text: Text, b: seq<Diff>, j: nat, ps: seq<Patch>, a: Patch, e: nat, f: int, g: int, h: Text, d: Text, m: nat, n: nat, c: nat, a': Patch, a'': Patch)
    requires Making(text, b, j, ps, a, e, f, g, h, d, m, n) && j < |b| && e > 0 && b[j].op == Equal && c >= Margin
    requires if h == [] then a' == a else a' == WithContext(h, a, c)
    requires a''.diffs == [] && a''.length1 == a''.length2 == 0
    ensures var l := |b[j].text|; Making(text, b, j + 1, ps + [a'], a'', 0, g + l, g + l, d, d, j + 1, j + 1)
  {
    hide Text1, Text2, EditChars, Equalities, Chain, RootedEnds, Started, Rolled, WithContext;
    RolledNext(b, j);
    PatchClosed(text, b, ps, a, h, m, n, c, a');
  }

  lemma {:induction false} AllMade(text: Text, b: seq<Diff>, ps: seq<Patch>, a: Patch, e: nat, f: int, g: int, h: Text, d: Text, m: nat, n: nat, c: nat, a': Patch)
    requires Making(text, b, |b|, ps, a, e, f, g, h, d, m, n) && c >= Margin
    requires if h == [] then a' == a else a' == WithContext(h, a, c)
    ensures var qs := if e == 0 then ps else ps + [a']; Chain(text, qs, Text2(b)) && RootedEnds(qs, Text2(b))
  {
    hide Text1, Text2, EditChars, Equalities, Chain, RootedEnds, Started, Rolled, WithContext;
    RolledEnds(b);
    if e > 0 {
      PatchClosed(text, b, ps, a, h, m, n, c, a');
    }
  }

  // ----- what each patch is

  /** The patch made from the entries `m` to `n`: they stand where the entries before have left their text, and bring along
      the context that settles them there. */
  ghost predicate PatchOf(b: seq<Diff>, m: nat, n: nat, p: Patch)
    requires m <= n <= |b|
  {
    var h, r, g := Rolled(b, m), b[m..n], |Text2(b[..m])|;
    var bare := Patch(r, g, g, |Text1(r)|, |Text2(r)|);
    if h == [] then p == bare else exists d: nat :: FirstSettled(h, g, |Text1(r)|, d) && p == WithContext(h, bare, d + Margin)
  }

  ghost predicate PatchesOf(b: seq<Diff>, ps: seq<Patch>, cuts: seq<(nat, nat)>) {
    |cuts| == |ps| && forall k :: 0 <= k < |cuts| ==> cuts[k].0 <= cuts[k].1 <= |b| && PatchOf(b, cuts[k].0, cuts[k].1, ps[k])
  }

  lemma OneMorePatch(b: seq<Diff>, ps: seq<Patch>, cuts: seq<(nat, nat)>, a: Patch, m: nat, n: nat, h: Text, d: nat, p: Patch)
    requires PatchesOf(b, ps, cuts) && m <= n <= |b| && Started(a, b, m, n) && h == Rolled(b, m)
    requires if h == [] then p == a else FirstSettled(h, a.start2, a.length1, d) && p == WithContext(h, a, d + Margin)
    ensures PatchesOf(b, ps + [p], cuts + [(m, n)])
  {
    hide Text1, Text2, WithContext, FirstSettled, Rolled;
    assert PatchOf(b, m, n, p);
    hide PatchOf;
    var c, qs := cuts + [(m, n)], ps + [p];
    forall k | 0 <= k < |c|
      ensures c[k].0 <= c[k].1 <= |b| && PatchOf(b, c[k].0, c[k].1, qs[k])
    {
      if k < |cuts| {
        assert c[k] == cuts[k] && qs[k] == ps[k];
      }
    }
  }

  /** The open patch, closed with its context. */
  lemma PatchJoins(text: Text, b: seq<Diff>, j: nat, ps: seq<Patch>, cuts: seq<(nat, nat)>, a: Patch, e: nat, f: int, g: int, h: Text, d: Text, m: nat, n: nat, c: nat, p: Patch)
    requires Making(text, b, j, ps, a, e, f, g, h, d, m, n) && e > 0 && PatchesOf(b, ps, cuts)
    requires if h == [] then p == a else FirstSettled(h, a.start2, a.length1, c) && p == WithContext(h, a, c + Margin)
    ensures PatchesOf(b, ps + [p], cuts + [(m, n)])
  {
    hide Text1, Text2, WithContext, FirstSettled, Rolled, Started, PatchesOf, Chain, RootedEnds;
    OneMorePatch(b, ps, cuts, a, m, n, h, c, p);
  }

  // ----- which entries go into which patch

  /** The entries from `m` to `n` make a patch: it begins with an edit, holds no equality longer than two margins,
      and ends before one, before a last equality of any length, or at the end. */
  ghost predicate Stretch(b: seq<Diff>, m: nat, n: nat) {
    && m < n <= |b| && b[m].op != Equal && ShortWithin(b, m, n)
    && (n < |b| ==> b[n].op == Equal && (|b[n].text| >= 2 * Margin || n == |b| - 1))
    && (n < |b| - 1 ==> |b[n].text| > 2 * Margin)
    && (n == |b| ==> b[n - 1].op != Equal)
  }

  ghost predicate ShortWithin(b: seq<Diff>, m: nat, n: nat)
    requires m <= n <= |b|
  {
    forall i :: m <= i < n && b[i].op == Equal ==> |b[i].text| <= 2 * Margin
  }

  /** The entries with an equality, or nothing, before and behind them. */
  ghost predicate Framed(s: seq<Diff>, r: seq<Diff>) {
    exists x, y :: s == EqualUnlessEmpty(x) + r + EqualUnlessEmpty(y)
  }

  /** Patch `k` is made from the entries that `cuts[k]` says. */
  ghost predicate CutAs(b: seq<Diff>, ps: seq<Patch>, cuts: seq<(nat, nat)>) {
    && |cuts| == |ps|
    && (forall k :: 0 <= k < |cuts| ==> Stretch(b, cuts[k].0, cuts[k].1) && Framed(ps[k].diffs, b[cuts[k].0..cuts[k].1]))
    && forall k, l :: 0 <= k < l < |cuts| ==> cuts[k].1 <= cuts[l].0
  }

  ghost predicate InSome(cuts: seq<(nat, nat)>, i: nat) {
    exists k :: 0 <= k < |cuts| && cuts[k].0 <= i < cuts[k].1
  }

  /** Every edit before `m` is in some patch. */
  ghost predicate NoneMissed(b: seq<Diff>, cuts: seq<(nat, nat)>, m: nat)
    requires m <= |b|
  {
    forall i :: 0 <= i < m && b[i].op != Equal ==> InSome(cuts, i)
  }

  /** Between two entries: the patches so far are cut before `m`, and the open one holds the entries from there. */
  ghost predicate Grouping(b: seq<Diff>, j: nat, ps: seq<Patch>, cuts: seq<(nat, nat)>, open: seq<Diff>, m: nat, n: nat) {
    && m <= n <= j <= |b| && open == b[m..n]
    && CutAs(b, ps, cuts) && (forall k :: 0 <= k < |cuts| ==> cuts[k].1 <= m) && NoneMissed(b, cuts, m)
    && (open == [] ==> m == j)
    && (open != [] ==> b[m].op != Equal && ShortWithin(b, m, n) && (n == |b| ==> b[n - 1].op != Equal))
    && (n < j ==> n + 1 == j == |b| && b[n].op == Equal)
  }

  lemma GroupPassed(b: seq<Diff>, j: nat, ps: seq<Patch>, cuts: seq<(nat, nat)>, open: seq<Diff>, m: nat, n: nat)
    requires Grouping(b, j, ps, cuts, open, m, n) && j < |b| && b[j].op == Equal && (open == [] || j + 1 == |b|)
    ensures Grouping(b, j + 1, ps, cuts, open, if open == [] then j + 1 else m, if open == [] then j + 1 else n)
  {
    hide CutAs, InSome;
    assert b[j + 1..j + 1] == [];
  }

  lemma GroupTaken(b: seq<Diff>, j: nat, ps: seq<Patch>, cuts: seq<(nat, nat)>, open: seq<Diff>, m: nat, n: nat)
    requires Grouping(b, j, ps, cuts, open, m, n) && j < |b|
    requires b[j].op == Equal ==> open != [] && |b[j].text| <= 2 * Margin && j + 1 != |b|
    ensures Grouping(b, j + 1, ps, cuts, open + [b[j]], if open == [] then j else m, j + 1)
  {
    hide CutAs, InSome;
    var m' := if open == [] then j else m;
    assert b[m'..j + 1] == b[m'..j] + [b[j]];
  }

  lemma GroupClosed(b: seq<Diff>, j: nat, ps: seq<Patch>, cuts: seq<(nat, nat)>, open: seq<Diff>, m: nat, n: nat, h: Patch)
    requires Grouping(b, j, ps, cuts, open, m, n) && open != [] && Framed(h.diffs, open)
    requires j < |b| ==> b[j].op == Equal && |b[j].text| >= 2 * Margin && (j + 1 < |b| ==> |b[j].text| > 2 * Margin)
    ensures CutAs(b, ps + [h], cuts + [(m, n)]) && NoneMissed(b, cuts + [(m, n)], j)
    ensures j < |b| ==> Grouping(b, j + 1, ps + [h], cuts + [(m, n)], [], j + 1, j + 1)
  {
    StretchClosed(b, j, ps, cuts, open, m, n);
    CutMore(b, ps, cuts, m, n, h);
    hide Framed, ShortWithin, CutAs, Stretch, InSome;
    NoneMissedMore(b, j, ps, cuts, open, m, n);
    if j < |b| {
      assert b[j + 1..j + 1] == [];
    }
  }

  lemma NoneMissedMore(b: seq<Diff>, j: nat, ps: seq<Patch>, cuts: seq<(nat, nat)>, open: seq<Diff>, m: nat, n: nat)
    requires Grouping(b, j, ps, cuts, open, m, n) && open != []
    ensures var c := cuts + [(m, n)];
            NoneMissed(b, c, j) && (j < |b| && b[j].op == Equal ==> NoneMissed(b, c, j + 1)) && forall k :: 0 <= k < |c| ==> c[k].1 <= j
  {
    hide Framed, ShortWithin, CutAs, Stretch, InSome;
    var c := cuts + [(m, n)];
    forall i | 0 <= i < j && b[i].op != Equal
      ensures InSome(c, i)
    {
      if i < m {
        assert InSome(cuts, i);
      }
      InSomeMore(cuts, m, n, i);
    }
  }

  lemma StretchClosed(b: seq<Diff>, j: nat, ps: seq<Patch>, cuts: seq<(nat, nat)>, open: seq<Diff>, m: nat, n: nat)
    requires Grouping(b, j, ps, cuts, open, m, n) && open != []
    requires j < |b| ==> b[j].op == Equal && |b[j].text| >= 2 * Margin && (j + 1 < |b| ==> |b[j].text| > 2 * Margin)
    ensures Stretch(b, m, n)
  {
    hide CutAs, NoneMissed, ShortWithin;
  }

  lemma CutMore(b: seq<Diff>, ps: seq<Patch>, cuts: seq<(nat, nat)>, m: nat, n: nat, h: Patch)
    requires CutAs(b, ps, cuts) && Stretch(b, m, n) && Framed(h.diffs, b[m..n])
    requires forall k :: 0 <= k < |cuts| ==> cuts[k].1 <= m
    ensures CutAs(b, ps + [h], cuts + [(m, n)])
  {
    hide Framed, ShortWithin;
    var c, qs := cuts + [(m, n)], ps + [h];
    forall k | 0 <= k < |c|
      ensures Stretch(b, c[k].0, c[k].1) && Framed(qs[k].diffs, b[c[k].0..c[k].1])
    {
      if k < |cuts| {
        assert c[k] == cuts[k] && qs[k] == ps[k];
      }
    }
  }

  lemma InSomeMore(cuts: seq<(nat, nat)>, m: nat, n: nat, i: nat)
    requires InSome(cuts, i) || m <= i < n
    ensures InSome(cuts + [(m, n)], i)
  {
    var c := cuts + [(m, n)];
    if m <= i < n {
      assert c[|cuts|] == (m, n);
    } else {
      var k :| 0 <= k < |cuts| && cuts[k].0 <= i < cuts[k].1;
      assert c[k] == cuts[k];
    }
  }

  lemma FramedByContext(t: Text, h: Patch, d: nat)
    ensures Framed(WithContext(t, h, d).diffs, h.diffs) && Framed(h.diffs, h.diffs)
  {
    hide Substring;
    assert EqualUnlessEmpty([]) == [] && h.diffs == EqualUnlessEmpty([]) + h.diffs + EqualUnlessEmpty([]);
  }

  /** `patch_make` from a text and a diff of it: the patches, carried out in order, turn the text into the new text of the diff. */
  method MakeFromDiff(text: Text, b: seq<Diff>) returns (c: PatchList, ghost cuts: seq<(nat, nat)>)
    ensures fresh(c)
    ensures Text1(b) == text ==> Chain(text, c.s, Text2(b)) && RootedEnds(c.s, Text2(b))
    ensures Text1(b) == text ==> PatchesOf(b, c.s, cuts)
    ensures CutAs(b, c.s, cuts) && NoneMissed(b, cuts, |b|)
  {
    hide Text1, Text2, Making, Substring, Chain, RootedEnds, FirstSettled, WithContext, Grouping, CutAs, NoneMissed, Framed, PatchesOf;
    c := new PatchList([]);
    cuts := [];
    NoPatches(b);
    if |b| == 0 {
      return;
    }
    var a := new PatchObj();
    var e: nat, f, g := 0, 0, 0;
    var h, d := text, text;
    ghost var m: nat, n: nat := 0, 0;
    var j := 0;
    if Text1(b) == text {
      MakingStarts(text, b, a.Value());
    }
    while j < |b|
      invariant 0 <= j <= |b| && fresh(c) && fresh(a) && e == |a.diffs|
      invariant Text1(b) == text ==> Making(text, b, j, c.s, a.Value(), e, f, g, h, d, m, n)
      invariant Grouping(b, j, c.s, cuts, a.diffs, m, n)
      invariant Text1(b) == text ==> PatchesOf(b, c.s, cuts)
    {
      var i, k := b[j].op, b[j].text;
      ghost var a0, e0, d0 := a.Value(), e, d;
      if i != Equal || (|k| <= 2 * Margin && e != 0 && |b| != j + 1) {
        d := TakeEntry(a, b[j], f, g, d);
        e := e + 1;
        if Text1(b) == text {
          EntryMade(text, b, j, c.s, a0, e0, f, g, h, d0, m, n, a.Value(), d);
        }
        GroupTaken(b, j, c.s, cuts, a0.diffs, m, n);
        m, n := if e0 == 0 then j else m, j + 1;
      } else if |k| >= 2 * Margin && e != 0 {
        a, e, h, f, cuts := ClosePatch(a, c, text, b, j, e, f, g, h, d, m, n, cuts);
        m, n := j + 1, j + 1;
      } else {
        if Text1(b) == text {
          EqualPassed(text, b, j, c.s, a0, e, f, g, h, d, m, n);
        }
        GroupPassed(b, j, c.s, cuts, a.diffs, m, n);
        m, n := if e == 0 then j + 1 else m, if e == 0 then j + 1 else n;
      }
      if i != Insert {
        f := f + |k|;
      }
      if i != Delete {
        g := g + |k|;
      }
      j := j + 1;
    }
    cuts := FinishPatches(a, c, text, b, e, f, g, h, d, m, n, cuts);
  }

  /** Takes an entry into the open patch, which begins at `f` and `g` if it is the first one, and rolls the text on. */
  method TakeEntry(a: PatchObj, x: Diff, f: int, g: int, d0: Text) returns (d: Text)
    modifies a
    ensures a.diffs == old(a.diffs) + [x]
    ensures if old(a.diffs) == [] then a.start1 == f && a.start2 == g else a.start1 == old(a.start1) && a.start2 == old(a.start2)
    ensures a.length1 == old(a.length1) + (if x.op == Insert then 0 else |x.text|)
    ensures a.length2 == old(a.length2) + (if x.op == Delete then 0 else |x.text|)
    ensures x.op == Insert ==> d == Substring(d0, 0, g) + x.text + Substring(d0, g, |d0|)
    ensures x.op == Delete ==> d == Substring(d0, 0, g) + Substring(d0, g + |x.text|, |d0|)
    ensures x.op == Equal ==> d == d0
  {
    hide Substring;
    d := d0;
    if |a.diffs| == 0 {
      a.start1, a.start2 := f, g;
    }
    match x.op {
      case Insert =>
        a.length2 := a.length2 + |x.text|;
        d := Substring(d, 0, g) + x.text + Substring(d, g, |d|);
      case Delete =>
        a.length1 := a.length1 + |x.text|;
        d := Substring(d, 0, g) + Substring(d, g + |x.text|, |d|);
      case Equal =>
        a.length1 := a.length1 + |x.text|;
        a.length2 := a.length2 + |x.text|;
    }
    a.diffs := a.diffs + [x];
  }

  /** The end of `patch_make`: the open patch, if any, goes into the list. */
  method FinishPatches(a: PatchObj, c: PatchList, ghost text: Text, ghost b: seq<Diff>, e: nat, ghost f: int, ghost g: int, h: Text, ghost d: Text, ghost m: nat, ghost n: nat, ghost cuts: seq<(nat, nat)>)
    returns (ghost cuts': seq<(nat, nat)>)
    requires e == |a.diffs| && Grouping(b, |b|, c.s, cuts, a.diffs, m, n)
    requires Text1(b) == text ==> Making(text, b, |b|, c.s, a.Value(), e, f, g, h, d, m, n) && PatchesOf(b, c.s, cuts)
    modifies a, c
    ensures Text1(b) == text ==> PatchesOf(b, c.s, cuts')
    ensures Text1(b) == text ==> Chain(text, c.s, Text2(b)) && RootedEnds(c.s, Text2(b))
    ensures CutAs(b, c.s, cuts') && NoneMissed(b, cuts', |b|)
  {
    hide Text1, Text2, Making, Chain, RootedEnds, FirstSettled, WithContext, CutAs, NoneMissed, Framed, PatchesOf;
    ghost var a0, c0, pad: nat := a.Value(), c.s, 0;
    cuts' := cuts;
    if e != 0 {
      pad := AddContext(a, h);
      FramedByContext(h, a0, pad + Margin);
      GroupClosed(b, |b|, c.s, cuts, a0.diffs, m, n, a.Value());
      if Text1(b) == text {
        PatchJoins(text, b, |b|, c.s, cuts, a0, e, f, g, h, d, m, n, pad, a.Value());
      }
      c.s := c.s + [a.Value()];
      cuts' := cuts + [(m, n)];
    }
    if Text1(b) == text {
      AllMade(text, b, c0, a0, e, f, g, h, d, m, n, pad + Margin, if e != 0 || h == [] then a.Value() else WithContext(h, a0, pad + Margin));
    }
  }

  lemma {:induction false} NoPatches(b: seq<Diff>)
    ensures b == [] ==> Chain(Text1(b), [], Text2(b)) && RootedEnds([], Text2(b))
    ensures PatchesOf(b, [], [])
    ensures Grouping(b, 0, [], [], [], 0, 0) && CutAs(b, [], []) && (b == [] ==> NoneMissed(b, [], 0))
  {
    assert b[0..0] == [];
  }

  /** The open patch gets its context and goes into the list; a new one is opened at the rolled text. */
  method ClosePatch(a: PatchObj, c: PatchList, ghost text: Text, ghost b: seq<Diff>, ghost j: nat, e: nat, ghost f: int, g: int, h: Text, d: Text, ghost m: nat, ghost n: nat, ghost cuts: seq<(nat, nat)>)
    returns (a': PatchObj, e': nat, h': Text, f': int, ghost cuts': seq<(nat, nat)>)
    requires j < |b| && b[j].op == Equal && |b[j].text| >= 2 * Margin && (j + 1 < |b| ==> |b[j].text| > 2 * Margin)
    requires e > 0 && e == |a.diffs| && Grouping(b, j, c.s, cuts, a.diffs, m, n)
    requires Text1(b) == text ==> Making(text, b, j, c.s, a.Value(), e, f, g, h, d, m, n) && PatchesOf(b, c.s, cuts)
    modifies a, c
    ensures Text1(b) == text ==> PatchesOf(b, c.s, cuts')
    ensures fresh(a') && a'.diffs == [] && e' == 0 && h' == d && f' == g
    ensures Grouping(b, j + 1, c.s, cuts', [], j + 1, j + 1)
    ensures var l := |b[j].text|;
            Text1(b) == text ==> Making(text, b, j + 1, c.s, a'.Value(), 0, g + l, g + l, d, d, j + 1, j + 1)
  {
    hide Text1, Text2, Making, WithContext, FirstSettled, Grouping, Framed, PatchesOf;
    ghost var a0 := a.Value();
    ghost var pad := AddContext(a, h);
    FramedByContext(h, a0, pad + Margin);
    GroupClosed(b, j, c.s, cuts, a0.diffs, m, n, a.Value());
    if Text1(b) == text {
      PatchJoins(text, b, j, c.s, cuts, a0, e, f, g, h, d, m, n, pad, a.Value());
    }
    cuts' := cuts + [(m, n)];
    c.s := c.s + [a.Value()];
    a' := new PatchObj();
    if Text1(b) == text {
      PatchMade(text, b, j, old(c.s), a0, e, f, g, h, d, m, n, pad + Margin, a.Value(), a'.Value());
    }
    e', h', f' := 0, d, g;
  }

  const EditCost := 4

  /** How the diff of two texts comes to be the one that patches are made from: `diff_cleanupSemantic` (from `diff` to
      `readable`) and `diff_cleanupEfficiency` (to `cheap`), unless it has at most two entries. */
  datatype Cleaning = Cleaning(
    diff: seq<Diff>, chain: seq<seq<Diff>>, thinned: seq<Diff>, merged: seq<Diff>, readable: seq<Diff>,
    savings: seq<seq<Diff>>, saved: seq<Diff>, cheap: seq<Diff>)

  ghost predicate CleanedFor(w: Cleaning) {
    if 2 < |w.diff| then
      && CleanedUp(w.diff, w.chain, w.thinned, w.merged, w.readable)
      && Efficiency.CheaperFrom(EditCost, w.readable, w.savings, w.saved, w.cheap)
    else
      w.cheap == w.diff
  }

  /** `patch_make` from two texts: the patches hold the edits of their diff, cleaned up. The clean-ups of a diff in normal
      form never hang, so nothing but the diff itself can. */
  method MakeFromTexts(a: Text, b: Text, timeout: real) returns (c: PatchList, hangs: bool, ghost w: Cleaning, ghost cuts: seq<(nat, nat)>)
    ensures fresh(c)
    ensures Safe(timeout, a, b) ==> !hangs && Chain(a, c.s, b) && RootedEnds(c.s, b)
    ensures !hangs && Right(a, b, w.diff) <==> Safe(timeout, a, b)
    ensures !hangs ==> DiffMakes(true, timeout, a, b, w.diff) && CleanedFor(w) && CutAs(w.cheap, c.s, cuts) && NoneMissed(w.cheap, cuts, |w.cheap|)
    ensures !hangs && Right(a, b, w.diff) ==> PatchesOf(w.cheap, c.s, cuts)
    ensures !hangs && Right(a, b, w.diff) ==> Right(a, b, w.cheap) && Dist(a, b) <= EditChars(w.diff) <= Most(timeout, a, b)
  {
    hide Text1, Text2, EditChars, Dist, Canonical, Safe, Most, Contained, Chain, RootedEnds, Minimal, Ready, GetsStuck, CleanedUp, Efficiency.CheaperFrom, CutAs, NoneMissed, PatchesOf, DiffMakes;
    c := new PatchList([]);
    var d;
    d, hangs := DiffTexts(a, b, true, timeout);
    w, cuts := Cleaning(d.s, [], [], [], d.s, [], [], d.s), [];
    if hangs {
      return;
    }
    if 2 < |d.s| {
      CanonicalIsReady(d.s);
      ghost var chain, m, n;
      hangs, chain, m, n := CleanupSemantic(d);
      w := w.(chain := chain, thinned := m, merged := n, readable := d.s);
      chain, m := Efficiency.CleanupEfficiency(d, EditCost);
      w := w.(savings := chain, saved := m, cheap := d.s);
    }
    c, cuts := MakeFromDiff(a, d.s);
  }
}
