/** `diff_cleanupSemanticLossless`: slides each edit between two equalities to the place
    where its boundaries look best. */
module Lossless {
  import opened Texts
  import opened Common
  import opened Diffs

  // ----- the look of a boundary

  predicate AlphaNumeric(c: Unit) {
    Letter(c) || Digit(c)
  }

  const LF: Unit := 10
  const CR: Unit := 13

  predicate BlankLineEnd(s: Text) {
    var n := |s|;
    n >= 2 && s[n - 1] == LF && (s[n - 2] == LF || (n >= 3 && s[n - 2] == CR && s[n - 3] == LF))
  }

  predicate BlankLineStart(s: Text) {
    [LF, LF] <= s || [LF, CR, LF] <= s || [CR, LF, LF] <= s || [CR, LF, CR, LF] <= s
  }

  /** How good a boundary between two texts looks, from 0 to 6. */
  function Score(one: Text, two: Text): nat {
    if one == [] || two == [] then 6
    else
      var c, d := one[|one| - 1], two[0];
      var nonWord1, nonWord2 := !AlphaNumeric(c), !AlphaNumeric(d);
      var space1, space2 := nonWord1 && WhiteSpace(c), nonWord2 && WhiteSpace(d);
      var break1, break2 := space1 && (c == CR || c == LF), space2 && (d == CR || d == LF);
      var blank1, blank2 := break1 && BlankLineEnd(one), break2 && BlankLineStart(two);
      if blank1 || blank2 then 5
      else if break1 || break2 then 4
      else if nonWord1 && !space1 && space2 then 3
      else if space1 || space2 then 2
      else if nonWord1 || nonWord2 then 1
      else 0
  }

  /** What the scores stand for, from the best to the worst: the edge of the text, a blank line, a line break, the end of
      a sentence, white space, a mark of any kind, nothing but letters and digits. */
  lemma ScoreMeans(one: Text, two: Text)
    ensures Score(one, two) == 6 <==> one == [] || two == []
    ensures one != [] && two != [] ==>
              var n, c, d := |one|, one[|one| - 1], two[0];
              var mark1, mark2 := !AlphaNumeric(c) && !WhiteSpace(c), !AlphaNumeric(d) && !WhiteSpace(d);
              var blank := (n >= 2 && one[n - 2..] == [LF, LF]) || (n >= 3 && one[n - 3..] == [LF, CR, LF])
                           || [LF, LF] <= two || [LF, CR, LF] <= two || [CR, LF, LF] <= two || [CR, LF, CR, LF] <= two;
              var lineBreak := c in [CR, LF] || d in [CR, LF];
              && (Score(one, two) == 5 <==> blank)
              && (Score(one, two) == 4 <==> !blank && lineBreak)
              && (Score(one, two) == 3 <==> !blank && !lineBreak && mark1 && WhiteSpace(d))
              && (Score(one, two) == 2 <==> !blank && !lineBreak && !mark1 && (WhiteSpace(c) || WhiteSpace(d)))
              && (Score(one, two) == 1 <==> !WhiteSpace(c) && !WhiteSpace(d) && (mark1 || mark2))
              && (Score(one, two) == 0 <==> AlphaNumeric(c) && AlphaNumeric(d))
  {
    hide BlankLineEnd, BlankLineStart, WhiteSpace, AlphaNumeric;
    BlankLines(one, two);
    if one != [] && two != [] {
      Classes(one[|one| - 1]);
      Classes(two[0]);
    }
  }

  /** No unit is both a letter or digit and white space; line breaks are white space. */
  lemma Classes(c: Unit)
    ensures !(AlphaNumeric(c) && WhiteSpace(c)) && (c in [CR, LF] ==> WhiteSpace(c))
  {
  }

  lemma BlankLines(one: Text, two: Text)
    ensures var n := |one|; BlankLineEnd(one) <==> (n >= 2 && one[n - 2..] == [LF, LF]) || (n >= 3 && one[n - 3..] == [LF, CR, LF])
    ensures BlankLineEnd(one) ==> one != [] && one[|one| - 1] in [CR, LF]
    ensures BlankLineStart(two) <==> [LF, LF] <= two || [LF, CR, LF] <= two || [CR, LF, LF] <= two || [CR, LF, CR, LF] <= two
    ensures BlankLineStart(two) ==> two != [] && two[0] in [CR, LF]
  {
    hide BlankLineStart;
    BlankStarts(two);
    if |one| >= 3 {
      LastThree(one);
    } else if |one| == 2 {
      assert one == [one[0], one[1]];
    }
  }

  lemma LastThree(t: Text)
    requires |t| >= 3
    ensures var n := |t|; t[n - 2..] == [t[n - 2], t[n - 1]] && t[n - 3..] == [t[n - 3], t[n - 2], t[n - 1]]
  {
  }

  lemma BlankStarts(two: Text)
    ensures BlankLineStart(two) <==> [LF, LF] <= two || [LF, CR, LF] <= two || [CR, LF, LF] <= two || [CR, LF, CR, LF] <= two
    ensures BlankLineStart(two) ==> two != [] && two[0] in [CR, LF]
  {
  }

  // ----- the places an edit can slide to

  /** In the text `t`, the edit of length `n` at `p` can slide one place to the right. */
  predicate CanSlide(t: Text, n: nat, p: nat) {
    n > 0 && p + n < |t| && t[p] == t[p + n]
  }

  /** The last place the edit gets to from `p`. */
  function Rightmost(t: Text, n: nat, p: nat): (r: nat)
    requires p + n <= |t|
    ensures p <= r && r + n <= |t|
    decreases |t| - p
  {
    if CanSlide(t, n, p) then Rightmost(t, n, p + 1) else p
  }

  /** The look of the edit's two boundaries at `p`. */
  function Look(t: Text, n: nat, p: nat): nat
    requires p + n <= |t|
  {
    Score(t[..p], t[p..p + n]) + Score(t[p..p + n], t[p + n..])
  }

  /** The last of the best-looking places from `p` on, when `best` is the best so far. */
  function Scan(t: Text, n: nat, p: nat, best: nat): (r: nat)
    requires best <= p && p + n <= |t|
    ensures r + n <= |t|
    decreases |t| - p
  {
    if CanSlide(t, n, p) then
      Scan(t, n, p + 1, if Look(t, n, p + 1) >= Look(t, n, best) then p + 1 else best)
    else best
  }

  function BestPlace(t: Text, n: nat, p: nat): (r: nat)
    requires p + n <= |t|
    ensures r + n <= |t|
  {
    Scan(t, n, p, p)
  }

  lemma {:induction false} ScanIsBest(t: Text, n: nat, lo: nat, p: nat, best: nat)
    requires lo <= best <= p && p + n <= |t| && Rightmost(t, n, lo) == Rightmost(t, n, p)
    requires forall q {:trigger Look(t, n, q)} :: lo <= q <= p ==> Look(t, n, q) <= Look(t, n, best)
    requires forall q {:trigger Look(t, n, q)} :: best < q <= p ==> Look(t, n, q) < Look(t, n, best)
    ensures var r, hi := Scan(t, n, p, best), Rightmost(t, n, lo);
            && lo <= r <= hi
            && (forall q {:trigger Look(t, n, q)} :: lo <= q <= hi ==> Look(t, n, q) <= Look(t, n, r))
            && forall q {:trigger Look(t, n, q)} :: r < q <= hi ==> Look(t, n, q) < Look(t, n, r)
    decreases |t| - p
  {
    hide Look;
    if CanSlide(t, n, p) {
      ScanIsBest(t, n, lo, p + 1, if Look(t, n, p + 1) >= Look(t, n, best) then p + 1 else best);
    }
  }

  /** The chosen place looks at least as good as every other place within reach, and better than
      every later one. */
  lemma {:induction false} BestPlaceIsBest(t: Text, n: nat, lo: nat)
    requires lo + n <= |t|
    ensures var r, hi := BestPlace(t, n, lo), Rightmost(t, n, lo);
            && lo <= r <= hi
            && (forall q {:trigger Look(t, n, q)} :: lo <= q <= hi ==> Look(t, n, q) <= Look(t, n, r))
            && forall q {:trigger Look(t, n, q)} :: r < q <= hi ==> Look(t, n, q) < Look(t, n, r)
  {
    ScanIsBest(t, n, lo, lo, lo);
  }

  /** Cutting the edit out leaves the same text wherever it has slid. */
  lemma {:induction false} SlidingKeepsRest(t: Text, n: nat, lo: nat, p: nat)
    requires lo + n <= |t| && lo <= p <= Rightmost(t, n, lo)
    ensures t[..lo] + t[lo + n..] == t[..p] + t[p + n..]
    decreases p - lo
  {
    if lo < p {
      assert t[..lo + 1] == t[..lo] + [t[lo]] && t[lo + n..] == [t[lo + n]] + t[lo + 1 + n..];
      SlidingKeepsRest(t, n, lo + 1, p);
    }
  }

  /** The leftmost place considered for an edit `e` between `d` and `f`. */
  function Leftmost(d: Text, e: Text): nat {
    |d| - Lcs(d, e)
  }

  /** An edit `y + x` behind an equality `p + x`, shifted left over what they share. */
  lemma {:induction false} LeftShift(p: Text, x: Text, y: Text, f: Text)
    requires Lcs(p + x, y + x) == |x|
    ensures var d, e := p + x, y + x;
            var t, n, lo := d + e + f, |e|, Leftmost(d, e);
            && lo == |p| && lo + n <= |t|
            && t[..lo] == p && t[lo..lo + n] == x + y && t[lo + n..] == x + f
  {
    hide Lcs;
    assert p + x + (y + x) + f == p + (x + y) + (x + f);
    ThreeParts(p, x + y, x + f);
  }

  lemma {:induction false} SharedTail(d: Text, e: Text)
    ensures var k := Lcs(d, e); d == d[..|d| - k] + e[|e| - k..] && e == e[..|e| - k] + e[|e| - k..]
  {
    hide Lcs;
    var k := Lcs(d, e);
    SharedSuffix(d, e);
    var x := d[|d| - k..];
    assert d == d[..|d| - k] + x && e == e[..|e| - k] + x;
  }

  /** `d`, `e`, `f` are the text `t` cut before and after the edit of length `n` at `p`. */
  ghost predicate PlacedAt(t: Text, n: nat, p: nat, d: Text, e: Text, f: Text) {
    p + n <= |t| && d == t[..p] && e == t[p..p + n] && f == t[p + n..]
  }

  /** Finds the best place for the edit `e` between the equalities `d` and `f`. Were the
      edit and the equality after it both empty, the search would not come to an end. */
  method BestShift(d0: Text, e0: Text, f0: Text) returns (g: Text, h: Text, j: Text)
    requires e0 != [] || f0 != []
    ensures var t, n := d0 + e0 + f0, |e0|;
            && Leftmost(d0, e0) + n <= |t|
            && PlacedAt(t, n, BestPlace(t, n, Leftmost(d0, e0)), g, h, j)
  {
    hide Lcs, Score, Scan, Look, BestPlace, Leftmost, PlacedAt;
    ghost var t, n := d0 + e0 + f0, |e0|;
    ghost var lo := Leftmost(d0, e0);
    var d, e, f := ShiftLeft(d0, e0, f0);
    g, h, j := d, e, f;
    var i := Score(d, e) + Score(e, f);
    ghost var p, best := lo, lo;
    LookAt(t, n, p, d, e, f);
    ScanFrom(t, n, p);
    while CharAt(e, 0) == CharAt(f, 0)
      invariant lo <= best <= p && p + n <= |t| && (e != [] || f != [])
      invariant PlacedAt(t, n, p, d, e, f) && PlacedAt(t, n, best, g, h, j)
      invariant i == Look(t, n, best)
      invariant BestPlace(t, n, lo) == Scan(t, n, p, best)
      decreases |t| - p
    {
      SlideOnce(t, n, p, d, e, f);
      ScanStep(t, n, p, best);
      d := d + [e[0]];
      e := e[1..] + [f[0]];
      f := f[1..];
      p := p + 1;
      var k := Score(d, e) + Score(e, f);
      LookAt(t, n, p, d, e, f);
      if k >= i {
        i := k;
        g, h, j := d, e, f;
        best := p;
      }
    }
    CannotSlide(t, n, p, d, e, f);
    ScanStep(t, n, p, best);
  }

  method ShiftLeft(d0: Text, e0: Text, f0: Text) returns (d: Text, e: Text, f: Text)
    ensures var t, n, lo := d0 + e0 + f0, |e0|, Leftmost(d0, e0);
            lo + n <= |t| && PlacedAt(t, n, lo, d, e, f)
    ensures |e| == |e0| && |f| >= |f0|
  {
    hide Lcs, Leftmost;
    d, e, f := d0, e0, f0;
    var k := CommonSuffix(d, e);
    SharedTail(d, e);
    LeftShift(d[..|d| - k], e[|e| - k..], e[..|e| - k], f);
    if k != 0 {
      var c := e[|e| - k..];
      d := d[..|d| - k];
      e := c + e[..|e| - k];
      f := c + f;
    } else {
      assert e[|e|..] == [] && e[..|e|] == e && [] + e == e && [] + f == f && d[..|d|] == d;
    }
  }

  lemma LookAt(t: Text, n: nat, p: nat, d: Text, e: Text, f: Text)
    requires PlacedAt(t, n, p, d, e, f)
    ensures p + n <= |t| && Look(t, n, p) == Score(d, e) + Score(e, f)
  {
  }

  lemma {:induction false} ScanFrom(t: Text, n: nat, p: nat)
    requires p + n <= |t|
    ensures BestPlace(t, n, p) == Scan(t, n, p, p)
  {
  }

  lemma ScanStep(t: Text, n: nat, p: nat, best: nat)
    requires best <= p && p + n <= |t|
    ensures if CanSlide(t, n, p)
            then Scan(t, n, p, best) == Scan(t, n, p + 1, if Look(t, n, p + 1) >= Look(t, n, best) then p + 1 else best)
            else Scan(t, n, p, best) == best
  {
  }

  lemma SlideOnce(t: Text, n: nat, p: nat, d: Text, e: Text, f: Text)
    requires PlacedAt(t, n, p, d, e, f)
    requires (e != [] || f != []) && CharAt(e, 0) == CharAt(f, 0)
    ensures e != [] && f != [] && CanSlide(t, n, p) && p + 1 + n <= |t|
    ensures PlacedAt(t, n, p + 1, d + [e[0]], e[1..] + [f[0]], f[1..])
    ensures e[1..] + [f[0]] != []
  {
  }

  lemma CannotSlide(t: Text, n: nat, p: nat, d: Text, e: Text, f: Text)
    requires PlacedAt(t, n, p, d, e, f) && CharAt(e, 0) != CharAt(f, 0)
    ensures p + n <= |t| && !CanSlide(t, n, p)
  {
  }

  // ----- the pass over a list

  function EqualUnlessEmpty(t: Text): seq<Diff> {
    if t == [] then [] else [Diff(Equal, t)]
  }

  /** The text around entry `i`, and the best place in it. */
  function Around(s: seq<Diff>, i: nat): Text
    requires 0 < i < |s| - 1
  {
    s[i - 1].text + s[i].text + s[i + 1].text
  }

  function Place(s: seq<Diff>, i: nat): (p: nat)
    requires 0 < i < |s| - 1
    ensures p + |s[i].text| <= |Around(s, i)|
  {
    LeftmostFits(s[i - 1].text, s[i].text, s[i + 1].text);
    BestPlace(Around(s, i), |s[i].text|, Leftmost(s[i - 1].text, s[i].text))
  }

  lemma LeftmostFits(d: Text, e: Text, f: Text)
    ensures Leftmost(d, e) + |e| <= |d + e + f|
  {
    hide Lcs;
  }

  /** The three entries that replace the edit at `i` and its neighbours: an equality that slides empty is dropped. */
  function Moved(s: seq<Diff>, i: nat): seq<Diff>
    requires 0 < i < |s| - 1
  {
    var t, n, p := Around(s, i), |s[i].text|, Place(s, i);
    EqualUnlessEmpty(t[..p]) + [Diff(s[i].op, t[p..p + n])] + EqualUnlessEmpty(t[p + n..])
  }

  predicate Moves(s: seq<Diff>, i: nat)
    requires 0 < i < |s| - 1
  {
    s[i - 1].op == Equal && s[i + 1].op == Equal && Around(s, i)[..Place(s, i)] != s[i - 1].text
  }

  /** The list with its entries from `i` on straightened. */
  function Straightened(s: seq<Diff>, i: nat): seq<Diff>
    requires i > 0
    decreases |s| - i
  {
    if i >= |s| - 1 then s
    else if Moves(s, i) then
      var m := Moved(s, i);
      MovedSize(s, i);
      Straightened(s[..i - 1] + m + s[i + 2..], i + |m| - 2)
    else Straightened(s, i + 1)
  }

  /** Not both neighbours can slide empty. */
  lemma MovedSize(s: seq<Diff>, i: nat)
    requires 0 < i < |s| - 1 && Moves(s, i)
    ensures 2 <= |Moved(s, i)| <= 3
    ensures s[i].text != []
  {
    hide BestPlace, Leftmost;
    var t, n, p := Around(s, i), |s[i].text|, Place(s, i);
    assert |t| == |s[i - 1].text| + n + |s[i + 1].text|;
    if n == 0 {
      StaysPut(s, i);
    }
  }

  lemma StaysPut(s: seq<Diff>, i: nat)
    requires 0 < i < |s| - 1 && s[i].text == []
    ensures Around(s, i)[..Place(s, i)] == s[i - 1].text
  {
    var d, e, t := s[i - 1].text, s[i].text, Around(s, i);
    assert Lcs(d, e) == 0;
    assert Place(s, i) == |d|;
    assert t == d + (e + s[i + 1].text);
  }

  /** The operations and lengths of the edits, in order. */
  function Shape(s: seq<Diff>): seq<(Op, nat)> {
    if s == [] then [] else (if s[0].op == Equal then [] else [(s[0].op, |s[0].text|)]) + Shape(s[1..])
  }

  lemma {:induction false} ShapeConcat(s: seq<Diff>, t: seq<Diff>)
    ensures Shape(s + t) == Shape(s) + Shape(t)
  {
    if s == [] {
      assert s + t == t;
    } else {
      assert (s + t)[1..] == s[1..] + t;
      ShapeConcat(s[1..], t);
    }
  }

  lemma EqualUnlessEmptyTexts(t: Text)
    ensures Text1(EqualUnlessEmpty(t)) == t && Text2(EqualUnlessEmpty(t)) == t && Shape(EqualUnlessEmpty(t)) == []
  {
    if t != [] {
      Single(Diff(Equal, t));
    }
  }

  /** An edit with its two neighbours, cut another way, stands for the same texts. */
  lemma RecutTexts(op: Op, d: Text, e: Text, f: Text, x: Text, y: Text, z: Text)
    requires x + y + z == d + e + f && x + z == d + f && |y| == |e|
    ensures var m, b := EqualUnlessEmpty(x) + [Diff(op, y)] + EqualUnlessEmpty(z), [Diff(Equal, d), Diff(op, e), Diff(Equal, f)];
            SameTexts(m, b) && Shape(m) == Shape(b)
  {
    hide Text1, Text2, EditChars, Equalities, Shape, EqualUnlessEmpty;
    RecutShape(op, d, e, f, x, y, z);
    EqualUnlessEmptyTexts(x);
    EqualUnlessEmptyTexts(z);
    var u, v, w := Diff(Equal, d), Diff(op, e), Diff(Equal, f);
    Single(Diff(op, y));
    Single(u);
    Single(v);
    Single(w);
    Concat3(EqualUnlessEmpty(x), [Diff(op, y)], EqualUnlessEmpty(z));
    Triple(u, v, w);
    assert x + [] + z == x + z && d + [] + f == d + f;
  }

  lemma RecutShape(op: Op, d: Text, e: Text, f: Text, x: Text, y: Text, z: Text)
    requires |y| == |e|
    ensures Shape(EqualUnlessEmpty(x) + [Diff(op, y)] + EqualUnlessEmpty(z)) == Shape([Diff(Equal, d), Diff(op, e), Diff(Equal, f)])
  {
    ShapeConcat(EqualUnlessEmpty(x), [Diff(op, y)]);
    ShapeConcat(EqualUnlessEmpty(x) + [Diff(op, y)], EqualUnlessEmpty(z));
    var u, v, w := Diff(Equal, d), Diff(op, e), Diff(Equal, f);
    assert [u, v, w] == [u] + [v] + [w];
    ShapeConcat([u], [v]);
    ShapeConcat([u] + [v], [w]);
    assert Shape([Diff(op, y)]) == Shape([v]);
    assert Shape(EqualUnlessEmpty(x)) == [] && Shape(EqualUnlessEmpty(z)) == [] && Shape([u]) == [] && Shape([w]) == [];
  }

  lemma MovedTexts(s: seq<Diff>, i: nat)
    requires 0 < i < |s| - 1 && Moves(s, i)
    ensures SameTexts(Moved(s, i), s[i - 1..i + 2]) && Shape(Moved(s, i)) == Shape(s[i - 1..i + 2])
  {
    hide Text1, Text2, Shape, BestPlace, Leftmost, EqualUnlessEmpty;
    var d, e, f := s[i - 1].text, s[i].text, s[i + 1].text;
    var t, n, p := Around(s, i), |e|, Place(s, i);
    RestKept(d, e, f);
    assert t[..p] + t[p..p + n] + t[p + n..] == t;
    assert s[i - 1..i + 2] == [Diff(Equal, d), Diff(s[i].op, e), Diff(Equal, f)];
    RecutTexts(s[i].op, d, e, f, t[..p], t[p..p + n], t[p + n..]);
  }

  /** What is left without the edit is the same at the best place as before. */
  lemma RestKept(d: Text, e: Text, f: Text)
    ensures var t, n := d + e + f, |e|;
            Leftmost(d, e) + n <= |t|
            && (var p := BestPlace(t, n, Leftmost(d, e)); t[..p] + t[p + n..] == d + f)
  {
    hide Lcs, BestPlace, Rightmost, Look, Leftmost;
    var t, n := d + e + f, |e|;
    LeftmostFits(d, e, f);
    LeftRest(d, e, f);
    BestPlaceIsBest(t, n, Leftmost(d, e));
    SlidingKeepsRest(t, n, Leftmost(d, e), BestPlace(t, n, Leftmost(d, e)));
  }

  lemma LeftRest(d: Text, e: Text, f: Text)
    requires Leftmost(d, e) + |e| <= |d + e + f|
    ensures var t, lo := d + e + f, Leftmost(d, e); t[..lo] + t[lo + |e|..] == d + f
  {
    hide Lcs, Leftmost;
    var k := Lcs(d, e);
    SharedTail(d, e);
    ShiftedRest(d[..|d| - k], e[|e| - k..], e[..|e| - k], f, d, e);
  }

  lemma {:induction false} ShiftedRest(p: Text, x: Text, y: Text, f: Text, d: Text, e: Text)
    requires d == p + x && e == y + x && Lcs(d, e) == |x|
    ensures var t, lo := d + e + f, Leftmost(d, e); lo + |e| <= |t| && t[..lo] + t[lo + |e|..] == d + f
  {
    hide Lcs, Leftmost;
    LeftShift(p, x, y, f);
    assert p + x + f == p + (x + f);
  }

  /** Straightening keeps both texts, and every edit keeps its operation and length. */
  lemma {:induction false} StraightenedTexts(s: seq<Diff>, i: nat)
    requires i > 0
    ensures SameTexts(Straightened(s, i), s) && Shape(Straightened(s, i)) == Shape(s)
    decreases |s| - i
  {
    hide Text1, Text2, Shape, Moved, Moves, BestPlace, Leftmost;
    if i < |s| - 1 {
      if Moves(s, i) {
        var m := Moved(s, i);
        MovedSize(s, i);
        MovedTexts(s, i);
        var a, b, c := s[..i - 1], s[i - 1..i + 2], s[i + 2..];
        assert s == a + b + c;
        Exchange(a, b, c, m);
        StraightenedTexts(a + m + c, i + |m| - 2);
      } else {
        StraightenedTexts(s, i + 1);
      }
    }
  }

  lemma {:induction false} Exchange(a: seq<Diff>, b: seq<Diff>, c: seq<Diff>, m: seq<Diff>)
    requires SameTexts(m, b) && Shape(m) == Shape(b)
    ensures SameTexts(a + m + c, a + b + c) && Shape(a + m + c) == Shape(a + b + c)
  {
    Concat3(a, b, c);
    Concat3(a, m, c);
    ShapeConcat(a, b);
    ShapeConcat(a + b, c);
    ShapeConcat(a, m);
    ShapeConcat(a + m, c);
  }

  /** No entry from `i` on is empty between two equalities, the second of them empty as well. */
  ghost predicate Ready(s: seq<Diff>, i: int) {
    forall k :: i <= k < |s| - 1 && Enclosed(s, k) ==> s[k].text != [] || s[k + 1].text != []
  }

  lemma ReadyStays(s: seq<Diff>, i: nat)
    requires 0 < i < |s| - 1 && Moves(s, i) && Ready(s, i)
    ensures var m := Moved(s, i); Ready(s[..i - 1] + m + s[i + 2..], i + |m| - 2)
  {
    hide BestPlace, Leftmost, Place;
    MovedSize(s, i);
    var m := Moved(s, i);
    var u, c := s[..i - 1] + m + s[i + 2..], i + |m| - 2;
    forall k | c <= k < |u| - 1 && Enclosed(u, k)
      ensures u[k].text != [] || u[k + 1].text != []
    {
      if k > c {
        var k' := k + 3 - |m|;
        assert u[k] == s[k'] && u[k + 1] == s[k' + 1];
        assert k' > i + 1;
        assert Enclosed(s, k');
      }
    }
  }

  /** The pass comes to an empty edit with an empty equality behind it. */
  predicate GetsStuck(s: seq<Diff>, i: nat)
    requires i > 0
    decreases |s| - i
  {
    if i >= |s| - 1 then false
    else if StuckAt(s, i) then true
    else if Moves(s, i) then
      MovedSize(s, i);
      GetsStuck(s[..i - 1] + Moved(s, i) + s[i + 2..], i + |Moved(s, i)| - 2)
    else GetsStuck(s, i + 1)
  }

  predicate StuckAt(s: seq<Diff>, i: int) {
    Enclosed(s, i) && s[i].text == [] && s[i + 1].text == []
  }

  lemma {:induction false} ReadyNeverStuck(s: seq<Diff>, i: nat)
    requires i > 0 && Ready(s, i)
    ensures !GetsStuck(s, i)
    decreases |s| - i
  {
    hide Moved, Moves;
    if i < |s| - 1 {
      if Moves(s, i) {
        MovedSize(s, i);
        ReadyStays(s, i);
        ReadyNeverStuck(s[..i - 1] + Moved(s, i) + s[i + 2..], i + |Moved(s, i)| - 2);
      } else {
        ReadyNeverStuck(s, i + 1);
      }
    }
  }

  // ----- lists on which the pass hangs

  /** The edit at `k` keeps the equality before it: nothing slides there, or not over all of that equality. */
  predicate Anchored(s: seq<Diff>, k: nat)
    requires 0 < k < |s|
  {
    && s[k].op != Equal
    && (k < 3
        || (s[k - 2].op != Equal
            && (s[k - 3].op != Equal || s[k - 1].text == [] || !(s[k - 1].text <= s[k - 2].text + s[k - 1].text))))
  }

  /** An empty edit between two equalities, the second of them empty, at the start of a list. */
  lemma {:induction false} HangsAtOnce(x: Text, op: Op, rest: seq<Diff>)
    ensures GetsStuck([Diff(Equal, x), Diff(op, []), Diff(Equal, [])] + rest, 1)
  {
    var s := [Diff(Equal, x), Diff(op, []), Diff(Equal, [])] + rest;
    assert s[0] == Diff(Equal, x) && s[1] == Diff(op, []) && s[2] == Diff(Equal, []);
  }

  /** Up to where an edit can slide, it can slide on. */
  lemma {:induction false} SlidesOn(t: Text, n: nat, lo: nat, q: nat)
    requires lo + n <= |t| && lo <= q < Rightmost(t, n, lo)
    ensures CanSlide(t, n, q)
    decreases q - lo
  {
    if lo < q {
      SlidesOn(t, n, lo + 1, q);
    }
  }

  /** An edit slides over all of the equality behind it only if that begins as the edit and it do. */
  lemma SlidOver(s: seq<Diff>, i: nat)
    requires 0 < i < |s| - 1 && Moves(s, i) && Place(s, i) + |s[i].text| == |Around(s, i)|
    ensures s[i + 1].text != [] && s[i + 1].text <= s[i].text + s[i + 1].text
  {
    hide BestPlace, Rightmost, Lcs, CanSlide;
    var d, e, f := s[i - 1].text, s[i].text, s[i + 1].text;
    var t, n, lo, p := Around(s, i), |e|, Leftmost(d, e), Place(s, i);
    LeftmostFits(d, e, f);
    BestPlaceIsBest(t, n, lo);
    assert t[..|d|] == d;
    forall x | 0 <= x < |f|
      ensures f[x] == (e + f)[x]
    {
      SlidesOn(t, n, lo, |d| + x);
      SlideShows(d, e, f, x);
    }
  }

  lemma SlideShows(d: Text, e: Text, f: Text, x: nat)
    requires x < |f| && CanSlide(d + e + f, |e|, |d| + x)
    ensures f[x] == (e + f)[x]
  {
    assert d + e + f == d + (e + f);
    assert (d + e + f)[|d| + x + |e|] == f[x];
  }

  /** What stands behind the entries exchanged, and the last of them. */
  lemma AfterMove(s: seq<Diff>, i: nat, m: seq<Diff>, u: seq<Diff>)
    requires 0 < i < |s| - 1 && m != [] && u == s[..i - 1] + m + s[i + 2..]
    ensures |u| == |s| + |m| - 3 && u[i + |m| - 2] == m[|m| - 1]
    ensures forall x {:trigger s[x]} :: i + 2 <= x < |s| ==> u[x + |m| - 3] == s[x]
  {
  }

  /** The equality before the next edit is still there unless the edit has slid over it. */
  lemma EqualityLeft(s: seq<Diff>, i: nat)
    requires 0 < i < |s| - 1 && Moves(s, i)
    requires s[i + 1].text == [] || !(s[i + 1].text <= s[i].text + s[i + 1].text)
    ensures |Moved(s, i)| >= 2 && Moved(s, i)[|Moved(s, i)| - 1].op == Equal
  {
    hide BestPlace, Leftmost, Place;
    MovedSize(s, i);
    if Place(s, i) + |s[i].text| == |Around(s, i)| {
      SlidOver(s, i);
    }
  }

  /** Before the pass comes to an anchored edit, that moves with its equalities and stays anchored while others are to come. */
  lemma AnchoredStays(s: seq<Diff>, i: nat, k: nat, m: seq<Diff>, u: seq<Diff>)
    requires 0 < i && i + 2 <= k < |s| && Moves(s, i) && m == Moved(s, i) && u == s[..i - 1] + m + s[i + 2..]
    requires StuckAt(s, k) && Anchored(s, k)
    ensures 2 <= |m| <= 3
    ensures var i', k' := i + |m| - 2, k + |m| - 3;
            i' < k' < |u| && StuckAt(u, k') && u[k'].op != Equal && (i' + 2 <= k' ==> Anchored(u, k'))
  {
    hide Place, Moved;
    MovedSize(s, i);
    AfterMove(s, i, m, u);
    var k' := k + |m| - 3;
    assert u[k'] == s[k] && u[k' + 1] == s[k + 1];
    if i + 2 == k {
      EqualityLeft(s, i);
    } else {
      assert i + 4 <= k;
      assert u[k' - 1] == s[k - 1] && u[k' - 2] == s[k - 2];
      if i + 4 < k {
        assert u[k' - 3] == s[k - 3];
      }
    }
  }

  lemma OneTurn(s: seq<Diff>, i: nat)
    requires 0 < i < |s| - 1
    ensures StuckAt(s, i) ==> GetsStuck(s, i)
    ensures Moves(s, i) ==>
              2 <= |Moved(s, i)| <= 3
              && (GetsStuck(s[..i - 1] + Moved(s, i) + s[i + 2..], i + |Moved(s, i)| - 2) ==> GetsStuck(s, i))
    ensures !Moves(s, i) && GetsStuck(s, i + 1) ==> GetsStuck(s, i)
  {
    hide Moved, Moves;
    if Moves(s, i) {
      MovedSize(s, i);
    }
  }

  /** The pass comes to an anchored empty edit with an empty equality behind it. */
  lemma {:induction false} AnchoredHangs(s: seq<Diff>, i: nat, k: nat)
    requires 0 < i <= k < |s| && StuckAt(s, k) && s[k].op != Equal && (i + 2 <= k ==> Anchored(s, k))
    ensures GetsStuck(s, i)
    decreases |s| - i
  {
    hide Moved, Anchored, Place, GetsStuck;
    OneTurn(s, i);
    if i < k {
      if Moves(s, i) {
        var m := Moved(s, i);
        var u := s[..i - 1] + m + s[i + 2..];
        AnchoredStays(s, i, k, m, u);
        AnchoredHangs(u, i + |m| - 2, k + |m| - 3);
      } else {
        AnchoredHangs(s, i + 1, k);
      }
    }
  }

  lemma ReadyIffNoneStuck(s: seq<Diff>)
    ensures Ready(s, 1) <==> forall k :: 1 <= k < |s| - 1 ==> !StuckAt(s, k)
  {
    forall k | 1 <= k < |s| - 1
      ensures StuckAt(s, k) <==> !(Enclosed(s, k) ==> s[k].text != [] || s[k + 1].text != [])
    {
    }
  }

  /** Lists whose empty edits before empty equalities are anchored hang the pass exactly if they have any. */
  lemma {:induction false} HangsExactly(s: seq<Diff>)
    requires forall k :: 1 <= k < |s| - 1 && StuckAt(s, k) ==> Anchored(s, k)
    ensures GetsStuck(s, 1) <==> exists k :: 1 <= k < |s| - 1 && StuckAt(s, k)
    ensures GetsStuck(s, 1) <==> !Ready(s, 1)
  {
    hide GetsStuck;
    ReadyIffNoneStuck(s);
    if exists k :: 1 <= k < |s| - 1 && StuckAt(s, k) {
      var k :| 1 <= k < |s| - 1 && StuckAt(s, k);
      AnchoredHangs(s, 1, k);
    } else {
      ReadyNeverStuck(s, 1);
    }
  }

  /** Why the edit has to be anchored: here the edit before it slides over its equality, and the pass ends. */
  lemma SlidAway(op: Op, c: Unit, d: Unit)
    requires c != d
    ensures var s := [Diff(Equal, [d]), Diff(Insert, [c]), Diff(Equal, [c]), Diff(op, []), Diff(Equal, [])];
            StuckAt(s, 3) && !GetsStuck(s, 1)
  {
    hide Moved, Moves, GetsStuck;
    var s := [Diff(Equal, [d]), Diff(Insert, [c]), Diff(Equal, [c]), Diff(op, []), Diff(Equal, [])];
    var u := [Diff(Equal, [d, c]), Diff(Insert, [c]), Diff(op, []), Diff(Equal, [])];
    SlidToTheEnd(s, c, d);
    assert s[..0] + Moved(s, 1) + s[3..] == u;
    Unfold(s, 1);
    NoneEnclosed(u, 1);
    ReadyNeverStuck(u, 1);
  }

  lemma NoneEnclosed(u: seq<Diff>, i: nat)
    requires |u| == 4 && u[1].op == Insert && u[1].text != [] && i == 1
    ensures Ready(u, i)
  {
  }

  /** An equal unit behind an inserted one: at the end of the text one boundary looks best. */
  lemma SlidToTheEnd(s: seq<Diff>, c: Unit, d: Unit)
    requires c != d && |s| >= 3 && s[0] == Diff(Equal, [d]) && s[1] == Diff(Insert, [c]) && s[2] == Diff(Equal, [c])
    ensures Moves(s, 1) && Moved(s, 1) == [Diff(Equal, [d, c]), Diff(Insert, [c])]
  {
    hide Look, Scan, Lcs, CanSlide, BestPlace;
    var t := [d] + [c] + [c];
    assert t == [d, c, c] && Around(s, 1) == t;
    assert Leftmost([d], [c]) == 1;
    EndIsBest(c, d, t);
    assert t[..2] == [d, c] && t[2..3] == [c] && t[3..] == [];
  }

  lemma EndIsBest(c: Unit, d: Unit, t: Text)
    requires c != d && t == [d, c, c]
    ensures BestPlace(t, 1, 1) == 2
  {
    hide Look;
    LooksBest(c, d);
    ScanFrom(t, 1, 1);
    ScanStep(t, 1, 1, 1);
    ScanStep(t, 1, 2, 2);
  }

  lemma LooksBest(c: Unit, d: Unit)
    ensures var t := [d, c, c]; Look(t, 1, 2) >= Look(t, 1, 1)
  {
    var t := [d, c, c];
    assert t[..1] == [d] && t[1..2] == [c] && t[2..] == [c] && t[..2] == [d, c] && t[2..3] == [c] && t[3..] == [];
  }

  /** One turn of the loop: slides the edit at `c0` and drops what has slid empty. */
  method StraightenAt(a: DiffList, c0: nat) returns (c: nat)
    requires Enclosed(a.s, c0) && !StuckAt(a.s, c0)
    modifies a
    ensures |a.s| - c < |old(a.s)| - c0 + 1
    ensures Straightened(a.s, c + 1) == Straightened(old(a.s), c0)
    ensures GetsStuck(a.s, c + 1) == GetsStuck(old(a.s), c0)
  {
    hide BestPlace, Leftmost, Lcs, Straightened, GetsStuck, Moves, Moved, PlacedAt, Place;
    c := c0;
    ghost var s, i := a.s, c0;
    var g, h, j := BestShift(a.s[c - 1].text, a.s[c].text, a.s[c + 1].text);
    Placed(s, i, g, h, j);
    Unfold(s, i);
    if a.s[c - 1].text != g {
      ghost var u := s[..i - 1] + Moved(s, i) + s[i + 2..];
      if g != [] {
        a.s := a.s[c - 1 := Diff(Equal, g)];
      } else {
        a.s := Splice(a.s, c - 1, 1, []);
        c := c - 1;
      }
      a.s := a.s[c := Diff(a.s[c].op, h)];
      if j != [] {
        a.s := a.s[c + 1 := Diff(Equal, j)];
      } else {
        a.s := Splice(a.s, c + 1, 1, []);
        c := c - 1;
      }
      assert a.s == u && c + 1 == i + |Moved(s, i)| - 2;
    }
  }

  /** One unfolding of the two definitions. */
  lemma Unfold(s: seq<Diff>, i: nat)
    requires Enclosed(s, i) && !StuckAt(s, i)
    ensures if Moves(s, i)
            then 2 <= |Moved(s, i)| <= 3
                 && (var u, k := s[..i - 1] + Moved(s, i) + s[i + 2..], i + |Moved(s, i)| - 2;
                     Straightened(s, i) == Straightened(u, k) && GetsStuck(s, i) == GetsStuck(u, k))
            else Straightened(s, i) == Straightened(s, i + 1) && GetsStuck(s, i) == GetsStuck(s, i + 1)
  {
    hide Moves, Moved;
    if Moves(s, i) {
      MovedSize(s, i);
    }
  }

  lemma Placed(s: seq<Diff>, i: nat, g: Text, h: Text, j: Text)
    requires Enclosed(s, i)
    requires var t, n := Around(s, i), |s[i].text|;
             && Leftmost(s[i - 1].text, s[i].text) + n <= |t|
             && PlacedAt(t, n, BestPlace(t, n, Leftmost(s[i - 1].text, s[i].text)), g, h, j)
    ensures Moved(s, i) == EqualUnlessEmpty(g) + [Diff(s[i].op, h)] + EqualUnlessEmpty(j)
    ensures Moves(s, i) <==> g != s[i - 1].text
  {
    hide BestPlace, Leftmost, Lcs, EqualUnlessEmpty;
  }

  /** `diff_cleanupSemanticLossless`. At an empty edit with an empty equality behind it the inner loop of
      the source finds the two first characters equal for ever; the method then reports that it hangs. */
  method CleanupSemanticLossless(a: DiffList) returns (hangs: bool)
    modifies a
    ensures hangs <==> GetsStuck(old(a.s), 1)
    ensures !hangs ==> a.s == Straightened(old(a.s), 1)
  {
    hide BestPlace, Leftmost, Lcs, Moved;
    var c := 1;
    while c < |a.s| - 1
      invariant 0 < c
      invariant Straightened(a.s, c) == Straightened(old(a.s), 1)
      invariant GetsStuck(a.s, c) == GetsStuck(old(a.s), 1)
      decreases |a.s| - c
    {
      if a.s[c - 1].op == Equal && a.s[c + 1].op == Equal {
        if a.s[c].text == [] && a.s[c + 1].text == [] {
          return true;
        }
        c := StraightenAt(a, c);
      }
      c := c + 1;
    }
    return false;
  }
}
