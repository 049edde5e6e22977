/** `diff_levenshtein`: the cost of a diff in insertions, deletions and substitutions. */
module Levenshtein {
  import opened Texts
  import opened Distance
  import opened Diffs

  /** The Levenshtein distance: the least number of inserted, deleted or substituted units. */
  function Lev(a: Text, b: Text): nat
    decreases |a| + |b|
  {
    if a == [] then |b|
    else if b == [] then |a|
    else Min(Min(1 + Lev(a[1..], b), 1 + Lev(a, b[1..])), (if a[0] == b[0] then 0 else 1) + Lev(a[1..], b[1..]))
  }

  // ----- the distance itself

  /** One unit taken off either or both fronts changes the distance by at most one. */
  lemma {:induction false} LevSteps(a: Text, b: Text)
    ensures a != [] ==> Lev(a, b) <= 1 + Lev(a[1..], b)
    ensures b != [] ==> Lev(a, b) <= 1 + Lev(a, b[1..])
    ensures a != [] && b != [] ==> Lev(a, b) <= (if a[0] == b[0] then 0 else 1) + Lev(a[1..], b[1..])
  {
  }

  lemma {:induction false} LevAtMostLonger(a: Text, b: Text)
    ensures Lev(a, b) <= Max(|a|, |b|)
    decreases |a| + |b|
  {
    if a != [] && b != [] {
      LevAtMostLonger(a[1..], b[1..]);
      LevSteps(a, b);
    }
  }

  lemma {:induction false} LevSame(a: Text)
    ensures Lev(a, a) == 0
  {
    if a != [] {
      LevSame(a[1..]);
    }
  }

  /** Distances of parts bound the distance of the whole. */
  lemma {:induction false} LevSubadditive(a: Text, b: Text, c: Text, d: Text)
    ensures Lev(a + c, b + d) <= Lev(a, b) + Lev(c, d)
    decreases |a| + |b|
  {
    if a == [] {
      LevPrefix(b, c, d);
      assert a + c == c;
    } else if b == [] {
      LevDrop(a, c, d);
      assert b + d == d;
    } else {
      LevSubadditive(a[1..], b, c, d);
      LevSubadditive(a, b[1..], c, d);
      LevSubadditive(a[1..], b[1..], c, d);
      Fronts(a, b, c, d);
    }
  }

  lemma {:induction false} Fronts(a: Text, b: Text, c: Text, d: Text)
    requires a != [] && b != []
    ensures Lev(a + c, b + d) <= 1 + Lev(a[1..] + c, b + d)
    ensures Lev(a + c, b + d) <= 1 + Lev(a + c, b[1..] + d)
    ensures Lev(a + c, b + d) <= (if a[0] == b[0] then 0 else 1) + Lev(a[1..] + c, b[1..] + d)
  {
    hide Lev;
    assert (a + c)[1..] == a[1..] + c && (b + d)[1..] == b[1..] + d;
    LevSteps(a + c, b + d);
  }

  lemma {:induction false} LevPrefix(b: Text, c: Text, d: Text)
    ensures Lev(c, b + d) <= |b| + Lev(c, d)
  {
    if b == [] {
      assert b + d == d;
    } else {
      LevPrefix(b[1..], c, d);
      assert (b + d)[1..] == b[1..] + d;
      LevSteps(c, b + d);
    }
  }

  lemma {:induction false} LevDrop(a: Text, c: Text, d: Text)
    ensures Lev(a + c, d) <= |a| + Lev(c, d)
  {
    if a == [] {
      assert a + c == c;
    } else {
      LevDrop(a[1..], c, d);
      assert (a + c)[1..] == a[1..] + c;
      LevSteps(a + c, d);
    }
  }

  /** A substitution is worth at most a deletion and an insertion. */
  lemma {:induction false} DistAtMostTwice(a: Text, b: Text)
    ensures Dist(a, b) <= 2 * Lev(a, b)
    decreases |a| + |b|
  {
    if a != [] && b != [] {
      DistAtMostTwice(a[1..], b);
      DistAtMostTwice(a, b[1..]);
      DistAtMostTwice(a[1..], b[1..]);
      DropLeft(a, b);
      DropRight(a, b);
      DropRight(a[1..], b);
    }
  }

  // ----- the cost of a diff

  /** The cost of the rest `s` of a diff, `c` inserted and `d` deleted units into a run. */
  function Cost(s: seq<Diff>, c: nat, d: nat): nat {
    if s == [] then Max(c, d)
    else match s[0].op
      case Insert => Cost(s[1..], c + |s[0].text|, d)
      case Delete => Cost(s[1..], c, d + |s[0].text|)
      case Equal => Max(c, d) + Cost(s[1..], 0, 0)
  }

  predicate OnlyEdits(r: seq<Diff>) {
    forall i :: 0 <= i < |r| ==> r[i].op != Equal
  }

  /** Every run of edits costs as many units as the longer of its two texts has. */
  lemma {:induction false} RunCosts(r: seq<Diff>, x: Diff, t: seq<Diff>)
    requires OnlyEdits(r) && x.op == Equal
    ensures Cost(r, 0, 0) == Max(|Text2(r)|, |Text1(r)|)
    ensures Cost(r + [x] + t, 0, 0) == Max(|Text2(r)|, |Text1(r)|) + Cost(t, 0, 0)
  {
    OpenRunCosts(r, x, t, 0, 0);
  }

  lemma {:induction false} OpenRunCosts(r: seq<Diff>, x: Diff, t: seq<Diff>, c: nat, d: nat)
    requires OnlyEdits(r) && x.op == Equal
    ensures Cost(r, c, d) == Max(c + |Text2(r)|, d + |Text1(r)|)
    ensures Cost(r + [x] + t, c, d) == Max(c + |Text2(r)|, d + |Text1(r)|) + Cost(t, 0, 0)
    decreases |r|
  {
    if r == [] {
      assert r + [x] + t == [x] + t && ([x] + t)[1..] == t;
    } else {
      assert (r + [x] + t)[1..] == r[1..] + [x] + t;
      OpenRunCosts(r[1..], x, t, if r[0].op == Insert then c + |r[0].text| else c, if r[0].op == Delete then d + |r[0].text| else d);
    }
  }

  method DiffLevenshtein(a: DiffList) returns (b: nat)
    ensures b == Cost(a.s, 0, 0)
    ensures Lev(Text1(a.s), Text2(a.s)) <= b <= EditChars(a.s)
    ensures EditChars(a.s) <= Dist(Text1(a.s), Text2(a.s)) ==> b <= 2 * Lev(Text1(a.s), Text2(a.s))
  {
    var e := 0;
    var c: nat, d: nat := 0, 0;
    b := 0;
    assert a.s[0..] == a.s;
    while e < |a.s|
      invariant 0 <= e <= |a.s|
      invariant b + Cost(a.s[e..], c, d) == Cost(a.s, 0, 0)
    {
      var f, g := a.s[e].op, a.s[e].text;
      assert a.s[e..][0] == a.s[e] && a.s[e..][1..] == a.s[e + 1..];
      match f {
        case Insert => c := c + |g|;
        case Delete => d := d + |g|;
        case Equal =>
          b := b + Max(c, d);
          d, c := 0, 0;
      }
      e := e + 1;
    }
    b := b + Max(c, d);
    CostBounds(a.s);
  }

  /** The cost is never below the distance of the two texts, never above the edited units, and
      at most twice the distance when no diff of the two texts edits fewer. */
  lemma {:induction false} CostBounds(s: seq<Diff>)
    ensures Lev(Text1(s), Text2(s)) <= Cost(s, 0, 0) <= EditChars(s)
    ensures EditChars(s) <= Dist(Text1(s), Text2(s)) ==> Cost(s, 0, 0) <= 2 * Lev(Text1(s), Text2(s))
  {
    CostCovers(s, [], []);
    assert [] + Text1(s) == Text1(s) && [] + Text2(s) == Text2(s);
    CostAtMostEdits(s, 0, 0);
    DistAtMostTwice(Text1(s), Text2(s));
  }

  /** With `x` deleted and `y` inserted so far in the run. */
  lemma {:induction false} CostCovers(s: seq<Diff>, x: Text, y: Text)
    ensures Lev(x + Text1(s), y + Text2(s)) <= Cost(s, |y|, |x|)
    decreases |s|
  {
    hide Lev;
    if s == [] {
      assert x + Text1(s) == x && y + Text2(s) == y;
      LevAtMostLonger(x, y);
    } else {
      var t, r := s[0].text, s[1..];
      match s[0].op
      case Insert =>
        assert y + (t + Text2(r)) == (y + t) + Text2(r) && [] + Text1(r) == Text1(r);
        CostCovers(r, x, y + t);
      case Delete =>
        assert x + (t + Text1(r)) == (x + t) + Text1(r) && [] + Text2(r) == Text2(r);
        CostCovers(r, x + t, y);
      case Equal =>
        CostCovers(r, [], []);
        RunAndRest(x, y, t, Text1(r), Text2(r));
    }
  }

  lemma {:induction false} RunAndRest(x: Text, y: Text, t: Text, a: Text, b: Text)
    ensures Lev(x + (t + a), y + (t + b)) <= Max(|x|, |y|) + Lev([] + a, [] + b)
  {
    hide Lev;
    LevAtMostLonger(x, y);
    LevSame(t);
    LevSubadditive(t, t, a, b);
    LevSubadditive(x, y, t + a, t + b);
    assert [] + a == a && [] + b == b;
  }

  lemma {:induction false} CostAtMostEdits(s: seq<Diff>, c: nat, d: nat)
    ensures Cost(s, c, d) <= c + d + EditChars(s)
    decreases |s|
  {
    if s != [] {
      match s[0].op
      case Insert => CostAtMostEdits(s[1..], c + |s[0].text|, d);
      case Delete => CostAtMostEdits(s[1..], c, d + |s[0].text|);
      case Equal => CostAtMostEdits(s[1..], 0, 0);
    }
  }
}
