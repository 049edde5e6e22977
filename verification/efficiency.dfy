/** `diff_cleanupEfficiency`: removes short equalities that cost more to keep than to edit. */
module Efficiency {
  import opened Texts
  import opened Diffs
  import opened Runs
  import opened Merge
  import opened Semantic

  /** Does the run of edits at the end (at the front) of `s` hold an edit of the given kind? */
  predicate Before(op: Op, s: seq<Diff>) {
    Trail(Entries(op), s) > 0
  }

  predicate After(op: Op, s: seq<Diff>) {
    Lead(Entries(op), s) > 0
  }

  function Bit(b: bool): nat {
    if b then 1 else 0
  }

  /** A short equality `e` costs too much when both kinds of edit occur on both sides, or when
      three of the four occur and it is very short. */
  predicate Costly(cost: int, e: Text, g: bool, h: bool, j: bool, i: bool) {
    && e != [] && |e| < cost
    && ((g && h && j && i) || (2 * |e| < cost && Bit(g) + Bit(h) + Bit(j) + Bit(i) == 3))
  }

  predicate CostlyAt(cost: int, s: seq<Diff>, q: int) {
    && 0 <= q < |s| && s[q].op == Equal
    && Costly(cost, s[q].text, Before(Insert, s[..q]), Before(Delete, s[..q]), After(Insert, s[q + 1..]), After(Delete, s[q + 1..]))
  }

  /** One equality that costs too much is opened. */
  ghost predicate OpensCostly(cost: int, s: seq<Diff>, t: seq<Diff>) {
    exists q: nat :: q < |s| && CostlyAt(cost, s, q) && t == Opened(s, q)
  }

  /** From `o` to `s` such equalities are opened one after the other. */
  ghost predicate SavedSoFar(cost: int, chain: seq<seq<Diff>>, o: seq<Diff>, s: seq<Diff>) {
    && chain != [] && chain[0] == o && chain[|chain| - 1] == s
    && forall k :: 0 <= k < |chain| - 1 ==> OpensCostly(cost, chain[k], chain[k + 1])
  }

  /** The same until there is none. */
  ghost predicate Saved(cost: int, chain: seq<seq<Diff>>, o: seq<Diff>, s: seq<Diff>) {
    SavedSoFar(cost, chain, o, s) && forall q :: 0 <= q < |s| ==> !CostlyAt(cost, s, q)
  }

  lemma OneMoreSaved(cost: int, chain: seq<seq<Diff>>, o: seq<Diff>, s: seq<Diff>, p: nat)
    requires SavedSoFar(cost, chain, o, s) && p < |s| && CostlyAt(cost, s, p)
    ensures SavedSoFar(cost, chain + [Opened(s, p)], o, Opened(s, p))
  {
    hide CostlyAt, Opened;
    var u := chain + [Opened(s, p)];
    forall k | 0 <= k < |u| - 1
      ensures OpensCostly(cost, u[k], u[k + 1])
    {
      if k < |chain| - 1 {
        assert u[k] == chain[k] && u[k + 1] == chain[k + 1];
      } else {
        assert u[k] == s && u[k + 1] == Opened(s, p);
      }
    }
  }

  /** Nothing is opened where nothing costs too much. */
  lemma NothingSaved(cost: int, chain: seq<seq<Diff>>, o: seq<Diff>, s: seq<Diff>)
    requires SavedSoFar(cost, chain, o, s) && forall q :: 0 <= q < |o| ==> !CostlyAt(cost, o, q)
    ensures chain == [o] && s == o
  {
    hide OpensCostly;
    assert |chain| > 1 ==> OpensCostly(cost, chain[0], chain[0 + 1]);
    NotSaved(cost, o, if |chain| > 1 then chain[1] else o);
  }

  lemma NotSaved(cost: int, o: seq<Diff>, t: seq<Diff>)
    requires forall q :: 0 <= q < |o| ==> !CostlyAt(cost, o, q)
    ensures !OpensCostly(cost, o, t)
  {
    hide CostlyAt, Opened;
  }

  ghost predicate SettledCosts(cost: int, s: seq<Diff>, c: map<int, int>, d: int, f: int, e: Text) {
    forall q :: 0 <= q < f && (e != [] && d - 1 in c ==> q != c[d - 1]) ==> !CostlyAt(cost, s, q)
  }

  /** State of the loop; `g`, `h`: inserts and deletes before the candidate `e`, `j`, `i`: since. */
  ghost predicate Saving(cost: int, s: seq<Diff>, o: seq<Diff>, f: int, c: map<int, int>, d: int, e: Text, g: bool, h: bool, j: bool, i: bool) {
    && 0 <= f <= |s| && SameTexts(s, o)
    && Stack(s, c, d, f)
    && j == Before(Insert, s[..f]) && i == Before(Delete, s[..f])
    && (e != [] ==>
          && Candidate(s, c, d, f, e) && |e| < cost
          && g == Before(Insert, s[..c[d - 1]]) && h == Before(Delete, s[..c[d - 1]])
          && !Costly(cost, e, g, h, j, i))
    && SettledCosts(cost, s, c, d, f, e)
  }

  lemma LastCandidateSettled(cost: int, s: seq<Diff>, o: seq<Diff>, f: int, c: map<int, int>, d: int, e: Text, g: bool, h: bool, j: bool, i: bool)
    requires Saving(cost, s, o, f, c, d, e, g, h, j, i) && (f == |s| || s[f].op == Equal)
    ensures forall q :: 0 <= q < f ==> !CostlyAt(cost, s, q)
  {
    if e != [] {
      LeadIsTrail(Entries(Insert), s, c[d - 1], f);
      LeadIsTrail(Entries(Delete), s, c[d - 1], f);
      assert !CostlyAt(cost, s, c[d - 1]);
    }
  }

  lemma MeetEquality(cost: int, s: seq<Diff>, o: seq<Diff>, f: int, c: map<int, int>, d: int, e: Text, g: bool, h: bool, j: bool, i: bool)
    requires Saving(cost, s, o, f, c, d, e, g, h, j, i) && f < |s| && s[f].op == Equal
    ensures if |s[f].text| < cost && (j || i)
            then Saving(cost, s, o, f + 1, c[d := f], d + 1, s[f].text, j, i, false, false)
            else Saving(cost, s, o, f + 1, c, 0, [], g, h, false, false)
  {
    hide SameTexts, CostlyAt, Trail, Lead, SettledCosts, Stack;
    LastCandidateSettled(cost, s, o, f, c, d, e, g, h, j, i);
    TrailGrows(Entries(Insert), s, f);
    TrailGrows(Entries(Delete), s, f);
    NotCostly(cost, s, f);
    if |s[f].text| < cost && (j || i) {
      StackPush(s, c, d, f);
      CostsSettledUpTo(cost, s, c[d := f], d + 1, f, s[f].text);
    } else {
      EmptyStack(s, c, f + 1);
      CostsSettledUpTo(cost, s, c, 0, f, []);
    }
  }

  lemma EmptyStack(s: seq<Diff>, c: map<int, int>, f: int)
    ensures Stack(s, c, 0, f)
  {
  }

  lemma CostsSettledUpTo(cost: int, s: seq<Diff>, c: map<int, int>, d: int, f: int, e: Text)
    requires 0 <= f < |s| && (!CostlyAt(cost, s, f) || (e != [] && d - 1 in c && c[d - 1] == f))
    requires forall q :: 0 <= q < f ==> !CostlyAt(cost, s, q)
    ensures SettledCosts(cost, s, c, d, f + 1, e)
  {
    hide CostlyAt;
  }

  lemma NotCostly(cost: int, s: seq<Diff>, q: int)
    requires 0 <= q < |s|
    ensures s[q].text == [] || |s[q].text| >= cost || !(Before(Insert, s[..q]) || Before(Delete, s[..q])) ==> !CostlyAt(cost, s, q)
  {
  }

  lemma MeetEdit(cost: int, s: seq<Diff>, o: seq<Diff>, f: int, c: map<int, int>, d: int, e: Text, g: bool, h: bool, j: bool, i: bool)
    requires Saving(cost, s, o, f, c, d, e, g, h, j, i) && f < |s| && s[f].op != Equal
    ensures var j', i' := j || s[f].op == Insert, i || s[f].op == Delete;
            e == [] || !Costly(cost, e, g, h, j', i') ==> Saving(cost, s, o, f + 1, c, d, e, g, h, j', i')
  {
    TrailGrows(Entries(Insert), s, f);
    TrailGrows(Entries(Delete), s, f);
    hide SameTexts, Trail, Lead, CostlyAt;
  }

  /** The candidate costs too much once what has been read of the edits behind it is enough. */
  lemma CandidateCostly(cost: int, s: seq<Diff>, o: seq<Diff>, f: int, c: map<int, int>, d: int, e: Text, g: bool, h: bool, j: bool, i: bool)
    requires Saving(cost, s, o, f, c, d, e, g, h, j, i) && e != [] && f < |s| && s[f].op != Equal
    requires var j', i' := j || s[f].op == Insert, i || s[f].op == Delete;
             (g && h && j' && i') || (2 * |e| < cost && Bit(g) + Bit(h) + Bit(j') + Bit(i') == 3)
    ensures d - 1 in c && CostlyAt(cost, s, c[d - 1])
  {
    hide Trail, Lead, SettledCosts, SameTexts, CostlyAt, Stack;
    TrailGrows(Entries(Insert), s, f);
    TrailGrows(Entries(Delete), s, f);
    EnoughKinds(cost, s, c[d - 1], f + 1);
  }

  lemma EnoughKinds(cost: int, s: seq<Diff>, p: nat, f: nat)
    requires p < f <= |s| && s[p].op == Equal && forall k :: p < k < f ==> s[k].op != Equal
    requires Costly(cost, s[p].text, Before(Insert, s[..p]), Before(Delete, s[..p]), Before(Insert, s[..f]), Before(Delete, s[..f]))
    ensures CostlyAt(cost, s, p)
  {
    hide Trail, Lead;
    LeadCovers(Entries(Insert), s, p, f);
    LeadCovers(Entries(Delete), s, p, f);
  }

  lemma CostlyLocal(cost: int, s: seq<Diff>, p: nat, q: nat, m: nat)
    requires q < m < p < |s| && s[m].op == Equal
    ensures CostlyAt(cost, Opened(s, p), q) <==> CostlyAt(cost, s, q)
  {
    hide Trail, Lead, Costly;
    var t := Opened(s, p);
    assert t[..m + 1] == s[..m + 1] && t[..q] == s[..q] && t[q] == s[q];
    LeadLocal(Entries(Insert), s, t, q + 1, m);
    LeadLocal(Entries(Delete), s, t, q + 1, m);
  }

  /** Opening the candidate when not both kinds of edit come before it: back behind the equality before the previous one. */
  lemma OpenAndReturn(cost: int, s: seq<Diff>, o: seq<Diff>, f: int, c: map<int, int>, d: int, e: Text, g: bool, h: bool, j: bool, i: bool)
    requires Saving(cost, s, o, f, c, d, e, g, h, j, i) && e != []
    ensures d - 1 in c
    ensures var p := c[d - 1];
            0 <= p < |s| && s[p] == Diff(Equal, e)
            && (0 < d - 2 ==> d - 3 in c)
            && (var f' := if 0 < d - 2 then c[d - 3] + 1 else 0;
                Saving(cost, Opened(s, p), o, f', c, d - 2, [], g, h, false, false))
            && Equalities(Opened(s, p)) < Equalities(s)
  {
    var p := c[d - 1];
    var t := Opened(s, p);
    OpenedTexts(s, p);
    hide Trail, Lead, CostlyAt, Costly, SameTexts, Equalities, Opened;
    if 0 < d - 2 {
      var f' := c[d - 3] + 1;
      StackBelow(s, c, d, f);
      forall q | 0 <= q < f'
        ensures !CostlyAt(cost, t, q)
      {
        CostlyLocal(cost, s, p, q, c[d - 2]);
      }
      TrailGrows(Entries(Insert), t, f' - 1);
      TrailGrows(Entries(Delete), t, f' - 1);
    } else {
      NothingBefore(t);
    }
  }

  lemma NothingBefore(t: seq<Diff>)
    ensures !Before(Insert, t[..0]) && !Before(Delete, t[..0])
  {
  }

  /** Opening the top of the stack leaves the entries below the next one as they were. */
  lemma StackBelow(s: seq<Diff>, c: map<int, int>, d: int, f: int)
    requires 0 < d - 2 && Stack(s, c, d, f)
    ensures forall k :: k in {d - 1, d - 2, d - 3} ==> k in c && 0 <= c[k] < |s|
    ensures c[d - 3] < c[d - 2] < c[d - 1] && s[c[d - 2]].op == Equal
    ensures var t := Opened(s, c[d - 1]); Stack(t, c, d - 2, c[d - 3] + 1) && t[c[d - 3]].op == Equal
  {
    var t, m := Opened(s, c[d - 1]), c[d - 2];
    assert t[..m + 1] == s[..m + 1];
    forall k | 0 <= k < d - 2
      ensures k in c && 0 <= c[k] < c[d - 3] + 1 && c[k] < |t| && t[c[k]].op == Equal
    {
      assert c[k] <= c[d - 3] < m;
      assert t[c[k]] == t[..m + 1][c[k]] == s[..m + 1][c[k]];
    }
  }

  lemma OpenedBefore(s: seq<Diff>, p: nat, q: nat)
    requires q < p < |s|
    ensures var t := Opened(s, p);
            t[..q] == s[..q] && t[..p] == s[..p] && t[q] == s[q] && forall k :: q < k < p ==> t[k] == s[k]
  {
  }

  /** An equality before the opened one, with both kinds of edit in between, is judged as before. */
  lemma CostlyUnmoved(cost: int, s: seq<Diff>, p: nat, q: nat)
    requires q < p < |s| && s[q].op == Equal && Before(Insert, s[..p]) && Before(Delete, s[..p]) && s[p].op == Equal
    ensures CostlyAt(cost, Opened(s, p), q) <==> CostlyAt(cost, s, q)
  {
    if m :| q < m < p && s[m].op == Equal {
      CostlyLocal(cost, s, p, q, m);
    } else {
      var t := Opened(s, p);
      hide Trail, Lead, Costly, Opened;
      OpenedBefore(s, p, q);
      LeadIsTrail(Entries(Insert), s, q, p);
      LeadIsTrail(Entries(Delete), s, q, p);
      LeadSees(t, q + 1, p);
      LeadSees(t, q + 1, p + 1);
    }
  }

  /** Opening the candidate after both kinds of edit: the search goes on where it is. */
  lemma OpenAndStay(cost: int, s: seq<Diff>, o: seq<Diff>, f: int, c: map<int, int>, d: int, e: Text, g: bool, h: bool, j: bool, i: bool)
    requires Saving(cost, s, o, f, c, d, e, g, h, j, i) && e != [] && g && h && f < |s|
    ensures d - 1 in c
    ensures var p := c[d - 1];
            0 <= p < |s| && s[p] == Diff(Equal, e)
            && Saving(cost, Opened(s, p), o, f + 1, c, 0, [], g, h, true, true)
            && Equalities(Opened(s, p)) < Equalities(s)
  {
    var p := c[d - 1];
    var t := Opened(s, p);
    hide Trail, Lead, CostlyAt, SameTexts, Opened;
    OpenedTexts(s, p);
    OpenedRun(s, p, f);
    TrailSees(t, p, f + 1);
    TrailSees(t, p + 1, f + 1);
    EmptyStack(t, c, f + 1);
    CostsUnmoved(cost, s, p, f);
  }

  lemma CostsUnmoved(cost: int, s: seq<Diff>, p: nat, f: nat)
    requires p < f < |s| && s[p].op == Equal && Before(Insert, s[..p]) && Before(Delete, s[..p])
    requires forall k :: p < k < f ==> s[k].op != Equal
    requires forall q :: 0 <= q < p ==> !CostlyAt(cost, s, q)
    ensures |Opened(s, p)| == |s| + 1 && forall q :: 0 <= q < f + 1 ==> !CostlyAt(cost, Opened(s, p), q)
  {
    hide Trail, Lead, CostlyAt, SameTexts, Opened, Before;
    var t := Opened(s, p);
    OpenedRun(s, p, f);
    forall q | 0 <= q < f + 1
      ensures !CostlyAt(cost, t, q)
    {
      if q < p && s[q].op == Equal {
        CostlyUnmoved(cost, s, p, q);
      } else {
        EditNotCostly(cost, t, q);
      }
    }
  }

  lemma EditNotCostly(cost: int, s: seq<Diff>, q: int)
    requires 0 <= q < |s| && s[q].op != Equal
    ensures !CostlyAt(cost, s, q)
  {
  }

  lemma OpenedRun(s: seq<Diff>, p: nat, f: nat)
    requires p < f < |s| && forall k :: p < k < f ==> s[k].op != Equal
    ensures var t := Opened(s, p);
            && |t| == |s| + 1 && t[p].op == Delete && t[p + 1].op == Insert
            && (forall k :: 0 <= k < p ==> t[k] == s[k])
            && forall k :: p <= k < f + 1 ==> t[k].op != Equal
  {
    var t := Opened(s, p);
    forall k | p + 1 < k < f + 1
      ensures t[k].op != Equal
    {
      assert t[k] == s[k - 1];
    }
  }

  /** The elimination loop of `diff_cleanupEfficiency`: opens equalities that cost too much, and nothing else, until none is left. */
  method EliminateCostly(a: DiffList, cost: int) returns (changes: bool, ghost chain: seq<seq<Diff>>)
    modifies a
    ensures SameTexts(a.s, old(a.s))
    ensures Saved(cost, chain, old(a.s), a.s) && (changes <==> |chain| > 1)
    ensures (forall q :: 0 <= q < |old(a.s)| ==> !CostlyAt(cost, old(a.s), q)) ==> !changes && a.s == old(a.s)
  {
    hide CostlyAt, SameTexts, Trail, Lead, Saving, Equalities, Before, After, SavedSoFar, Opened;
    changes, chain := false, [a.s];
    NothingSavedYet(cost, a.s);
    var c: map<int, int> := map[];
    var d := 0;
    var e: Text := [];
    var f := 0;
    var g, h, j, i := false, false, false, false;
    StartSaving(cost, a.s);
    while f < |a.s|
      invariant Saving(cost, a.s, old(a.s), f, c, d, e, g, h, j, i)
      invariant 0 <= f <= |a.s|
      invariant SavedSoFar(cost, chain, old(a.s), a.s) && chain != [] && (changes <==> |chain| > 1)
      decreases Equalities(a.s), |a.s| - f
    {
      if a.s[f].op == Equal {
        MeetEquality(cost, a.s, old(a.s), f, c, d, e, g, h, j, i);
        if |a.s[f].text| < cost && (j || i) {
          c, d := c[d := f], d + 1;
          g, h := j, i;
          e := a.s[f].text;
        } else {
          d := 0;
          e := [];
        }
        j, i := false, false;
      } else {
        MeetEdit(cost, a.s, old(a.s), f, c, d, e, g, h, j, i);
        ghost var j0, i0 := j, i;
        if a.s[f].op == Delete {
          i := true;
        } else {
          j := true;
        }
        if e != [] && ((g && h && j && i) || (2 * |e| < cost && Bit(g) + Bit(h) + Bit(j) + Bit(i) == 3)) {
          OpenAndReturn(cost, a.s, old(a.s), f, c, d, e, g, h, j0, i0);
          if g && h {
            OpenAndStay(cost, a.s, old(a.s), f, c, d, e, g, h, j0, i0);
          }
          CandidateCostly(cost, a.s, old(a.s), f, c, d, e, g, h, j0, i0);
          OneMoreSaved(cost, chain, old(a.s), a.s, c[d - 1]);
          OpenEquality(a, c[d - 1]);
          chain := chain + [a.s];
          d := d - 1;
          e := [];
          if g && h {
            j, i := true, true;
            d := 0;
          } else {
            d := d - 1;
            f := if 0 < d then c[d - 1] else -1;
            j, i := false, false;
          }
          changes := true;
        }
      }
      f := f + 1;
      SavingFacts(cost, a.s, old(a.s), f, c, d, e, g, h, j, i);
    }
    LastCandidateSettled(cost, a.s, old(a.s), f, c, d, e, g, h, j, i);
    SavingFacts(cost, a.s, old(a.s), f, c, d, e, g, h, j, i);
    if forall q :: 0 <= q < |old(a.s)| ==> !CostlyAt(cost, old(a.s), q) {
      NothingSaved(cost, chain, old(a.s), a.s);
    }
  }

  lemma NothingSavedYet(cost: int, s: seq<Diff>)
    ensures SavedSoFar(cost, [s], s, s)
  {
  }

  lemma StartSaving(cost: int, s: seq<Diff>)
    ensures Saving(cost, s, s, 0, map[], 0, [], false, false, false, false)
  {
  }

  lemma SavingFacts(cost: int, s: seq<Diff>, o: seq<Diff>, f: int, c: map<int, int>, d: int, e: Text, g: bool, h: bool, j: bool, i: bool)
    requires Saving(cost, s, o, f, c, d, e, g, h, j, i)
    ensures SameTexts(s, o) && 0 <= f <= |s|
  {
  }

  /** What `diff_cleanupEfficiency` makes of `o`: elimination (giving `m`) and merging if that changed anything. */
  ghost predicate CheaperFrom(cost: int, o: seq<Diff>, chain: seq<seq<Diff>>, m: seq<Diff>, s: seq<Diff>) {
    Saved(cost, chain, o, m) && s == if |chain| == 1 then m else Normalized(m)
  }

  /** `diff_cleanupEfficiency`. */
  method CleanupEfficiency(a: DiffList, cost: int) returns (ghost chain: seq<seq<Diff>>, ghost m: seq<Diff>)
    modifies a
    ensures SameTexts(a.s, old(a.s)) && CheaperFrom(cost, old(a.s), chain, m, a.s)
    ensures (forall q :: 0 <= q < |old(a.s)| ==> !CostlyAt(cost, old(a.s), q)) ==> a.s == old(a.s)
  {
    hide CostlyAt, OpensCostly, Text1, Text2, EditChars, Canonical;
    var changes;
    changes, chain := EliminateCostly(a, cost);
    m := a.s;
    if changes {
      CleanupMerge(a);
    }
  }
}
