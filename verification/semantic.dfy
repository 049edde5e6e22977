/** `diff_cleanupSemantic`: removes equalities that are small next to the edits around
    them, straightens the boundaries of the edits, and pulls overlaps out of adjacent edits. */
module Semantic {
  import opened Texts
  import opened Diffs
  import opened Runs
  import opened Merge
  import opened Lossless
  import opened Overlap

  /** The equality at `q` is no longer than the edits on either side of it. */
  predicate Trivial(s: seq<Diff>, q: int) {
    && 0 <= q < |s| && s[q].op == Equal && s[q].text != []
    && |s[q].text| <= Max(Trail(Units(Insert), s[..q]), Trail(Units(Delete), s[..q]))
    && |s[q].text| <= Max(Lead(Units(Insert), s[q + 1..]), Lead(Units(Delete), s[q + 1..]))
  }

  /** An equality turned into a deletion and an insertion of the same text. */
  function Opened(s: seq<Diff>, p: nat): seq<Diff>
    requires p < |s|
  {
    Splice(s, p, 1, [Diff(Delete, s[p].text), Diff(Insert, s[p].text)])
  }

  /** One trivial equality is opened. */
  ghost predicate OpensTrivial(s: seq<Diff>, t: seq<Diff>) {
    exists q: nat :: q < |s| && Trivial(s, q) && t == Opened(s, q)
  }

  /** From `o` to `s` trivial equalities are opened one after the other, each while it is trivial, until there is none. */
  ghost predicate Eliminated(chain: seq<seq<Diff>>, o: seq<Diff>, s: seq<Diff>) {
    && chain != [] && chain[0] == o && chain[|chain| - 1] == s
    && (forall k :: 0 <= k < |chain| - 1 ==> OpensTrivial(chain[k], chain[k + 1]))
    && forall q :: 0 <= q < |s| ==> !Trivial(s, q)
  }

  /** Nothing is opened where nothing is trivial. */
  lemma NothingEliminated(chain: seq<seq<Diff>>, o: seq<Diff>, s: seq<Diff>)
    requires Eliminated(chain, o, s) && forall q :: 0 <= q < |o| ==> !Trivial(o, q)
    ensures chain == [o] && s == o
  {
    hide OpensTrivial;
    assert |chain| > 1 ==> OpensTrivial(chain[0], chain[0 + 1]);
    NotOpened(o, if |chain| > 1 then chain[1] else o);
  }

  lemma NotOpened(o: seq<Diff>, t: seq<Diff>)
    requires forall q :: 0 <= q < |o| ==> !Trivial(o, q)
    ensures !OpensTrivial(o, t)
  {
    hide Trivial, Opened;
  }

  /** The candidate is trivial once what has been read of the edits behind it is enough. */
  lemma CandidateTrivial(s: seq<Diff>, o: seq<Diff>, f: int, c: map<int, int>, d: int, e: Text, g: int, h: int, j: int, i: int)
    requires Eliminating(s, o, f, c, d, e, g, h, j, i) && e != [] && f < |s| && s[f].op != Equal
    requires var j', i' := j + Size(Units(Insert), s[f]), i + Size(Units(Delete), s[f]); |e| <= Max(g, h) && |e| <= Max(j', i')
    ensures d - 1 in c && Trivial(s, c[d - 1])
  {
    hide Trail, Lead, Stack, Settled, SameTexts, Trivial;
    TrailGrows(Units(Insert), s, f);
    TrailGrows(Units(Delete), s, f);
    EnoughBehind(s, c[d - 1], f + 1);
  }

  /** So is any equality with enough edits before it, and behind it as far as `f`. */
  lemma EnoughBehind(s: seq<Diff>, p: nat, f: nat)
    requires p < f <= |s| && s[p].op == Equal && s[p].text != [] && forall k :: p < k < f ==> s[k].op != Equal
    requires |s[p].text| <= Max(Trail(Units(Insert), s[..p]), Trail(Units(Delete), s[..p]))
    requires |s[p].text| <= Max(Trail(Units(Insert), s[..f]), Trail(Units(Delete), s[..f]))
    ensures Trivial(s, p)
  {
    hide Trail, Lead;
    LeadCovers(Units(Insert), s, p, f);
    LeadCovers(Units(Delete), s, p, f);
  }

  lemma {:induction false} OpenedTexts(s: seq<Diff>, p: nat)
    requires p < |s| && s[p].op == Equal
    ensures SameTexts(Opened(s, p), s) && Equalities(Opened(s, p)) == Equalities(s) - 1
  {
    var x, y, z := s[p], Diff(Delete, s[p].text), Diff(Insert, s[p].text);
    assert s[p..p + 1] == [x];
    Single(x);
    Single(y);
    Single(z);
    Pair(y, z);
    ReplaceStretch(s, p, 1, [y, z]);
  }

  /** Turns the equality at `p` into a deletion and an insertion, in place. */
  method OpenEquality(a: DiffList, p: nat)
    requires p < |a.s| && a.s[p].op == Equal
    modifies a
    ensures a.s == Opened(old(a.s), p)
  {
    var e := a.s[p].text;
    a.s := Splice(a.s, p, 0, [Diff(Delete, e)]);
    a.s := a.s[p + 1 := Diff(Insert, a.s[p + 1].text)];
  }

  /** Opening an equality further right leaves the judgement on an earlier one alone. */
  lemma TrivialLocal(s: seq<Diff>, p: nat, q: nat, m: nat)
    requires q < m < p < |s| && s[m].op == Equal
    ensures Trivial(Opened(s, p), q) <==> Trivial(s, q)
  {
    var t := Opened(s, p);
    assert t[..m + 1] == s[..m + 1] && t[..q] == s[..q] && t[q] == s[q];
    LeadLocal(Units(Insert), s, t, q + 1, m);
    LeadLocal(Units(Delete), s, t, q + 1, m);
  }

  /** The stack of equalities: entry `i` is the place of an equality before `f`, in rising order. */
  ghost predicate Stack(s: seq<Diff>, c: map<int, int>, d: int, f: int) {
    && (forall i :: 0 <= i < d ==> i in c && 0 <= c[i] < f && c[i] < |s| && s[c[i]].op == Equal)
    && forall i, k :: 0 <= i < k < d ==> c[i] < c[k]
  }

  /** `e` is the last equality before `f`, on top of the stack, with nothing but edits in between. */
  ghost predicate Candidate(s: seq<Diff>, c: map<int, int>, d: int, f: int, e: Text) {
    && d - 1 in c && 0 <= c[d - 1] < f <= |s|
    && s[c[d - 1]] == Diff(Equal, e)
    && forall k :: c[d - 1] < k < f ==> s[k].op != Equal
  }

  ghost predicate Settled(s: seq<Diff>, c: map<int, int>, d: int, f: int, e: Text) {
    forall q :: 0 <= q < f && (e != [] && d - 1 in c ==> q != c[d - 1]) ==> !Trivial(s, q)
  }

  /** State of the elimination loop; `g`, `h` are inserted and deleted before the candidate, `j`, `i` since. */
  ghost predicate Eliminating(s: seq<Diff>, o: seq<Diff>, f: int, c: map<int, int>, d: int, e: Text, g: int, h: int, j: int, i: int) {
    && 0 <= f <= |s| && SameTexts(s, o)
    && Stack(s, c, d, f)
    && j == Trail(Units(Insert), s[..f]) && i == Trail(Units(Delete), s[..f])
    && (e != [] ==>
          && Candidate(s, c, d, f, e)
          && g == Trail(Units(Insert), s[..c[d - 1]]) && h == Trail(Units(Delete), s[..c[d - 1]])
          && !(|e| <= Max(g, h) && |e| <= Max(j, i)))
    && Settled(s, c, d, f, e)
  }

  /** When the run after the candidate is over, the candidate is settled too. */
  lemma CandidateSettled(s: seq<Diff>, o: seq<Diff>, f: int, c: map<int, int>, d: int, e: Text, g: int, h: int, j: int, i: int)
    requires Eliminating(s, o, f, c, d, e, g, h, j, i) && (f == |s| || s[f].op == Equal)
    ensures forall q :: 0 <= q < f ==> !Trivial(s, q)
  {
    if e != [] {
      LeadIsTrail(Units(Insert), s, c[d - 1], f);
      LeadIsTrail(Units(Delete), s, c[d - 1], f);
      assert !Trivial(s, c[d - 1]);
    }
  }

  lemma PushEquality(s: seq<Diff>, o: seq<Diff>, f: int, c: map<int, int>, d: int, e: Text, g: int, h: int, j: int, i: int)
    requires Eliminating(s, o, f, c, d, e, g, h, j, i) && f < |s| && s[f].op == Equal
    ensures Eliminating(s, o, f + 1, c[d := f], d + 1, s[f].text, j, i, 0, 0)
  {
    hide SameTexts, Trail, Lead, Trivial, Settled, Stack;
    CandidateSettled(s, o, f, c, d, e, g, h, j, i);
    TrailGrows(Units(Insert), s, f);
    TrailGrows(Units(Delete), s, f);
    EmptyNotTrivial(s, f);
    SettledUpTo(s, f, c[d := f], d + 1);
    StackPush(s, c, d, f);
  }

  lemma SettledUpTo(s: seq<Diff>, f: int, c: map<int, int>, d: int)
    requires 0 <= f < |s| && d - 1 in c && c[d - 1] == f && (s[f].text == [] ==> !Trivial(s, f))
    requires forall q :: 0 <= q < f ==> !Trivial(s, q)
    ensures Settled(s, c, d, f + 1, s[f].text)
  {
    hide Trivial;
  }

  lemma StackPush(s: seq<Diff>, c: map<int, int>, d: int, f: int)
    requires Stack(s, c, d, f) && 0 <= f < |s| && s[f].op == Equal
    ensures Stack(s, c[d := f], d + 1, f + 1)
  {
  }

  lemma EmptyNotTrivial(s: seq<Diff>, q: int)
    requires 0 <= q < |s|
    ensures s[q].text == [] ==> !Trivial(s, q)
  {
  }

  lemma PassEdit(s: seq<Diff>, o: seq<Diff>, f: int, c: map<int, int>, d: int, e: Text, g: int, h: int, j: int, i: int)
    requires Eliminating(s, o, f, c, d, e, g, h, j, i) && f < |s| && s[f].op != Equal
    ensures var j', i' := j + Size(Units(Insert), s[f]), i + Size(Units(Delete), s[f]);
            e == [] || !(|e| <= Max(g, h) && |e| <= Max(j', i')) ==>
              Eliminating(s, o, f + 1, c, d, e, g, h, j', i')
  {
    TrailGrows(Units(Insert), s, f);
    TrailGrows(Units(Delete), s, f);
    EditNotTrivial(s, f);
    hide SameTexts, Trail, Lead, Trivial, Stack;
    assert Stack(s, c, d, f + 1) by { StackOn(s, c, d, f); }
  }

  lemma EditNotTrivial(s: seq<Diff>, q: int)
    requires 0 <= q < |s| && s[q].op != Equal
    ensures !Trivial(s, q)
  {
  }

  lemma StackOn(s: seq<Diff>, c: map<int, int>, d: int, f: int)
    requires Stack(s, c, d, f)
    ensures Stack(s, c, d, f + 1)
  {
  }

  /** Opening the candidate drops it and the equality before it from the stack; the search
      resumes behind the one before those. */
  lemma OpenCandidate(s: seq<Diff>, o: seq<Diff>, f: int, c: map<int, int>, d: int, e: Text, g: int, h: int, j: int, i: int)
    requires Eliminating(s, o, f, c, d, e, g, h, j, i) && e != []
    ensures d - 1 in c
    ensures var p := c[d - 1];
            0 <= p < |s| && s[p] == Diff(Equal, e)
            && (0 < d - 2 ==> d - 3 in c)
            && (var f' := if 0 < d - 2 then c[d - 3] + 1 else 0;
                Eliminating(Opened(s, p), o, f', c, d - 2, [], 0, 0, 0, 0))
            && Equalities(Opened(s, p)) < Equalities(s)
  {
    var p := c[d - 1];
    var t := Opened(s, p);
    OpenedTexts(s, p);
    if 0 < d - 2 {
      var m, f' := c[d - 2], c[d - 3] + 1;
      assert t[..m + 1] == s[..m + 1];
      forall k | 0 <= k < d - 2
        ensures 0 <= c[k] < f' && c[k] < |t| && t[c[k]].op == Equal
      {
        assert c[k] <= c[d - 3] < m;
        assert t[c[k]] == t[..m + 1][c[k]] == s[..m + 1][c[k]];
      }
      forall q | 0 <= q < f'
        ensures !Trivial(t, q)
      {
        TrivialLocal(s, p, q, m);
      }
      TrailGrows(Units(Insert), t, f' - 1);
      TrailGrows(Units(Delete), t, f' - 1);
    }
  }

  /** The elimination loop of `diff_cleanupSemantic`: opens trivial equalities, and nothing else, until none is left. */
  method EliminateTrivial(a: DiffList) returns (changes: bool, ghost chain: seq<seq<Diff>>)
    modifies a
    ensures SameTexts(a.s, old(a.s))
    ensures Eliminated(chain, old(a.s), a.s) && (changes <==> |chain| > 1)
    ensures (forall q :: 0 <= q < |old(a.s)| ==> !Trivial(old(a.s), q)) ==> !changes && a.s == old(a.s)
  {
    hide Trivial, SameTexts, Trail, Lead, Eliminating, Equalities, OpensTrivial, Opened;
    changes, chain := false, [a.s];
    var c: map<int, int> := map[];
    var d := 0;
    var e: Text := [];
    var f, g, h, j, i := 0, 0, 0, 0, 0;
    Begin(a.s);
    while f < |a.s|
      invariant Eliminating(a.s, old(a.s), f, c, d, e, g, h, j, i)
      invariant 0 <= f <= |a.s|
      invariant OpenedSoFar(chain, old(a.s), a.s) && (changes <==> |chain| > 1)
      decreases Equalities(a.s), |a.s| - f
    {
      if a.s[f].op == Equal {
        PushEquality(a.s, old(a.s), f, c, d, e, g, h, j, i);
        c, d := c[d := f], d + 1;
        g, h, j, i := j, i, 0, 0;
        e := a.s[f].text;
      } else {
        PassEdit(a.s, old(a.s), f, c, d, e, g, h, j, i);
        ghost var j0, i0 := j, i;
        if a.s[f].op == Insert {
          j := j + |a.s[f].text|;
        } else {
          i := i + |a.s[f].text|;
        }
        if e != [] && |e| <= Max(g, h) && |e| <= Max(j, i) {
          OpenCandidate(a.s, old(a.s), f, c, d, e, g, h, j0, i0);
          CandidateTrivial(a.s, old(a.s), f, c, d, e, g, h, j0, i0);
          OneMoreOpened(chain, old(a.s), a.s, c[d - 1]);
          OpenEquality(a, c[d - 1]);
          chain := chain + [a.s];
          d := d - 1;
          d := d - 1;
          f := if 0 < d then c[d - 1] else -1;
          i, j, h, g := 0, 0, 0, 0;
          e := [];
          changes := true;
        }
      }
      f := f + 1;
    }
    CandidateSettled(a.s, old(a.s), f, c, d, e, g, h, j, i);
    Finish(a.s, old(a.s), f, c, d, e, g, h, j, i);
    if forall q :: 0 <= q < |old(a.s)| ==> !Trivial(old(a.s), q) {
      NothingEliminated(chain, old(a.s), a.s);
    }
  }

  ghost predicate OpenedSoFar(chain: seq<seq<Diff>>, o: seq<Diff>, s: seq<Diff>) {
    && chain != [] && chain[0] == o && chain[|chain| - 1] == s
    && forall k :: 0 <= k < |chain| - 1 ==> OpensTrivial(chain[k], chain[k + 1])
  }

  lemma OneMoreOpened(chain: seq<seq<Diff>>, o: seq<Diff>, s: seq<Diff>, p: nat)
    requires OpenedSoFar(chain, o, s) && p < |s| && Trivial(s, p)
    ensures OpenedSoFar(chain + [Opened(s, p)], o, Opened(s, p))
  {
    hide Trivial, Opened;
    var u := chain + [Opened(s, p)];
    forall k | 0 <= k < |u| - 1
      ensures OpensTrivial(u[k], u[k + 1])
    {
      if k < |chain| - 1 {
        assert u[k] == chain[k] && u[k + 1] == chain[k + 1];
      } else {
        assert u[k] == s && u[k + 1] == Opened(s, p);
      }
    }
  }

  lemma Begin(s: seq<Diff>)
    ensures Eliminating(s, s, 0, map[], 0, [], 0, 0, 0, 0)
  {
  }

  lemma Finish(s: seq<Diff>, o: seq<Diff>, f: int, c: map<int, int>, d: int, e: Text, g: int, h: int, j: int, i: int)
    requires Eliminating(s, o, f, c, d, e, g, h, j, i)
    ensures SameTexts(s, o) && f <= |s|
  {
  }

  /** A list in normal form cannot hold up the straightening of its edits. */
  lemma CanonicalIsReady(s: seq<Diff>)
    requires Canonical(s)
    ensures Ready(s, 1)
  {
    forall k | 1 <= k < |s| - 1 && Enclosed(s, k)
      ensures s[k].text != [] || s[k + 1].text != []
    {
      assert !Slidable(s, k);
      assert s[k + 1].text == [] ==> StartsWith(s[k].text, s[k + 1].text);
    }
  }

  /** While straightening drops no equality, every entry keeps its operation; it never adds any. */
  lemma {:induction false} StraightenedOps(s: seq<Diff>, i: nat)
    requires i > 0
    ensures var r := Straightened(s, i);
            |r| <= |s| && (|r| == |s| ==> forall k :: 0 <= k < |s| ==> r[k].op == s[k].op)
    decreases |s| - i
  {
    hide Moved, Moves;
    if i < |s| - 1 {
      if Moves(s, i) {
        var u := s[..i - 1] + Moved(s, i) + s[i + 2..];
        MovedSize(s, i);
        StraightenedOps(u, i + |Moved(s, i)| - 2);
        assert |u| == |s| + |Moved(s, i)| - 3;
        if |u| == |s| {
          SameOps(s, i, u);
        }
      } else {
        StraightenedOps(s, i + 1);
      }
    }
  }

  lemma MovedOps(s: seq<Diff>, i: nat)
    requires 0 < i < |s| - 1 && Moves(s, i) && |Moved(s, i)| == 3
    ensures Moved(s, i)[0].op == Equal && Moved(s, i)[1].op == s[i].op && Moved(s, i)[2].op == Equal
  {
    hide Place;
  }

  lemma SameOps(s: seq<Diff>, i: nat, u: seq<Diff>)
    requires 0 < i < |s| - 1 && Moves(s, i) && u == s[..i - 1] + Moved(s, i) + s[i + 2..] && |u| == |s|
    ensures forall k :: 0 <= k < |s| ==> u[k].op == s[k].op
  {
    hide Moved, Place;
    MovedOps(s, i);
  }

  /** In a list in normal form pairs are apart, and they stay so when straightening drops no equality. */
  lemma {:induction false} StraightenedApart(n: seq<Diff>)
    requires Canonical(n) && |Straightened(n, 1)| == |n|
    ensures PairsApart(Straightened(n, 1))
  {
    hide Straightened, Slidable;
    StraightenedOps(n, 1);
    var r := Straightened(n, 1);
    forall i | PairAt(r, i)
      ensures (i > 0 ==> r[i - 1].op != Delete) && (i + 2 < |r| ==> r[i + 2].op != Insert) && !PairAt(r, i + 2)
    {
      assert i > 0 ==> Beside(n[i - 1], n[i]);
      assert i + 2 < |n| ==> Beside(n[i + 1], n[i + 2]);
    }
  }

  /** What `diff_cleanupSemantic` makes of `o`: elimination (giving `m`), merging if that changed anything (giving `n`),
      straightening, and pulling out overlaps. */
  ghost predicate CleanedUp(o: seq<Diff>, chain: seq<seq<Diff>>, m: seq<Diff>, n: seq<Diff>, s: seq<Diff>) {
    && Eliminated(chain, o, m)
    && n == (if |chain| == 1 then m else Normalized(m))
    && s == PulledAll(Straightened(n, 1))
  }

  /** A list with no trivial equality, and with nothing to straighten or to pull out, stays as it is. */
  lemma NothingToClean(o: seq<Diff>, chain: seq<seq<Diff>>, m: seq<Diff>, n: seq<Diff>, s: seq<Diff>)
    requires CleanedUp(o, chain, m, n, s) && forall q :: 0 <= q < |o| ==> !Trivial(o, q)
    requires (forall i :: 0 < i < |o| - 1 ==> !Moves(o, i)) && forall i :: 0 <= i < |o| ==> !LargeOverlap(o, i)
    ensures s == o
  {
    hide Trivial, Moves, LargeOverlap, Moved;
    NothingEliminated(chain, o, m);
    NothingMoves(o, 1);
    NothingPulled(o);
  }

  lemma {:induction false} NothingMoves(s: seq<Diff>, i: nat)
    requires i > 0 && forall k :: i <= k < |s| - 1 ==> !Moves(s, k)
    ensures Straightened(s, i) == s
    decreases |s| - i
  {
    hide Moves, Moved;
    if i < |s| - 1 {
      NothingMoves(s, i + 1);
    }
  }

  lemma {:induction false} NothingPulled(s: seq<Diff>)
    requires forall i :: 0 <= i < |s| ==> !LargeOverlap(s, i)
    ensures PulledAll(s) == s
  {
    hide OverlapLength, Half;
    if |s| >= 2 {
      if PairAt(s, 0) {
        assert !LargeOverlap(s, 0);
        RestNotLarge(s, 2);
        NothingPulled(s[2..]);
        assert s == [s[0], s[1]] + s[2..];
      } else {
        RestNotLarge(s, 1);
        NothingPulled(s[1..]);
      }
    }
  }

  lemma RestNotLarge(s: seq<Diff>, k: nat)
    requires k <= |s| && forall i :: 0 <= i < |s| ==> !LargeOverlap(s, i)
    ensures forall i :: 0 <= i < |s[k..]| ==> !LargeOverlap(s[k..], i)
  {
    hide OverlapLength, Half;
    forall i | 0 <= i < |s[k..]|
      ensures !LargeOverlap(s[k..], i)
    {
      assert !LargeOverlap(s, k + i);
    }
  }

  /** `diff_cleanupSemantic`. The texts stay throughout. It hangs only in the straightening of a list in which nothing was
      eliminated. */
  method CleanupSemantic(a: DiffList) returns (hangs: bool, ghost chain: seq<seq<Diff>>, ghost m: seq<Diff>, ghost n: seq<Diff>)
    modifies a
    ensures Eliminated(chain, old(a.s), m)
    ensures hangs <==> GetsStuck(n, 1)
    ensures hangs ==> n == old(a.s) && !Ready(old(a.s), 1)
    ensures !hangs ==> SameTexts(a.s, old(a.s)) && CleanedUp(old(a.s), chain, m, n, a.s)
    ensures !hangs && PairsApart(Straightened(n, 1)) ==> forall i :: 0 <= i < |a.s| ==> !LargeOverlap(a.s, i)
    ensures Canonical(n) && |Straightened(n, 1)| == |n| ==> PairsApart(Straightened(n, 1))
  {
    hide Text1, Text2, EditChars, Trivial, OpensTrivial, Canonical, Ready, Straightened, PulledAll, GetsStuck, PairsApart, LargeOverlap;
    var changes;
    changes, chain := EliminateTrivial(a);
    m := a.s;
    if changes {
      CleanupMerge(a);
      CanonicalIsReady(a.s);
    }
    n := a.s;
    if Ready(n, 1) {
      ReadyNeverStuck(n, 1);
    }
    hangs := CleanupSemanticLossless(a);
    if !hangs {
      StraightenedTexts(n, 1);
      PulledAllTexts(a.s);
      PullOverlaps(a);
      if PairsApart(Straightened(n, 1)) {
        NoLargeOverlapLeft(Straightened(n, 1));
      }
    }
    if Canonical(n) && |Straightened(n, 1)| == |n| {
      StraightenedApart(n);
    }
  }
}
