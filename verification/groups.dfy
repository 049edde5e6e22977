/** `GroupDivider`: puts the parties of a phase into groups of nearly equal output. */
module Groups {
  import opened Texts
  import opened Levenshtein

  datatype Option<T> = None | Some(value: T)

  /** An entry that has arrived; the entry itself may still be missing. */
  datatype Arrived = Arrived(entryId: string, entry: Option<int>)

  datatype Group = Group(id: Option<string>, text: Option<Text>, firstEntry: nat, entriesIds: seq<string>) {
    function Size(): nat {
      |entriesIds| + 1
    }
  }

  // ----- nearly equal texts

  const DistanceCap := 300

  /** The Levenshtein distance up to the cap; -1 beyond it. */
  function CappedDistance(t: Text, u: Text): int {
    if Lev(t, u) <= DistanceCap then Lev(t, u) else -1
  }

  /** `sameGroup(distancePct)`: below five percent of both lengths. Two empty texts have no percentage and are not the same. */
  predicate Same(t: Text, u: Text) {
    |t| + |u| > 0 && 100 * CappedDistance(t, u) < 5 * (|t| + |u|)
  }

  /** Two texts are the same exactly when they are more than 300 edits apart, however different, or the edits are fewer than
      one for every twenty units of both. */
  lemma {:induction false} SameMeans(t: Text, u: Text)
    ensures Same(t, u) <==> Lev(t, u) > 300 || 20 * Lev(t, u) < |t| + |u|
  {
    hide Lev;
    LevAtMostLonger(t, u);
  }

  // ----- first fit

  /** `home` puts the texts into groups represented by `reps`: every text is in the first group whose representative it
      is the same as, and opens a group if there is none. */
  ghost predicate FirstFit(ts: seq<Text>, reps: seq<nat>, home: seq<nat>) {
    && |home| == |ts|
    && (forall j :: 0 <= j < |reps| ==> reps[j] < |ts| && home[reps[j]] == j)
    && (forall i, j :: 0 <= i < j < |reps| ==> reps[i] < reps[j])
    && forall k :: 0 <= k < |ts| ==>
                     && home[k] < |reps| && reps[home[k]] <= k
                     && (k != reps[home[k]] ==> Same(ts[reps[home[k]]], ts[k]))
                     && forall j :: 0 <= j < home[k] ==> !Same(ts[reps[j]], ts[k])
  }

  /** No representative is the same as an earlier one. */
  lemma RepresentativesDiffer(ts: seq<Text>, reps: seq<nat>, home: seq<nat>, i: nat, j: nat)
    requires FirstFit(ts, reps, home) && i < j < |reps|
    ensures !Same(ts[reps[i]], ts[reps[j]])
  {
    assert home[reps[j]] == j;
  }

  /** First fit leaves no choice. */
  lemma {:induction false} FirstFitUnique(ts: seq<Text>, reps: seq<nat>, home: seq<nat>, reps': seq<nat>, home': seq<nat>, k: nat)
    requires FirstFit(ts, reps, home) && FirstFit(ts, reps', home') && k < |ts|
    ensures home[k] == home'[k] && reps[home[k]] == reps'[home'[k]]
    decreases k, 1
  {
    hide Same, FirstFit;
    FitAt(ts, reps, home, k);
    FitAt(ts, reps', home', k);
    NotBefore(ts, reps, home, reps', home', k);
    NotBefore(ts, reps', home', reps, home, k);
    if reps[home[k]] < k {
      FitAt(ts, reps, home, reps[home[k]]);
      FirstFitUnique(ts, reps, home, reps', home', reps[home[k]]);
    } else if reps'[home'[k]] < k {
      FitAt(ts, reps', home', reps'[home'[k]]);
      FirstFitUnique(ts, reps, home, reps', home', reps'[home'[k]]);
    }
  }

  lemma FitAt(ts: seq<Text>, reps: seq<nat>, home: seq<nat>, k: nat)
    requires FirstFit(ts, reps, home) && k < |ts|
    ensures |home| == |ts| && home[k] < |reps| && reps[home[k]] <= k && home[reps[home[k]]] == home[k]
    ensures k == reps[home[k]] || Same(ts[reps[home[k]]], ts[k])
    ensures forall j :: 0 <= j < home[k] ==> reps[j] < reps[home[k]] && home[reps[j]] == j && !Same(ts[reps[j]], ts[k])
  {
    hide Same;
  }

  lemma NotBefore(ts: seq<Text>, reps: seq<nat>, home: seq<nat>, reps': seq<nat>, home': seq<nat>, k: nat)
    requires FirstFit(ts, reps, home) && FirstFit(ts, reps', home') && k < |ts| == |home| == |home'|
    ensures home[k] <= home'[k]
    decreases k, 0
  {
    hide Same, FirstFit;
    FitAt(ts, reps, home, k);
    FitAt(ts, reps', home', k);
    var j := home'[k];
    if j < home[k] {
      var r := if k == reps'[j] then reps[j] else reps'[j];
      FitAt(ts, reps, home, r);
      FitAt(ts, reps', home', r);
      FirstFitUnique(ts, reps, home, reps', home', r);
    }
  }

  // ----- which entries are grouped, and how often

  predicate Present(a: Option<Arrived>) {
    a.Some? && a.value.entry.Some?
  }

  /** The texts that count: none where there is no entry. */
  function Cleared(arrived: seq<Option<Arrived>>, texts: seq<Option<Text>>): (r: seq<Option<Text>>)
    requires |arrived| == |texts|
    ensures |r| == |texts| && forall i :: 0 <= i < |r| ==> r[i] == if Present(arrived[i]) then texts[i] else None
  {
    seq(|texts|, i requires 0 <= i < |texts| => if Present(arrived[i]) then texts[i] else None)
  }

  /** The size of the group of missing entries: one that has not arrived starts it anew, and the others are lost. */
  function NullSize(arrived: seq<Option<Arrived>>): nat {
    if arrived == [] then 0
    else
      var n, a := NullSize(arrived[..|arrived| - 1]), arrived[|arrived| - 1];
      if Present(a) then n else if n == 0 || a.None? then 1 else n + 1
  }

  function Missing(arrived: seq<Option<Arrived>>): nat {
    if arrived == [] then 0
    else Missing(arrived[..|arrived| - 1]) + (if Present(arrived[|arrived| - 1]) then 0 else 1)
  }

  /** No missing entry is lost exactly when only the first one of them may not have arrived. */
  lemma {:induction false} NoneLost(arrived: seq<Option<Arrived>>)
    ensures NullSize(arrived) <= Missing(arrived) && (NullSize(arrived) == 0 <==> Missing(arrived) == 0)
    ensures Missing(arrived) == 0 <==> forall i :: 0 <= i < |arrived| ==> Present(arrived[i])
    ensures NullSize(arrived) == Missing(arrived) <==>
            forall i, k :: 0 <= i < k < |arrived| && !Present(arrived[i]) && !Present(arrived[k]) ==> arrived[k].Some?
  {
    if arrived != [] {
      var l := |arrived| - 1;
      var r := arrived[..l];
      NoneLost(r);
      assert forall i :: 0 <= i < l ==> r[i] == arrived[i];
      if !Present(arrived[l]) && Missing(r) > 0 {
        var i :| 0 <= i < l && !Present(r[i]);
        assert !Present(arrived[i]);
      }
      if i, k :| 0 <= i < k < l && !Present(r[i]) && !Present(r[k]) && r[k].None? {
        assert !Present(arrived[i]) && !Present(arrived[k]) && arrived[k].None?;
      }
    }
  }

  /** The places of texts from `from` on. */
  function TextsFrom(texts: seq<Option<Text>>, from: nat): (r: seq<nat>)
    ensures forall k :: 0 <= k < |r| ==> from <= r[k] < |texts| && texts[r[k]].Some?
    decreases |texts| - from
  {
    if from >= |texts| then []
    else (if texts[from].Some? then [from] else []) + TextsFrom(texts, from + 1)
  }

  function FirstText(texts: seq<Option<Text>>): (r: int)
    ensures -1 <= r < |texts|
    ensures r >= 0 ==> texts[r].Some?
    ensures forall k :: 0 <= k < |texts| && (r < 0 || k < r) ==> texts[k].None?
  {
    if texts == [] then -1
    else if texts[0].Some? then 0
    else
      var r := FirstText(texts[1..]);
      assert forall k :: 1 <= k < |texts| ==> texts[k] == texts[1..][k - 1];
      if r == -1 then -1 else r + 1
  }

  /** The order in which texts are put into groups: the first text, and then every one but that of the first entry. */
  function Visits(texts: seq<Option<Text>>): (r: seq<nat>)
    ensures forall k :: 0 <= k < |r| ==> r[k] < |texts| && texts[r[k]].Some?
  {
    if FirstText(texts) < 0 then [] else [FirstText(texts)] + TextsFrom(texts, 1)
  }

  /** When the first entry has a text, every text is visited once, in order; otherwise the first text is visited twice. */
  lemma {:induction false} VisitsAre(texts: seq<Option<Text>>)
    ensures FirstText(texts) <= 0 ==> Visits(texts) == TextsFrom(texts, 0)
    ensures FirstText(texts) > 0 ==> Visits(texts) == [FirstText(texts)] + TextsFrom(texts, 0) && FirstText(texts) in TextsFrom(texts, 0)
  {
    hide FirstText, TextsFrom;
    if FirstText(texts) < 0 {
      NoTexts(texts, 0);
    } else {
      NextText(texts, 0);
      if FirstText(texts) > 0 {
        Visited(texts, 0, FirstText(texts));
      }
    }
  }

  lemma NextText(texts: seq<Option<Text>>, from: nat)
    requires from < |texts|
    ensures TextsFrom(texts, from) == if texts[from].Some? then [from] + TextsFrom(texts, from + 1) else TextsFrom(texts, from + 1)
  {
    hide FirstText;
    assert [] + TextsFrom(texts, from + 1) == TextsFrom(texts, from + 1);
  }

  lemma {:induction false} NoTexts(texts: seq<Option<Text>>, from: nat)
    requires forall k :: 0 <= k < |texts| ==> texts[k].None?
    ensures TextsFrom(texts, from) == []
    decreases |texts| - from
  {
    if from < |texts| {
      NoTexts(texts, from + 1);
    }
  }

  lemma {:induction false} Visited(texts: seq<Option<Text>>, from: nat, k: nat)
    requires from <= k < |texts| && texts[k].Some?
    ensures k in TextsFrom(texts, from)
    decreases |texts| - from
  {
    if from < k {
      Visited(texts, from + 1, k);
    }
  }

  function TextsAt(texts: seq<Option<Text>>, at: seq<nat>): (r: seq<Text>)
    requires forall k :: 0 <= k < |at| ==> at[k] < |texts| && texts[at[k]].Some?
    ensures |r| == |at| && forall k :: 0 <= k < |at| ==> r[k] == texts[at[k]].value
  {
    seq(|at|, k requires 0 <= k < |at| => texts[at[k]].value)
  }

  // ----- groups

  /** The identifiers of the entries whose home is group `j`, in order. */
  function IdsIn(ids: seq<string>, home: seq<nat>, j: nat): seq<string>
    requires |ids| == |home|
  {
    if ids == [] then []
    else
      var l := |ids| - 1;
      IdsIn(ids[..l], home[..l], j) + (if home[l] == j then [ids[l]] else [])
  }

  lemma {:induction false} IdsInMore(ids: seq<string>, home: seq<nat>, id: string, h: nat, j: nat)
    requires |ids| == |home|
    ensures IdsIn(ids + [id], home + [h], j) == IdsIn(ids, home, j) + (if h == j then [id] else [])
  {
    assert (ids + [id])[..|ids|] == ids && (home + [h])[..|home|] == home;
  }

  lemma {:induction false} NobodyIn(ids: seq<string>, home: seq<nat>, j: nat)
    requires |ids| == |home| && forall k :: 0 <= k < |home| ==> home[k] != j
    ensures IdsIn(ids, home, j) == []
    decreases |ids|
  {
    if ids != [] {
      NobodyIn(ids[..|ids| - 1], home[..|ids| - 1], j);
    }
  }

  /** A group shows its representative, and lists it and the others that belong to it. */
  ghost predicate GroupRight(g: Group, at: seq<nat>, ts: seq<Text>, ids: seq<string>, reps: seq<nat>, home: seq<nat>, j: nat)
    requires |at| == |ts| == |ids| == |home| && j < |reps| && reps[j] < |at|
  {
    && g.firstEntry == at[reps[j]] && g.text == Some(ts[reps[j]]) && g.id.Some?
    && [g.id.value] + g.entriesIds == IdsIn(ids, home, j)
  }

  function Total(groups: seq<Group>): nat {
    if groups == [] then 0 else Total(groups[..|groups| - 1]) + groups[|groups| - 1].Size()
  }

  lemma {:induction false} TotalMore(groups: seq<Group>, g: Group)
    ensures Total(groups + [g]) == Total(groups) + g.Size()
  {
    assert (groups + [g])[..|groups|] == groups;
  }

  lemma {:induction false} TotalUpdate(groups: seq<Group>, j: nat, g: Group)
    requires j < |groups|
    ensures Total(groups[j := g]) == Total(groups) - groups[j].Size() + g.Size()
    decreases |groups|
  {
    var l := |groups| - 1;
    if j < l {
      TotalUpdate(groups[..l], j, g);
      assert groups[j := g][..l] == groups[..l][j := g];
    } else {
      assert groups[j := g][..l] == groups[..l];
    }
  }

  // ----- sorting

  ghost predicate Ascending(groups: seq<Group>) {
    forall i, j :: 0 <= i < j < |groups| ==> groups[i].Size() <= groups[j].Size()
  }

  /** The groups of one size, in order. */
  function OfSize(groups: seq<Group>, n: nat): seq<Group> {
    if groups == [] then []
    else OfSize(groups[..|groups| - 1], n) + (if groups[|groups| - 1].Size() == n then [groups[|groups| - 1]] else [])
  }

  /** Sorted by size, and groups of the same size in the same order as before. */
  ghost predicate StablySorted(groups: seq<Group>, before: seq<Group>) {
    && Ascending(groups) && multiset(groups) == multiset(before) && Total(groups) == Total(before)
    && forall n :: OfSize(groups, n) == OfSize(before, n)
  }

  lemma {:induction false} OfSizeConcat(s: seq<Group>, t: seq<Group>, n: nat)
    ensures OfSize(s + t, n) == OfSize(s, n) + OfSize(t, n)
    decreases |t|
  {
    if t == [] {
      assert s + t == s;
    } else {
      assert (s + t)[..|s + t| - 1] == s + t[..|t| - 1];
      OfSizeConcat(s, t[..|t| - 1], n);
    }
  }

  lemma {:induction false} TotalConcat(s: seq<Group>, t: seq<Group>)
    ensures Total(s + t) == Total(s) + Total(t)
    decreases |t|
  {
    if t == [] {
      assert s + t == s;
    } else {
      assert (s + t)[..|s + t| - 1] == s + t[..|t| - 1];
      TotalConcat(s, t[..|t| - 1]);
    }
  }

  lemma {:induction false} NoneOfSize(s: seq<Group>, n: nat)
    requires forall i :: 0 <= i < |s| ==> s[i].Size() != n
    ensures OfSize(s, n) == []
  {
    if s != [] {
      NoneOfSize(s[..|s| - 1], n);
    }
  }

  /** A group goes in behind those that are no larger. */
  lemma PutInOrder(s: seq<Group>, t: seq<Group>, g: Group, before: seq<Group>)
    requires StablySorted(s + t, before)
    requires (forall i :: 0 <= i < |s| ==> s[i].Size() <= g.Size()) && forall i :: 0 <= i < |t| ==> g.Size() < t[i].Size()
    ensures StablySorted(s + [g] + t, before + [g])
  {
    hide OfSize, Total;
    var u := s + [g] + t;
    forall i, j | 0 <= i < j < |u|
      ensures u[i].Size() <= u[j].Size()
    {
      assert i < |s| && j > |s| ==> (s + t)[i] == u[i] && (s + t)[j - 1] == u[j];
      assert j < |s| ==> (s + t)[i] == u[i] && (s + t)[j] == u[j];
      assert i > |s| ==> (s + t)[i - 1] == u[i] && (s + t)[j - 1] == u[j];
    }
    TotalConcat(s + [g], t);
    TotalConcat(s, [g]);
    TotalConcat(s, t);
    TotalConcat(before, [g]);
    assert multiset(u) == multiset(s + t) + multiset{g};
    assert multiset(before + [g]) == multiset(before) + multiset{g};
    forall n
      ensures OfSize(u, n) == OfSize(before + [g], n)
    {
      StillInOrder(s, t, g, before, n);
    }
  }

  lemma {:induction false} StillInOrder(s: seq<Group>, t: seq<Group>, g: Group, before: seq<Group>, n: nat)
    requires OfSize(s + t, n) == OfSize(before, n) && forall i :: 0 <= i < |t| ==> g.Size() < t[i].Size()
    ensures OfSize(s + [g] + t, n) == OfSize(before + [g], n)
  {
    hide OfSize, Total;
    OfSizeConcat(s + [g], t, n);
    OfSizeConcat(s, [g], n);
    OfSizeConcat(s, t, n);
    OfSizeConcat(before, [g], n);
    OneOfSize(g, n);
    var a, c := OfSize(s, n), OfSize(t, n);
    if g.Size() == n {
      NoneOfSize(t, n);
      assert a + [g] + [] == a + [] + [g];
    } else {
      assert a + [] + c == a + c + [];
    }
  }

  lemma {:induction false} OneOfSize(g: Group, n: nat)
    ensures OfSize([g], n) == if g.Size() == n then [g] else []
  {
    assert [g][..0] == [];
  }

  lemma PutAt(groups: seq<Group>, before: seq<Group>, g: Group, j: nat)
    requires StablySorted(groups, before) && j <= |groups|
    requires (j == 0 || groups[j - 1].Size() <= g.Size()) && forall k :: j <= k < |groups| ==> g.Size() < groups[k].Size()
    ensures StablySorted(groups[..j] + [g] + groups[j..], before + [g])
  {
    hide OfSize, Total;
    var s, t := groups[..j], groups[j..];
    assert groups == s + t;
    forall i | 0 <= i < |s|
      ensures s[i].Size() <= g.Size()
    {
      assert i < j - 1 ==> groups[i].Size() <= groups[j - 1].Size();
    }
    PutInOrder(s, t, g, before);
  }

  lemma NothingSorted()
    ensures StablySorted([], [])
  {
  }

  /** `Collections.sort`, which is stable, with the order by size. */
  method SortBySize(before: seq<Group>) returns (groups: seq<Group>)
    ensures StablySorted(groups, before)
  {
    hide StablySorted;
    groups := [];
    NothingSorted();
    var i := 0;
    while i < |before|
      invariant 0 <= i <= |before| && StablySorted(groups, before[..i])
    {
      var g, j := before[i], |groups|;
      while j > 0 && g.Size() < groups[j - 1].Size()
        invariant 0 <= j <= |groups| && forall k :: j <= k < |groups| ==> g.Size() < groups[k].Size()
      {
        j := j - 1;
      }
      assert before[..i + 1] == before[..i] + [g];
      PutAt(groups, before[..i], g, j);
      groups := groups[..j] + [g] + groups[j..];
      i := i + 1;
    }
    assert before[..i] == before;
  }

  // ----- the majority

  lemma {:induction false} TwoWithinTotal(groups: seq<Group>, i: nat, j: nat)
    requires i < j < |groups|
    ensures groups[i].Size() + groups[j].Size() <= Total(groups)
    decreases |groups|
  {
    var l := |groups| - 1;
    if j < l {
      TwoWithinTotal(groups[..l], i, j);
    } else {
      OneWithinTotal(groups[..l], i);
    }
  }

  lemma {:induction false} OneWithinTotal(groups: seq<Group>, i: nat)
    requires i < |groups|
    ensures groups[i].Size() <= Total(groups)
    decreases |groups|
  {
    if i < |groups| - 1 {
      OneWithinTotal(groups[..|groups| - 1], i);
    }
  }

  /** `getMajorityGroup`: the one group, if any, with more than half of all members. */
  method GetMajorityGroup(groups: seq<Group>) returns (r: Option<Group>)
    ensures r.Some? <==> exists i :: 0 <= i < |groups| && groups[i].Size() > Total(groups) / 2
    ensures r.Some? ==> exists i :: 0 <= i < |groups| && groups[i] == r.value && forall k :: 0 <= k < |groups| && k != i ==> 2 * groups[k].Size() < Total(groups)
  {
    hide Total;
    var size := 0;
    var i := 0;
    TotalOfNone();
    while i < |groups|
      invariant 0 <= i <= |groups| && size == Total(groups[..i])
    {
      assert groups[..i + 1] == groups[..i] + [groups[i]];
      TotalMore(groups[..i], groups[i]);
      size := size + groups[i].Size();
      i := i + 1;
    }
    assert groups[..i] == groups;
    i := 0;
    while i < |groups|
      invariant 0 <= i <= |groups| && forall k :: 0 <= k < i ==> groups[k].Size() <= size / 2
    {
      if groups[i].Size() > size / 2 {
        forall k | 0 <= k < |groups| && k != i
          ensures 2 * groups[k].Size() < size
        {
          TwoWithinTotal(groups, if i < k then i else k, if i < k then k else i);
        }
        return Some(groups[i]);
      }
      i := i + 1;
    }
    r := None;
  }

  lemma TotalOfNone()
    ensures Total([]) == 0
  {
  }

  // ----- the divider

  function EntryId(a: Option<Arrived>): string {
    if a.Some? then a.value.entryId else ""
  }

  function IdsAt(arrived: seq<Option<Arrived>>, at: seq<nat>): (r: seq<string>)
    requires forall k :: 0 <= k < |at| ==> at[k] < |arrived|
    ensures |r| == |at| && forall k :: 0 <= k < |at| ==> r[k] == EntryId(arrived[at[k]])
  {
    seq(|at|, k requires 0 <= k < |at| => EntryId(arrived[at[k]]))
  }

  /** Texts only where there are entries. */
  ghost predicate Matching(arrived: seq<Option<Arrived>>, texts: seq<Option<Text>>) {
    |arrived| == |texts| && forall k :: 0 <= k < |texts| && texts[k].Some? ==> Present(arrived[k])
  }

  /** The groups that the entries visited at `at` have been put into. */
  ghost predicate Divided(arrived: seq<Option<Arrived>>, texts: seq<Option<Text>>, at: seq<nat>, groups: seq<Group>, reps: seq<nat>, home: seq<nat>) {
    && Matching(arrived, texts) && (forall k :: 0 <= k < |at| ==> at[k] < |texts| && texts[at[k]].Some?)
    && var ts, ids := TextsAt(texts, at), IdsAt(arrived, at);
       && FirstFit(ts, reps, home) && |groups| == |reps|
       && (forall j :: 0 <= j < |reps| ==> GroupRight(groups[j], at, ts, ids, reps, home, j))
       && Total(groups) == |at|
  }

  ghost predicate FitsNone(groups: seq<Group>, t: Text, j: nat) {
    j <= |groups| && forall k :: 0 <= k < j ==> groups[k].text.Some? && !Same(groups[k].text.value, t)
  }

  lemma FitMore(ts: seq<Text>, reps: seq<nat>, home: seq<nat>, t: Text, j: nat)
    requires FirstFit(ts, reps, home) && j < |reps| && Same(ts[reps[j]], t) && forall k :: 0 <= k < j ==> !Same(ts[reps[k]], t)
    ensures FirstFit(ts + [t], reps, home + [j])
  {
    hide Same;
    var us, h := ts + [t], home + [j];
    assert us[|ts|] == t && h[|ts|] == j;
    forall k | 0 <= k < |us|
      ensures h[k] < |reps| && reps[h[k]] <= k && (k != reps[h[k]] ==> Same(us[reps[h[k]]], us[k])) && forall i :: 0 <= i < h[k] ==> !Same(us[reps[i]], us[k])
    {
      if k < |ts| {
        assert us[k] == ts[k] && h[k] == home[k];
        assert forall i :: 0 <= i < |reps| ==> us[reps[i]] == ts[reps[i]];
      }
    }
  }

  lemma FitNew(ts: seq<Text>, reps: seq<nat>, home: seq<nat>, t: Text)
    requires FirstFit(ts, reps, home) && forall k :: 0 <= k < |reps| ==> !Same(ts[reps[k]], t)
    ensures FirstFit(ts + [t], reps + [|ts|], home + [|reps|])
  {
    hide Same;
    var us, h, r := ts + [t], home + [|reps|], reps + [|ts|];
    assert us[|ts|] == t && h[|ts|] == |reps| && r[|reps|] == |ts|;
    forall k | 0 <= k < |us|
      ensures h[k] < |r| && r[h[k]] <= k && (k != r[h[k]] ==> Same(us[r[h[k]]], us[k])) && forall i :: 0 <= i < h[k] ==> !Same(us[r[i]], us[k])
    {
      assert forall i :: 0 <= i < |reps| ==> us[r[i]] == ts[reps[i]];
      if k < |ts| {
        assert us[k] == ts[k] && h[k] == home[k] && r[h[k]] == reps[home[k]];
      }
    }
  }

  lemma GroupsMore(at: seq<nat>, ts: seq<Text>, ids: seq<string>, reps: seq<nat>, home: seq<nat>, i: nat, t: Text, id: string, h: nat, g: Group, j: nat)
    requires |at| == |ts| == |ids| == |home| && j < |reps| && reps[j] < |at|
    requires GroupRight(g, at, ts, ids, reps, home, j)
    ensures GroupRight(if j == h then g.(entriesIds := g.entriesIds + [id]) else g, at + [i], ts + [t], ids + [id], reps, home + [h], j)
  {
    hide IdsIn;
    IdsInMore(ids, home, id, h, j);
    if j == h {
      assert [g.id.value] + (g.entriesIds + [id]) == [g.id.value] + g.entriesIds + [id];
    } else {
      assert IdsIn(ids, home, j) + [] == IdsIn(ids, home, j);
    }
  }

  lemma GroupOpens(at: seq<nat>, ts: seq<Text>, ids: seq<string>, reps: seq<nat>, home: seq<nat>, i: nat, t: Text, id: string)
    requires |at| == |ts| == |ids| == |home| && forall k :: 0 <= k < |home| ==> home[k] < |reps|
    ensures GroupRight(Group(Some(id), Some(t), i, []), at + [i], ts + [t], ids + [id], reps + [|at|], home + [|reps|], |reps|)
  {
    hide IdsIn;
    IdsInMore(ids, home, id, |reps|, |reps|);
    NobodyIn(ids, home, |reps|);
    assert [id] + [] == [id] && [] + [id] == [id];
  }

  /** The next text goes into the first group it fits. */
  lemma DividedMore(arrived: seq<Option<Arrived>>, texts: seq<Option<Text>>, at: seq<nat>, groups: seq<Group>, reps: seq<nat>, home: seq<nat>, i: nat, j: nat)
    requires Divided(arrived, texts, at, groups, reps, home) && i < |texts| && texts[i].Some?
    requires FitsNone(groups, texts[i].value, j) && j < |groups| && groups[j].text.Some? && Same(groups[j].text.value, texts[i].value)
    ensures Divided(arrived, texts, at + [i], groups[j := groups[j].(entriesIds := groups[j].entriesIds + [EntryId(arrived[i])])], reps, home + [j])
  {
    hide Same, FirstFit, IdsIn, Total;
    var ts, ids, t, id := TextsAt(texts, at), IdsAt(arrived, at), texts[i].value, EntryId(arrived[i]);
    assert TextsAt(texts, at + [i]) == ts + [t] && IdsAt(arrived, at + [i]) == ids + [id];
    RepsBound(ts, reps, home);
    forall k | 0 <= k < |reps|
      ensures groups[k].text == Some(ts[reps[k]])
    {
      assert GroupRight(groups[k], at, ts, ids, reps, home, k);
    }
    FitMore(ts, reps, home, t, j);
    var gs := groups[j := groups[j].(entriesIds := groups[j].entriesIds + [id])];
    TotalUpdate(groups, j, gs[j]);
    forall k | 0 <= k < |reps|
      ensures GroupRight(gs[k], at + [i], ts + [t], ids + [id], reps, home + [j], k)
    {
      GroupsMore(at, ts, ids, reps, home, i, t, id, j, groups[k], k);
    }
  }

  lemma RepsBound(ts: seq<Text>, reps: seq<nat>, home: seq<nat>)
    requires FirstFit(ts, reps, home)
    ensures |home| == |ts| && (forall j :: 0 <= j < |reps| ==> reps[j] < |ts|) && forall k :: 0 <= k < |home| ==> home[k] < |reps|
  {
    hide Same;
  }

  /** The next text fits no group and opens one. */
  lemma DividedNew(arrived: seq<Option<Arrived>>, texts: seq<Option<Text>>, at: seq<nat>, groups: seq<Group>, reps: seq<nat>, home: seq<nat>, i: nat)
    requires Divided(arrived, texts, at, groups, reps, home) && i < |texts| && texts[i].Some? && FitsNone(groups, texts[i].value, |groups|)
    ensures Divided(arrived, texts, at + [i], groups + [Group(Some(EntryId(arrived[i])), texts[i], i, [])], reps + [|at|], home + [|reps|])
  {
    hide Same, FirstFit, IdsIn, Total;
    var ts, ids, t, id := TextsAt(texts, at), IdsAt(arrived, at), texts[i].value, EntryId(arrived[i]);
    assert TextsAt(texts, at + [i]) == ts + [t] && IdsAt(arrived, at + [i]) == ids + [id];
    var g, r := Group(Some(id), Some(t), i, []), reps + [|at|];
    RepsBound(ts, reps, home);
    forall k | 0 <= k < |reps|
      ensures groups[k].text == Some(ts[reps[k]])
    {
      assert GroupRight(groups[k], at, ts, ids, reps, home, k);
    }
    FitNew(ts, reps, home, t);
    TotalMore(groups, g);
    GroupOpens(at, ts, ids, reps, home, i, t, id);
    forall k | 0 <= k < |r|
      ensures r[k] < |at| + 1 && GroupRight((groups + [g])[k], at + [i], ts + [t], ids + [id], r, home + [|reps|], k)
    {
      if k < |reps| {
        GroupsMore(at, ts, ids, reps, home, i, t, id, |reps|, groups[k], k);
        SameReps(groups[k], at + [i], ts + [t], ids + [id], reps, r, home + [|reps|], k);
      }
    }
  }

  lemma SameReps(g: Group, at: seq<nat>, ts: seq<Text>, ids: seq<string>, reps: seq<nat>, r: seq<nat>, home: seq<nat>, j: nat)
    requires |at| == |ts| == |ids| == |home| && j < |reps| && reps[j] < |at| && reps <= r
    requires GroupRight(g, at, ts, ids, reps, home, j)
    ensures GroupRight(g, at, ts, ids, r, home, j)
  {
    hide IdsIn;
  }

  lemma NoneDivided(arrived: seq<Option<Arrived>>, texts: seq<Option<Text>>)
    requires Matching(arrived, texts)
    ensures Divided(arrived, texts, [], [], [], [])
  {
    hide Total, IdsIn, Same, Present, GroupRight;
    TotalOfNone();
    NothingFits();
    assert TextsAt(texts, []) == [] && IdsAt(arrived, []) == [];
  }

  lemma NothingFits()
    ensures FirstFit([], [], [])
  {
  }

  lemma NullMore(arrived: seq<Option<Arrived>>, i: nat)
    requires i < |arrived|
    ensures NullSize(arrived[..i + 1]) ==
            var n := NullSize(arrived[..i]); if Present(arrived[i]) then n else if n == 0 || arrived[i].None? then 1 else n + 1
  {
    assert arrived[..i + 1][..i] == arrived[..i];
  }

  class GroupDivider {
    var arrivedEntries: seq<Option<Arrived>>
    var convertedEntries: array<Option<Text>>

    ghost predicate Valid()
      reads this
    {
      |arrivedEntries| == convertedEntries.Length
    }

    /** `init` for `n` entries. */
    constructor (n: nat)
      ensures Valid() && fresh(convertedEntries) && |arrivedEntries| == n
      ensures forall k :: 0 <= k < n ==> arrivedEntries[k] == None && convertedEntries[k] == None
    {
      arrivedEntries := seq(n, i => None);
      convertedEntries := new Option<Text>[n](i => None);
    }

    method AddArrival(i: nat, id: string, entry: Option<int>, text: Option<Text>)
      requires Valid() && i < |arrivedEntries|
      modifies this`arrivedEntries, convertedEntries
      ensures Valid() && arrivedEntries == old(arrivedEntries)[i := Some(Arrived(id, entry))]
      ensures convertedEntries[..] == old(convertedEntries[..])[i := if entry.None? then None else text]
    {
      arrivedEntries := arrivedEntries[i := Some(Arrived(id, entry))];
      if entry.None? {
        convertedEntries[i] := None;
      } else {
        convertedEntries[i] := text;
      }
    }

    method NewGroupByIndex(i: nat) returns (g: Group)
      requires Valid() && i < |arrivedEntries|
      ensures g == Group(if Present(arrivedEntries[i]) then Some(EntryId(arrivedEntries[i])) else None, convertedEntries[i], i, [])
    {
      g := Group(if Present(arrivedEntries[i]) then Some(arrivedEntries[i].value.entryId) else None, convertedEntries[i], i, []);
    }

    /** The first loop: clears the texts of missing entries and gathers these entries in a group. */
    method ClearMissing() returns (nullGroup: Option<Group>)
      requires Valid()
      modifies convertedEntries
      ensures convertedEntries[..] == Cleared(arrivedEntries, old(convertedEntries[..]))
      ensures nullGroup.Some? <==> NullSize(arrivedEntries) > 0
      ensures nullGroup.Some? ==> nullGroup.value.id == None && nullGroup.value.text == None && nullGroup.value.Size() == NullSize(arrivedEntries)
    {
      hide NullSize;
      nullGroup := None;
      ghost var texts := convertedEntries[..];
      NullOfNone();
      var i := 0;
      while i < |arrivedEntries|
        invariant 0 <= i <= |arrivedEntries|
        invariant forall k :: 0 <= k < |texts| ==> convertedEntries[k] == if k < i && !Present(arrivedEntries[k]) then None else texts[k]
        invariant nullGroup.Some? <==> NullSize(arrivedEntries[..i]) > 0
        invariant nullGroup.Some? ==> nullGroup.value.id == None && nullGroup.value.text == None && nullGroup.value.Size() == NullSize(arrivedEntries[..i])
      {
        NullMore(arrivedEntries, i);
        if !Present(arrivedEntries[i]) {
          convertedEntries[i] := None;
          if nullGroup.None? || arrivedEntries[i].None? {
            var g := NewGroupByIndex(i);
            nullGroup := Some(g);
          } else {
            nullGroup := Some(nullGroup.value.(entriesIds := nullGroup.value.entriesIds + [arrivedEntries[i].value.entryId]));
          }
        }
        i := i + 1;
      }
      assert arrivedEntries[..i] == arrivedEntries;
    }

    /** The place of the first group that takes a text, or their number. */
    method FindGroup(groups: seq<Group>, text: Text) returns (j: nat)
      requires forall k :: 0 <= k < |groups| ==> groups[k].text.Some?
      ensures j <= |groups| && FitsNone(groups, text, j)
      ensures j < |groups| ==> Same(groups[j].text.value, text)
    {
      hide Same;
      j := 0;
      while j < |groups|
        invariant 0 <= j <= |groups| && FitsNone(groups, text, j)
      {
        if Same(groups[j].text.value, text) {
          return;
        }
        j := j + 1;
      }
    }

    /** The second loop: puts the texts into groups, in the order of `Visits`. */
    method GroupTexts() returns (groups: seq<Group>, ghost reps: seq<nat>, ghost home: seq<nat>)
      requires Valid() && Matching(arrivedEntries, convertedEntries[..])
      ensures Divided(arrivedEntries, convertedEntries[..], Visits(convertedEntries[..]), groups, reps, home)
    {
      hide Same, Divided, TextsFrom, FirstText, FitsNone, Present;
      groups, reps, home := [], [], [];
      ghost var texts := convertedEntries[..];
      NoneDivided(arrivedEntries, texts);
      var nonNullIndex := FirstText(convertedEntries[..]);
      if nonNullIndex == -1 {
        return;
      }
      var g := NewGroupByIndex(nonNullIndex);
      ghost var at: seq<nat> := [nonNullIndex];
      FirstDivided(arrivedEntries, texts, nonNullIndex);
      groups, reps, home := [g], [0], [0];
      var i := 1;
      while i < convertedEntries.Length
        invariant 1 <= i && (convertedEntries.Length == 0 || i <= convertedEntries.Length)
        invariant Divided(arrivedEntries, texts, at, groups, reps, home)
        invariant at + TextsFrom(texts, i) == Visits(texts)
      {
        NextText(texts, i);
        if convertedEntries[i].Some? {
          TextsOfGroups(arrivedEntries, texts, at, groups, reps, home);
          var j := FindGroup(groups, convertedEntries[i].value);
          assert at + ([i] + TextsFrom(texts, i + 1)) == at + [i] + TextsFrom(texts, i + 1);
          if j < |groups| {
            DividedMore(arrivedEntries, texts, at, groups, reps, home, i, j);
            groups := groups[j := groups[j].(entriesIds := groups[j].entriesIds + [EntryId(arrivedEntries[i])])];
            home := home + [j];
          } else {
            DividedNew(arrivedEntries, texts, at, groups, reps, home, i);
            g := NewGroupByIndex(i);
            groups := groups + [g];
            reps, home := reps + [|at|], home + [|reps|];
          }
          at := at + [i];
        }
        i := i + 1;
      }
      NoMoreTexts(texts, i);
      assert at + [] == at;
    }

    /** `divideIntoGroups`: the groups of texts, sorted by size, and behind them the group of missing entries. */
    method DivideIntoGroups() returns (groups: seq<Group>, ghost sorted: seq<Group>, ghost before: seq<Group>, ghost reps: seq<nat>, ghost home: seq<nat>)
      requires Valid()
      modifies convertedEntries
      ensures convertedEntries[..] == Cleared(arrivedEntries, old(convertedEntries[..]))
      ensures Divided(arrivedEntries, convertedEntries[..], Visits(convertedEntries[..]), before, reps, home) && StablySorted(sorted, before)
      ensures if NullSize(arrivedEntries) == 0 then groups == sorted
              else exists g: Group :: groups == sorted + [g] && g.id == None && g.text == None && g.Size() == NullSize(arrivedEntries)
      ensures Total(groups) == |Visits(convertedEntries[..])| + NullSize(arrivedEntries)
      ensures (forall k :: 0 <= k < convertedEntries.Length ==> convertedEntries[k].Some?) ==> Total(groups) == |arrivedEntries|
    {
      hide Divided, StablySorted, NullSize, Total, Present, FirstText;
      var nullGroup := ClearMissing();
      ClearedMatching(arrivedEntries, old(convertedEntries[..]));
      before, reps, home := [], [], [];
      var rest;
      rest, reps, home := GroupTexts();
      before := rest;
      DividedTotal(arrivedEntries, convertedEntries[..], Visits(convertedEntries[..]), before, reps, home);
      groups := SortBySize(rest);
      sorted := groups;
      SortedTotal(sorted, before);
      if forall k :: 0 <= k < convertedEntries.Length ==> convertedEntries[k].Some? {
        EveryoneOnce(arrivedEntries, convertedEntries[..]);
      }
      if nullGroup.Some? {
        TotalMore(groups, nullGroup.value);
        groups := groups + [nullGroup.value];
      }
    }
  }

  lemma NullOfNone()
    ensures NullSize([]) == 0
  {
  }

  lemma ClearedMatching(arrived: seq<Option<Arrived>>, texts: seq<Option<Text>>)
    requires |arrived| == |texts|
    ensures Matching(arrived, Cleared(arrived, texts))
  {
    hide Present;
    var r := Cleared(arrived, texts);
    forall k | 0 <= k < |r| && r[k].Some?
      ensures Present(arrived[k])
    {
    }
  }

  lemma {:induction false} DividedTotal(arrived: seq<Option<Arrived>>, texts: seq<Option<Text>>, at: seq<nat>, groups: seq<Group>, reps: seq<nat>, home: seq<nat>)
    requires Divided(arrived, texts, at, groups, reps, home)
    ensures Total(groups) == |at|
  {
  }

  lemma {:induction false} SortedTotal(groups: seq<Group>, before: seq<Group>)
    requires StablySorted(groups, before)
    ensures Total(groups) == Total(before)
  {
  }

  lemma {:induction false} NoMoreTexts(texts: seq<Option<Text>>, from: nat)
    requires from >= |texts|
    ensures TextsFrom(texts, from) == []
  {
  }

  lemma TextsOfGroups(arrived: seq<Option<Arrived>>, texts: seq<Option<Text>>, at: seq<nat>, groups: seq<Group>, reps: seq<nat>, home: seq<nat>)
    requires Divided(arrived, texts, at, groups, reps, home)
    ensures |groups| == |reps| && forall k :: 0 <= k < |groups| ==> groups[k].text.Some?
  {
    hide IdsIn, FirstFit, Total;
    RepsBound(TextsAt(texts, at), reps, home);
    forall k | 0 <= k < |groups|
      ensures groups[k].text.Some?
    {
      assert GroupRight(groups[k], at, TextsAt(texts, at), IdsAt(arrived, at), reps, home, k);
    }
  }

  lemma FirstDivided(arrived: seq<Option<Arrived>>, texts: seq<Option<Text>>, i: nat)
    requires Matching(arrived, texts) && i < |texts| && texts[i].Some?
    ensures Present(arrived[i]) && Divided(arrived, texts, [i], [Group(Some(EntryId(arrived[i])), texts[i], i, [])], [0], [0])
  {
    hide Divided;
    NoneDivided(arrived, texts);
    DividedNew(arrived, texts, [], [], [], [], i);
    var none: seq<nat>, g := [], Group(Some(EntryId(arrived[i])), texts[i], i, []);
    assert none + [i] == [i] && none + [|none|] == [0] && [] + [g] == [g];
  }

  // ----- when everyone has arrived

  lemma {:induction false} AllTexts(texts: seq<Option<Text>>, from: nat)
    requires from <= |texts| && forall k :: 0 <= k < |texts| ==> texts[k].Some?
    ensures TextsFrom(texts, from) == seq(|texts| - from, k => from + k)
    decreases |texts| - from
  {
    if from < |texts| {
      AllTexts(texts, from + 1);
    }
  }

  /** When every entry has arrived with a text, each one is visited exactly once, in order, and none is missing. */
  lemma {:induction false} EveryoneOnce(arrived: seq<Option<Arrived>>, texts: seq<Option<Text>>)
    requires Matching(arrived, texts) && forall k :: 0 <= k < |texts| ==> texts[k].Some?
    ensures NullSize(arrived) == 0 && Visits(texts) == seq(|texts|, k => k)
  {
    NoneLost(arrived);
    VisitsAre(texts);
    AllTexts(texts, 0);
    assert seq(|texts| - 0, k => 0 + k) == seq(|texts|, k => k);
  }
}
