/** `BearScriptPhase.addArrival`: parties arrive concurrently, the first good one schedules a timeout,
    and either the last arrival or the timeout reports that the phase is finished. Each step below is one atomic action. */
module Phases {

  /** Where a party stands in `addArrival`. */
  datatype Arrival = Entering | CountingOk | Racing | Scheduling | Arriving | Finishing | Sending | Done

  /** Where a scheduled timeout stands. */
  datatype Timer = Waiting | Rechecking | SendingLate(report: Report) | Over

  datatype Report = Full | Partial

  /** The atomic counters, the threads, and the reports decided on and sent so far. */
  datatype Phase = Phase(
    ok: seq<bool>, duration: seq<int>,
    arrivals: seq<Arrival>, timers: seq<Timer>,
    entered: set<nat>, partiesOk: nat, minimalOkDuration: int, partiesArrived: int,
    decided: seq<Report>, sent: multiset<Report>)
  {
    function N(): nat {
      |arrivals|
    }
  }

  ghost predicate WellFormed(s: Phase) {
    |s.ok| == |s.duration| == s.N()
  }

  ghost predicate Init(s: Phase) {
    && WellFormed(s) && s.N() >= 1
    && (forall i :: 0 <= i < s.N() ==> s.arrivals[i] == Entering)
    && s.timers == [] && s.entered == {} && s.partiesOk == 0 && s.minimalOkDuration == -1 && s.partiesArrived == 0
    && s.decided == [] && s.sent == multiset{}
  }

  /** The next atomic action of party `i`. */
  function StepArrival(s: Phase, i: nat): Phase
    requires i < |s.arrivals| == |s.ok| == |s.duration| && s.arrivals[i] != Done
  {
    match s.arrivals[i]
    case Entering =>
      s.(entered := s.entered + {i}, arrivals := s.arrivals[i := if s.ok[i] then CountingOk else Arriving])
    case CountingOk =>
      s.(partiesOk := s.partiesOk + 1, arrivals := s.arrivals[i := Racing])
    case Racing =>
      if s.minimalOkDuration == -1
      then s.(minimalOkDuration := s.duration[i], arrivals := s.arrivals[i := Scheduling])
      else s.(arrivals := s.arrivals[i := Arriving])
    case Scheduling =>
      s.(timers := s.timers + [Waiting], arrivals := s.arrivals[i := Arriving])
    case Arriving =>
      s.(partiesArrived := s.partiesArrived + 1, arrivals := s.arrivals[i := Finishing])
    case Finishing =>
      if s.partiesArrived == s.N()
      then s.(partiesArrived := -1, decided := s.decided + [Full], arrivals := s.arrivals[i := Sending])
      else s.(arrivals := s.arrivals[i := Done])
    case Sending =>
      s.(sent := s.sent + multiset{Full}, arrivals := s.arrivals[i := Done])
  }

  /** The next atomic action of timeout `k`. */
  function StepTimer(s: Phase, k: nat): Phase
    requires k < |s.timers| && s.timers[k] != Over
  {
    match s.timers[k]
    case Waiting =>
      if s.partiesArrived == s.N()
      then s.(partiesArrived := -1, decided := s.decided + [Full], timers := s.timers[k := SendingLate(Full)])
      else s.(timers := s.timers[k := Rechecking])
    case Rechecking =>
      if s.partiesArrived == -1
      then s.(timers := s.timers[k := Over])
      else s.(decided := s.decided + [Partial], timers := s.timers[k := SendingLate(Partial)])
    case SendingLate(r) =>
      s.(sent := s.sent + multiset{r}, timers := s.timers[k := Over])
  }

  ghost predicate ArrivalMoves(s: Phase, i: nat) {
    WellFormed(s) && i < s.N() && s.arrivals[i] != Done
  }

  ghost predicate TimerMoves(s: Phase, k: nat) {
    k < |s.timers| && s.timers[k] != Over
  }

  ghost predicate Next(s: Phase, t: Phase) {
    || (exists i: nat :: ArrivalMoves(s, i) && t == StepArrival(s, i))
    || (exists k: nat :: TimerMoves(s, k) && t == StepTimer(s, k))
  }

  /** Nothing is left to do. */
  ghost predicate Quiet(s: Phase) {
    && (forall i :: 0 <= i < s.N() ==> s.arrivals[i] == Done)
    && forall k :: 0 <= k < |s.timers| ==> s.timers[k] == Over
  }

  /** One interleaving of all the threads, from the start. */
  ghost predicate Run(run: seq<Phase>) {
    && run != [] && Init(run[0])
    && forall m :: 0 <= m < |run| - 1 ==> Next(run[m], run[m + 1])
  }

  // ----- counting

  function Count<T(==)>(xs: seq<T>, want: T -> bool): nat {
    if xs == [] then 0 else (if want(xs[0]) then 1 else 0) + Count(xs[1..], want)
  }

  lemma {:induction false} CountUpdate<T>(xs: seq<T>, i: nat, x: T, want: T -> bool)
    requires i < |xs|
    ensures Count(xs[i := x], want) == Count(xs, want) - (if want(xs[i]) then 1 else 0) + (if want(x) then 1 else 0)
  {
    if i == 0 {
      assert xs[0 := x][1..] == xs[1..];
    } else {
      assert xs[i := x][1..] == xs[1..][i - 1 := x];
      CountUpdate(xs[1..], i - 1, x, want);
    }
  }

  lemma {:induction false} CountMore<T>(xs: seq<T>, x: T, want: T -> bool)
    ensures Count(xs + [x], want) == Count(xs, want) + (if want(x) then 1 else 0)
  {
    if xs == [] {
      assert [] + [x] == [x] && [x][1..] == [];
    } else {
      assert (xs + [x])[1..] == xs[1..] + [x];
      CountMore(xs[1..], x, want);
    }
  }

  lemma {:induction false} CountAll<T>(xs: seq<T>, want: T -> bool)
    ensures Count(xs, want) <= |xs|
    ensures Count(xs, want) == |xs| <==> forall i :: 0 <= i < |xs| ==> want(xs[i])
    ensures Count(xs, want) == 0 <==> forall i :: 0 <= i < |xs| ==> !want(xs[i])
  {
    if xs != [] {
      CountAll(xs[1..], want);
      assert forall i :: 1 <= i < |xs| ==> xs[i] == xs[1..][i - 1];
      assert (forall i :: 0 <= i < |xs| ==> want(xs[i])) ==> forall i :: 0 <= i < |xs[1..]| ==> want(xs[1..][i]) by {
        assert forall i :: 0 <= i < |xs[1..]| ==> xs[1..][i] == xs[i + 1];
      }
      assert (forall i :: 0 <= i < |xs| ==> !want(xs[i])) ==> forall i :: 0 <= i < |xs[1..]| ==> !want(xs[1..][i]) by {
        assert forall i :: 0 <= i < |xs[1..]| ==> xs[1..][i] == xs[i + 1];
      }
    }
  }

  predicate Counted(a: Arrival) {
    a.Finishing? || a.Sending? || a.Done?
  }

  predicate InRace(a: Arrival) {
    a.Scheduling?
  }

  predicate SendsFull(a: Arrival) {
    a.Sending?
  }

  predicate LateFull(t: Timer) {
    t == SendingLate(Full)
  }

  predicate LatePartial(t: Timer) {
    t == SendingLate(Partial)
  }

  predicate Ruled(t: Timer) {
    t.SendingLate? || t.Over?
  }

  function Fulls(s: Phase): nat {
    multiset(s.decided)[Full]
  }

  function Partials(s: Phase): nat {
    multiset(s.decided)[Partial]
  }

  // ----- what every step keeps

  /** The counter counts the arrivals until the full report is decided on, and is -1 from then on; that takes all of them.
      As long as it is not decided on, one who has counted the last arrival is about to decide on it. */
  ghost predicate CounterRight(s: Phase) {
    && Fulls(s) <= 1
    && s.partiesArrived == (if Fulls(s) == 1 then -1 else Count(s.arrivals, Counted))
    && (Fulls(s) == 1 ==> Count(s.arrivals, Counted) == s.N())
    && (Fulls(s) == 0 && Count(s.arrivals, Counted) == s.N() ==> exists i :: 0 <= i < s.N() && s.arrivals[i] == Finishing)
  }

  /** A party is entered before it is counted. */
  ghost predicate EnteredFirst(s: Phase) {
    forall i :: 0 <= i < s.N() && s.arrivals[i] != Entering ==> i in s.entered
  }

  predicate NoNegative(s: Phase) {
    forall i :: 0 <= i < |s.duration| ==> s.duration[i] >= 0
  }

  /** The winner of the race schedules the one timeout. */
  ghost predicate OneTimer(s: Phase)
    requires WellFormed(s)
  {
    NoNegative(s) ==>
      && s.minimalOkDuration >= -1
      && |s.timers| + Count(s.arrivals, InRace) == (if s.minimalOkDuration == -1 then 0 else 1)
  }

  /** A partial report is decided on by a timeout, before the full one. */
  ghost predicate PartialsFirst(s: Phase) {
    && Partials(s) <= Count(s.timers, Ruled)
    && forall m :: 0 <= m < |s.decided| - 1 ==> s.decided[m] == Partial
  }

  /** As long as the full report is not decided on, every timeout that has ruled has decided on a partial one. */
  ghost predicate PartialsMade(s: Phase) {
    Fulls(s) == 0 ==> Partials(s) == Count(s.timers, Ruled)
  }

  predicate BeforeRace(a: Arrival) {
    a.Entering? || a.CountingOk? || a.Racing?
  }

  /** A good party counts itself and then races for the timeout, which somebody has won when it is through; the duration
      of the race is that of a good party. A party that is not good does neither. */
  ghost predicate GoodRace(s: Phase)
    requires WellFormed(s)
  {
    && (forall i :: 0 <= i < s.N() && !s.ok[i] ==> !s.arrivals[i].CountingOk? && !s.arrivals[i].Racing? && !s.arrivals[i].Scheduling?)
    && (NoNegative(s) ==> forall i :: 0 <= i < s.N() && s.ok[i] && !BeforeRace(s.arrivals[i]) ==> s.minimalOkDuration != -1)
    && (s.minimalOkDuration != -1 ==> exists i :: 0 <= i < s.N() && s.ok[i] && !BeforeRace(s.arrivals[i]) && s.duration[i] == s.minimalOkDuration)
  }

  /** The party has counted itself as a good one. */
  predicate CountedOk(s: Phase, i: nat)
    requires i < |s.arrivals| == |s.ok|
  {
    s.ok[i] && !s.arrivals[i].Entering? && !s.arrivals[i].CountingOk?
  }

  ghost predicate OkRight(s: Phase)
    requires WellFormed(s)
  {
    s.partiesOk == |OksCounted(s)|
  }

  ghost function OksCounted(s: Phase): set<nat>
    requires WellFormed(s)
  {
    set i: nat | i < s.N() && CountedOk(s, i)
  }

  /** What has been decided on has been sent or is about to be. */
  ghost predicate NoneLost(s: Phase) {
    && s.sent[Full] + Count(s.arrivals, SendsFull) + Count(s.timers, LateFull) == Fulls(s)
    && s.sent[Partial] + Count(s.timers, LatePartial) == Partials(s)
  }

  ghost predicate Invariant(s: Phase) {
    && WellFormed(s) && s.N() >= 1
    && CounterRight(s) && EnteredFirst(s) && OneTimer(s) && PartialsFirst(s) && NoneLost(s)
    && PartialsMade(s) && GoodRace(s) && OkRight(s)
  }

  lemma InitKeeps(s: Phase)
    requires Init(s)
    ensures Invariant(s)
  {
    CountAll(s.arrivals, Counted);
    CountAll(s.arrivals, InRace);
    CountAll(s.arrivals, SendsFull);
    assert OksCounted(s) == {};
  }

  lemma Decided(d: seq<Report>, r: Report)
    ensures multiset(d + [r]) == multiset(d) + multiset{r}
  {
  }

  lemma CounterKept(s: Phase, i: nat)
    requires WellFormed(s) && CounterRight(s) && ArrivalMoves(s, i)
    ensures CounterRight(StepArrival(s, i))
  {
    hide Count;
    var t := StepArrival(s, i);
    CountUpdate(s.arrivals, i, t.arrivals[i], Counted);
    CountAll(s.arrivals, Counted);
    CountAll(t.arrivals, Counted);
    Decided(s.decided, Full);
    if Fulls(t) == 0 && Count(t.arrivals, Counted) == t.N() {
      if s.arrivals[i] == Arriving {
        assert t.arrivals[i] == Finishing;
      } else {
        var m :| 0 <= m < s.N() && s.arrivals[m] == Finishing;
        assert t.arrivals[m] == Finishing;
      }
    }
  }

  lemma CounterKeptByTimer(s: Phase, k: nat)
    requires WellFormed(s) && CounterRight(s) && TimerMoves(s, k)
    ensures CounterRight(StepTimer(s, k))
  {
    hide Count;
    CountAll(s.arrivals, Counted);
    Decided(s.decided, Full);
    Decided(s.decided, Partial);
  }

  lemma OthersKept(s: Phase, i: nat)
    requires Invariant(s) && ArrivalMoves(s, i)
    ensures var t := StepArrival(s, i); EnteredFirst(t) && OneTimer(t)
  {
    hide Count;
    var t := StepArrival(s, i);
    CountUpdate(s.arrivals, i, t.arrivals[i], InRace);
  }

  lemma ReportsKept(s: Phase, i: nat)
    requires Invariant(s) && ArrivalMoves(s, i)
    ensures var t := StepArrival(s, i); PartialsFirst(t) && NoneLost(t)
  {
    hide Count;
    var t := StepArrival(s, i);
    CountUpdate(s.arrivals, i, t.arrivals[i], SendsFull);
    CountMore(s.timers, Waiting, Ruled);
    CountMore(s.timers, Waiting, LateFull);
    CountMore(s.timers, Waiting, LatePartial);
    Decided(s.decided, Full);
    OnlyPartials(s);
  }

  /** Before the full report nothing but partial ones are decided on. */
  lemma OnlyPartials(s: Phase)
    requires PartialsFirst(s)
    ensures Fulls(s) == 0 ==> forall m :: 0 <= m < |s.decided| ==> s.decided[m] == Partial
  {
    if Fulls(s) == 0 && s.decided != [] {
      assert s.decided[|s.decided| - 1] in multiset(s.decided);
    }
  }

  lemma ReportsKeptByTimer(s: Phase, k: nat)
    requires Invariant(s) && TimerMoves(s, k)
    ensures var t := StepTimer(s, k); EnteredFirst(t) && OneTimer(t) && PartialsFirst(t) && NoneLost(t)
  {
    hide Count;
    var t := StepTimer(s, k);
    CountUpdate(s.timers, k, t.timers[k], Ruled);
    CountUpdate(s.timers, k, t.timers[k], LateFull);
    CountUpdate(s.timers, k, t.timers[k], LatePartial);
    Decided(s.decided, Full);
    Decided(s.decided, Partial);
    OnlyPartials(s);
  }

  lemma PartialsMadeKept(s: Phase, i: nat)
    requires Invariant(s) && ArrivalMoves(s, i)
    ensures PartialsMade(StepArrival(s, i))
  {
    hide Count;
    CountMore(s.timers, Waiting, Ruled);
    Decided(s.decided, Full);
  }

  lemma PartialsMadeKeptByTimer(s: Phase, k: nat)
    requires Invariant(s) && TimerMoves(s, k)
    ensures PartialsMade(StepTimer(s, k))
  {
    hide Count;
    CountUpdate(s.timers, k, StepTimer(s, k).timers[k], Ruled);
    Decided(s.decided, Full);
    Decided(s.decided, Partial);
  }

  lemma RaceKept(s: Phase, i: nat)
    requires WellFormed(s) && GoodRace(s) && ArrivalMoves(s, i)
    ensures GoodRace(StepArrival(s, i))
  {
    var t := StepArrival(s, i);
    hide NoNegative;
    RaceWon(s, i);
    assert t.arrivals == s.arrivals[i := t.arrivals[i]] && t.ok == s.ok && t.duration == s.duration;
  }

  lemma RaceWon(s: Phase, i: nat)
    requires WellFormed(s) && GoodRace(s) && ArrivalMoves(s, i)
    ensures var t := StepArrival(s, i);
            t.minimalOkDuration != -1 ==> exists k :: 0 <= k < t.N() && t.ok[k] && !BeforeRace(t.arrivals[k]) && t.duration[k] == t.minimalOkDuration
  {
    var t := StepArrival(s, i);
    if s.minimalOkDuration != -1 {
      var w :| 0 <= w < s.N() && s.ok[w] && !BeforeRace(s.arrivals[w]) && s.duration[w] == s.minimalOkDuration;
      assert !BeforeRace(t.arrivals[w]);
    } else if t.minimalOkDuration != -1 {
      assert s.ok[i] && !BeforeRace(t.arrivals[i]);
    }
  }

  lemma OkKept(s: Phase, i: nat)
    requires WellFormed(s) && GoodRace(s) && OkRight(s) && ArrivalMoves(s, i)
    ensures OkRight(StepArrival(s, i))
  {
    var t := StepArrival(s, i);
    assert s.arrivals[i].CountingOk? ==> s.ok[i];
    hide GoodRace;
    OneMoves(s, t, i, t.arrivals[i]);
    assert s.arrivals[i].CountingOk? ==> t.partiesOk == s.partiesOk + 1 && CountedOk(t, i) && !CountedOk(s, i);
    assert !s.arrivals[i].CountingOk? ==> t.partiesOk == s.partiesOk && (CountedOk(t, i) <==> CountedOk(s, i));
  }

  lemma OneMoves(s: Phase, t: Phase, i: nat, a: Arrival)
    requires WellFormed(s) && i < s.N() && t.arrivals == s.arrivals[i := a] && t.ok == s.ok && t.duration == s.duration
    ensures |OksCounted(t)| - (if CountedOk(t, i) then 1 else 0) == |OksCounted(s)| - (if CountedOk(s, i) then 1 else 0)
  {
    var x, y := OksCounted(s), OksCounted(t);
    assert y - {i} == x - {i};
    assert i in x ==> x == (x - {i}) + {i};
    assert i in y ==> y == (y - {i}) + {i};
    assert i !in x ==> x == x - {i};
    assert i !in y ==> y == y - {i};
  }

  lemma NextKeeps(s: Phase, t: Phase)
    requires Invariant(s) && Next(s, t)
    ensures Invariant(t) && t.N() == s.N() && t.ok == s.ok && t.duration == s.duration
  {
    hide CounterRight, EnteredFirst, OneTimer, PartialsFirst, NoneLost, PartialsMade, GoodRace, OkRight;
    if i: nat :| ArrivalMoves(s, i) && t == StepArrival(s, i) {
      CounterKept(s, i);
      OthersKept(s, i);
      ReportsKept(s, i);
      PartialsMadeKept(s, i);
      RaceKept(s, i);
      OkKept(s, i);
    } else {
      var k: nat :| TimerMoves(s, k) && t == StepTimer(s, k);
      CounterKeptByTimer(s, k);
      ReportsKeptByTimer(s, k);
      PartialsMadeKeptByTimer(s, k);
      assert GoodRace(t) && OkRight(t) by {
        TimerRacesNot(s, k);
      }
    }
  }

  lemma TimerRacesNot(s: Phase, k: nat)
    requires Invariant(s) && TimerMoves(s, k)
    ensures GoodRace(StepTimer(s, k)) && OkRight(StepTimer(s, k))
  {
    hide CounterRight, EnteredFirst, OneTimer, PartialsFirst, NoneLost, PartialsMade;
    var t := StepTimer(s, k);
    assert t.arrivals == s.arrivals && t.ok == s.ok && t.duration == s.duration && t.minimalOkDuration == s.minimalOkDuration;
    assert OksCounted(t) == OksCounted(s);
  }

  // ----- whole runs

  lemma {:induction false} AllKept(run: seq<Phase>, m: nat)
    requires Run(run) && m < |run|
    ensures Invariant(run[m]) && run[m].N() == run[0].N() && run[m].ok == run[0].ok && run[m].duration == run[0].duration
  {
    hide Invariant, Init, Next;
    if m == 0 {
      InitKeeps(run[0]);
    } else {
      AllKept(run, m - 1);
      assert Next(run[m - 1], run[m - 1 + 1]);
      NextKeeps(run[m - 1], run[m]);
    }
  }

  /** At every point of every interleaving: at most one full report is decided on, by the step that takes the counter
      to -1, with all parties entered; and when no duration is negative, at most one timeout is scheduled and at most one
      partial report decided on, before the full one. */
  lemma AtMostOnce(run: seq<Phase>, m: nat)
    requires Run(run) && m < |run|
    ensures var s := run[m];
            && Fulls(s) <= 1 && (Fulls(s) == 1 <==> s.partiesArrived == -1)
            && (Fulls(s) == 1 ==> forall i :: 0 <= i < s.N() ==> i in s.entered)
            && (NoNegative(s) ==>
                  |s.timers| <= 1 && (s.decided == [] || s.decided == [Full] || s.decided == [Partial] || s.decided == [Partial, Full]))
  {
    hide GoodRace, OkRight, PartialsMade;
    AllKept(run, m);
    var s := run[m];
    CountAll(s.arrivals, Counted);
    CountAll(s.timers, Ruled);
    if NoNegative(s) {
      FewReports(s.decided);
    }
  }

  lemma FewReports(d: seq<Report>)
    requires multiset(d)[Partial] <= 1 && multiset(d)[Full] <= 1 && forall m :: 0 <= m < |d| - 1 ==> d[m] == Partial
    ensures d == [] || d == [Full] || d == [Partial] || d == [Partial, Full]
  {
    if |d| >= 2 {
      if d[1] == Partial {
        TwoOf(d);
      }
      assert d[0] == Partial && d[1] == Full;
      assert |d| == 2;
      assert d == [Partial, Full];
    } else if |d| == 1 {
      assert d[0] == Full || d[0] == Partial;
      assert d == [Full] || d == [Partial];
    }
  }

  lemma TwoOf(d: seq<Report>)
    requires |d| >= 2 && d[0] == d[1] == Partial
    ensures multiset(d)[Partial] >= 2
  {
    assert d == [Partial, Partial] + d[2..];
    assert multiset(d) == multiset([Partial, Partial]) + multiset(d[2..]);
    assert multiset([Partial, Partial])[Partial] == 2;
  }

  /** No timeout passes in silence: as long as the full report is not decided on, as many partial ones are as timeouts
      have ruled; so if one is over, a partial report has been decided on. */
  lemma TimeoutsReport(run: seq<Phase>, m: nat, k: nat)
    requires Run(run) && m < |run| && run[m].partiesArrived != -1
    ensures var s := run[m];
            && multiset(s.decided)[Partial] == |s.decided| == Count(s.timers, Ruled)
            && (k < |s.timers| && s.timers[k] == Over ==> Partial in s.decided)
  {
    AllKept(run, m);
    var s := run[m];
    OnlyPartials(s);
    AllPartial(s.decided);
    CountAll(s.timers, Ruled);
    if k < |s.timers| && s.timers[k] == Over {
      assert Ruled(s.timers[k]);
      assert s.decided[0] == Partial;
    }
  }

  lemma {:induction false} AllPartial(d: seq<Report>)
    requires forall m :: 0 <= m < |d| ==> d[m] == Partial
    ensures multiset(d)[Partial] == |d|
  {
    if d != [] {
      AllPartial(d[1..]);
      assert d == [d[0]] + d[1..];
      assert multiset(d) == multiset{Partial} + multiset(d[1..]);
    }
  }

  /** A timeout that first looks when everyone has been counted decides on no partial report, and there is no other. */
  lemma {:induction false} LateTimeoutIsSilent(run: seq<Phase>, m: nat, m': nat)
    requires Run(run) && m <= m' < |run| && NoNegative(run[0])
    requires var s := run[m];
             && (s.partiesArrived == s.N() || s.partiesArrived == -1)
             && forall k :: 0 <= k < |s.timers| ==> s.timers[k] == Waiting
    ensures Partials(run[m']) == 0 && (run[m'].partiesArrived == run[m'].N() || run[m'].partiesArrived == -1)
    ensures run[m'].partiesArrived == -1 || forall k :: 0 <= k < |run[m'].timers| ==> run[m'].timers[k] == Waiting
  {
    hide Init, Next, EnteredFirst, OneTimer, NoneLost, PartialsMade, GoodRace, OkRight, CounterRight, PartialsFirst;
    AllKept(run, m');
    if m < m' {
      LateTimeoutIsSilent(run, m, m' - 1);
      AllKept(run, m' - 1);
      assert Next(run[m' - 1], run[m' - 1 + 1]);
      StaysSilent(run[m' - 1], run[m']);
    } else {
      NotRuled(run[m]);
    }
  }

  lemma NotRuled(s: Phase)
    requires PartialsFirst(s) && forall k :: 0 <= k < |s.timers| ==> s.timers[k] == Waiting
    ensures Partials(s) == 0
  {
    CountAll(s.timers, Ruled);
  }

  lemma StaysSilent(s: Phase, t: Phase)
    requires Invariant(s) && Next(s, t) && Partials(s) == 0 && (s.partiesArrived == s.N() || s.partiesArrived == -1)
    requires s.partiesArrived == -1 || forall k :: 0 <= k < |s.timers| ==> s.timers[k] == Waiting
    ensures Partials(t) == 0 && (t.partiesArrived == t.N() || t.partiesArrived == -1)
    ensures t.partiesArrived == -1 || forall k :: 0 <= k < |t.timers| ==> t.timers[k] == Waiting
  {
    hide Count, EnteredFirst, OneTimer, NoneLost, PartialsMade, GoodRace, OkRight, PartialsFirst;
    if s.partiesArrived == -1 {
      StaysDecided(s, t);
    } else {
      CountAll(s.arrivals, Counted);
      Decided(s.decided, Full);
    }
  }

  /** The counter never leaves -1. */
  lemma {:induction false} Absorbing(run: seq<Phase>, m: nat, m': nat)
    requires Run(run) && m <= m' < |run| && run[m].partiesArrived == -1
    ensures run[m'].partiesArrived == -1 && run[m'].decided == run[m].decided
  {
    hide Init, Next, CounterRight, EnteredFirst, OneTimer, PartialsFirst, NoneLost, PartialsMade, GoodRace, OkRight;
    if m < m' {
      Absorbing(run, m, m' - 1);
      AllKept(run, m' - 1);
      assert Next(run[m' - 1], run[m' - 1 + 1]);
      StaysDecided(run[m' - 1], run[m']);
    }
  }

  lemma StaysDecided(s: Phase, t: Phase)
    requires WellFormed(s) && s.N() >= 1 && CounterRight(s) && s.partiesArrived == -1 && Next(s, t)
    ensures t.partiesArrived == -1 && t.decided == s.decided
  {
    hide Count;
    CountAll(s.arrivals, Counted);
  }

  /** When nothing is left to do, exactly one full report has been sent, and every report decided on has been sent. */
  lemma OneFullReport(run: seq<Phase>)
    requires Run(run) && Quiet(run[|run| - 1])
    ensures var s := run[|run| - 1]; s.sent[Full] == 1 && s.partiesArrived == -1 && s.sent == multiset(s.decided)
  {
    var s := run[|run| - 1];
    AllKept(run, |run| - 1);
    CountAll(s.arrivals, Counted);
    CountAll(s.arrivals, SendsFull);
    CountAll(s.timers, LateFull);
    CountAll(s.timers, LatePartial);
    forall r: Report
      ensures s.sent[r] == multiset(s.decided)[r]
    {
      assert r == Full || r == Partial;
    }
  }

  /** When nothing is left to do, everyone has entered and exactly the good parties are counted as such; when no
      duration is negative, exactly one timeout was scheduled if there is a good party, with the duration of one, and
      none otherwise. */
  lemma OneTimeout(run: seq<Phase>)
    requires Run(run) && Quiet(run[|run| - 1])
    ensures var s := run[|run| - 1];
            && WellFormed(s)
            && (forall i :: 0 <= i < s.N() ==> i in s.entered)
            && s.partiesOk == |set i: nat | i < s.N() && s.ok[i]|
            && (NoNegative(s) ==>
                  if exists i :: 0 <= i < s.N() && s.ok[i]
                  then |s.timers| == 1 && exists i :: 0 <= i < s.N() && s.ok[i] && s.duration[i] == s.minimalOkDuration
                  else |s.timers| == 0)
  {
    var s := run[|run| - 1];
    AllKept(run, |run| - 1);
    CountAll(s.arrivals, InRace);
    assert OksCounted(s) == (set i: nat | i < s.N() && s.ok[i]);
  }

  // ----- every run comes to an end

  /** How many actions a party has before it at most, with those of the timeout it may schedule. */
  function Ahead(a: Arrival): nat {
    match a
    case Entering => 10
    case CountingOk => 9
    case Racing => 8
    case Scheduling => 7
    case Arriving => 3
    case Finishing => 2
    case Sending => 1
    case Done => 0
  }

  function AheadOf(t: Timer): nat {
    match t
    case Waiting => 3
    case Rechecking => 2
    case SendingLate(_) => 1
    case Over => 0
  }

  function Sum<T>(xs: seq<T>, f: T -> nat): nat {
    if xs == [] then 0 else f(xs[0]) + Sum(xs[1..], f)
  }

  lemma {:induction false} SumUpdate<T>(xs: seq<T>, i: nat, x: T, f: T -> nat)
    requires i < |xs|
    ensures Sum(xs[i := x], f) == Sum(xs, f) - f(xs[i]) + f(x)
  {
    if i == 0 {
      assert xs[0 := x][1..] == xs[1..];
    } else {
      assert xs[i := x][1..] == xs[1..][i - 1 := x];
      SumUpdate(xs[1..], i - 1, x, f);
    }
  }

  lemma {:induction false} SumMore<T>(xs: seq<T>, x: T, f: T -> nat)
    ensures Sum(xs + [x], f) == Sum(xs, f) + f(x)
  {
    if xs == [] {
      assert [] + [x] == [x] && [x][1..] == [];
    } else {
      assert (xs + [x])[1..] == xs[1..] + [x];
      SumMore(xs[1..], x, f);
    }
  }

  function Work(s: Phase): nat {
    Sum(s.arrivals, Ahead) + Sum(s.timers, AheadOf)
  }

  lemma WorkShrinks(s: Phase, t: Phase)
    requires Next(s, t)
    ensures Work(t) < Work(s)
  {
    hide Work, StepArrival, StepTimer;
    if i: nat :| ArrivalMoves(s, i) && t == StepArrival(s, i) {
      ArrivalWorks(s, i);
    } else {
      var k: nat :| TimerMoves(s, k) && t == StepTimer(s, k);
      TimerWorks(s, k);
    }
  }

  lemma ArrivalWorks(s: Phase, i: nat)
    requires ArrivalMoves(s, i)
    ensures Work(StepArrival(s, i)) < Work(s)
  {
    hide Sum;
    SumUpdate(s.arrivals, i, StepArrival(s, i).arrivals[i], Ahead);
    SumMore(s.timers, Waiting, AheadOf);
  }

  lemma TimerWorks(s: Phase, k: nat)
    requires TimerMoves(s, k)
    ensures Work(StepTimer(s, k)) < Work(s)
  {
    hide Sum;
    SumUpdate(s.timers, k, StepTimer(s, k).timers[k], AheadOf);
  }

  ghost predicate Stuck(s: Phase) {
    forall t :: !Next(s, t)
  }

  /** No run is longer than ten actions for each party, and a run that cannot go on is quiet. */
  lemma RunsEnd(run: seq<Phase>)
    requires Run(run)
    ensures |run| - 1 <= 10 * run[0].N()
    ensures Stuck(run[|run| - 1]) ==> Quiet(run[|run| - 1])
  {
    WorkLeft(run, |run| - 1);
    FirstWork(run[0].arrivals);
    var s := run[|run| - 1];
    AllKept(run, |run| - 1);
    if !Quiet(s) {
      if i :| 0 <= i < s.N() && s.arrivals[i] != Done {
        assert ArrivalMoves(s, i);
        assert Next(s, StepArrival(s, i));
      } else {
        var k :| 0 <= k < |s.timers| && s.timers[k] != Over;
        assert TimerMoves(s, k);
        assert Next(s, StepTimer(s, k));
      }
    }
  }

  lemma {:induction false} FirstWork(xs: seq<Arrival>)
    requires forall i :: 0 <= i < |xs| ==> xs[i] == Entering
    ensures Sum(xs, Ahead) == 10 * |xs|
  {
    if xs != [] {
      FirstWork(xs[1..]);
    }
  }

  lemma {:induction false} WorkLeft(run: seq<Phase>, m: nat)
    requires Run(run) && m < |run|
    ensures Work(run[m]) + m <= Work(run[0])
  {
    hide Work, Next;
    if m > 0 {
      WorkLeft(run, m - 1);
      assert Next(run[m - 1], run[m - 1 + 1]);
      WorkShrinks(run[m - 1], run[m]);
    }
  }
}
