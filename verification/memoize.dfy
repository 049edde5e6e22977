/** `VariablesLayer.atomicMemoize`: concurrent lookups of one memoized variable in one layer.
    Each step below is one atomic action of one of the threads. */
module Memoize {

  /** How an evaluation ends: errors, unlike exceptions, are not caught. */
  datatype Outcome = Value(value: int) | Exception(cause: int) | Error(error: int)

  /** What the layer holds under the name of the variable. */
  datatype Slot = Empty | Constant(value: int) | FutureOf(owner: nat)

  /** What the caller of a lookup gets. */
  datatype Answer = Returned(value: int) | Rethrown(cause: int) | NotAFuture | Died(error: int)

  /** Where a lookup stands. */
  datatype Lookup = Reading | Claiming | Evaluating | Completing(outcome: Outcome) | Awaiting(future: nat) | Done(answer: Answer)

  datatype Option<T> = None | Some(value: T)

  /** `outcome` is what the evaluator has come to, once it has run. */
  datatype State = State(slot: Slot, futures: seq<Option<Outcome>>, lookups: seq<Lookup>, evaluations: nat, outcome: Option<Outcome>)

  ghost predicate Init(s: State) {
    && !s.slot.FutureOf? && s.evaluations == 0 && s.outcome == None && |s.futures| == |s.lookups|
    && (forall i :: 0 <= i < |s.lookups| ==> s.lookups[i] == Reading && s.futures[i] == None)
  }

  function AnswerOf(o: Outcome): Answer {
    match o
    case Value(v) => Returned(v)
    case Exception(e) => Rethrown(e)
    case Error(e) => Died(e)
  }

  ghost predicate Enabled(s: State, i: nat) {
    && i < |s.lookups| == |s.futures| && !s.lookups[i].Done?
    && (s.lookups[i].Awaiting? ==> s.lookups[i].future < |s.futures| && s.futures[s.lookups[i].future].Some?)
  }

  /** The next action of lookup `i`; `o` is how the evaluation ends if this is the evaluation. */
  ghost function Step(s: State, i: nat, o: Outcome): State
    requires Enabled(s, i)
  {
    match s.lookups[i]
    case Reading =>
      s.(lookups := s.lookups[i := if s.slot.FutureOf? then Awaiting(s.slot.owner) else Claiming])
    case Claiming =>
      (match s.slot
       case Empty => s.(slot := FutureOf(i), lookups := s.lookups[i := Evaluating])
       case Constant(_) => s.(lookups := s.lookups[i := Done(NotAFuture)])
       case FutureOf(k) => s.(lookups := s.lookups[i := Awaiting(k)]))
    case Evaluating =>
      s.(evaluations := s.evaluations + 1, outcome := Some(o), lookups := s.lookups[i := if o.Error? then Done(Died(o.error)) else Completing(o)])
    case Completing(o) =>
      s.(futures := s.futures[i := Some(o)], lookups := s.lookups[i := Done(AnswerOf(o))])
    case Awaiting(k) =>
      s.(lookups := s.lookups[i := Done(AnswerOf(s.futures[k].value))])
  }

  ghost predicate Next(s: State, t: State) {
    exists i: nat, o :: Enabled(s, i) && t == Step(s, i, o)
  }

  ghost predicate Run(run: seq<State>) {
    && run != [] && Init(run[0])
    && forall m :: 0 <= m < |run| - 1 ==> Next(run[m], run[m + 1])
  }

  // ----- what every step keeps

  /** No lookup has claimed the slot. */
  ghost predicate Unclaimed(s: State)
    requires |s.futures| == |s.lookups|
  {
    && s.evaluations == 0 && s.outcome == None
    && (forall i :: 0 <= i < |s.lookups| ==> s.futures[i] == None)
    && (s.slot.Empty? ==> forall i :: 0 <= i < |s.lookups| ==> s.lookups[i] == Reading || s.lookups[i] == Claiming)
    && (s.slot.Constant? ==> forall i :: 0 <= i < |s.lookups| ==> s.lookups[i] == Reading || s.lookups[i] == Claiming || s.lookups[i] == Done(NotAFuture))
  }

  /** The owner `k`: it evaluates once, and then sets its future. */
  ghost predicate OwnerRight(s: State, k: nat)
    requires k < |s.lookups| == |s.futures|
  {
    match s.lookups[k]
    case Evaluating => s.evaluations == 0 && s.outcome == None && s.futures[k] == None
    case Completing(o) => s.evaluations == 1 && s.outcome == Some(o) && s.futures[k] == None && !o.Error?
    case Done(a) =>
      && s.evaluations == 1 && s.outcome.Some? && a == AnswerOf(s.outcome.value)
      && s.futures[k] == if s.outcome.value.Error? then None else s.outcome
    case _ => false
  }

  /** All others read, claim in vain, wait for the owner's future, or have its outcome. */
  ghost predicate OtherRight(s: State, k: nat, i: nat)
    requires k < |s.lookups| == |s.futures| && i < |s.lookups|
  {
    && s.futures[i] == None
    && match s.lookups[i]
       case Reading => true
       case Claiming => true
       case Awaiting(f) => f == k
       case Done(a) => s.futures[k].Some? && a == AnswerOf(s.futures[k].value)
       case _ => false
  }

  ghost predicate Invariant(s: State) {
    && |s.futures| == |s.lookups|
    && if s.slot.FutureOf? then
         && s.slot.owner < |s.lookups| && OwnerRight(s, s.slot.owner)
         && forall i :: 0 <= i < |s.lookups| && i != s.slot.owner ==> OtherRight(s, s.slot.owner, i)
       else Unclaimed(s)
  }

  lemma StepKeeps(s: State, i: nat, o: Outcome)
    requires Invariant(s) && Enabled(s, i)
    ensures Invariant(Step(s, i, o))
  {
    if !s.slot.FutureOf? {
      FirstSteps(s, i, o);
    } else if i == s.slot.owner {
      OwnerSteps(s, i, o);
    } else {
      OtherSteps(s, i, o);
    }
  }

  lemma FirstSteps(s: State, i: nat, o: Outcome)
    requires Invariant(s) && Enabled(s, i) && !s.slot.FutureOf?
    ensures Invariant(Step(s, i, o))
  {
    var t := Step(s, i, o);
    if t.slot.FutureOf? {
      assert t.lookups[i] == Evaluating && OwnerRight(t, i);
    }
  }

  lemma OwnerSteps(s: State, k: nat, o: Outcome)
    requires Invariant(s) && Enabled(s, k) && s.slot == FutureOf(k)
    ensures Invariant(Step(s, k, o))
  {
    var t := Step(s, k, o);
    assert OwnerRight(s, k);
    assert OwnerRight(t, k);
    forall m | 0 <= m < |t.lookups| && m != k
      ensures OtherRight(t, k, m)
    {
      assert OtherRight(s, k, m);
    }
  }

  lemma OtherSteps(s: State, i: nat, o: Outcome)
    requires Invariant(s) && Enabled(s, i) && s.slot.FutureOf? && i != s.slot.owner
    ensures Invariant(Step(s, i, o))
  {
    var t, k := Step(s, i, o), s.slot.owner;
    assert OtherRight(s, k, i);
    assert t.futures == s.futures && t.slot == s.slot && t.evaluations == s.evaluations;
    forall m | 0 <= m < |t.lookups| && m != k
      ensures OtherRight(t, k, m)
    {
      assert OtherRight(s, k, m);
    }
  }

  /** A name bound to a plain constant stays so, and an owner stays the owner. */
  lemma SlotKept(s: State, i: nat, o: Outcome)
    requires Invariant(s) && Enabled(s, i)
    ensures var t := Step(s, i, o); (!s.slot.Empty? ==> t.slot == s.slot) && (s.slot.Empty? ==> !t.slot.Constant?) && |t.lookups| == |s.lookups|
  {
  }

  lemma {:induction false} AllKept(run: seq<State>, m: nat)
    requires Run(run) && m < |run|
    ensures Invariant(run[m]) && |run[m].lookups| == |run[0].lookups|
    ensures if run[0].slot.Constant? then run[m].slot == run[0].slot else !run[m].slot.Constant?
  {
    hide Step, Enabled, OwnerRight, OtherRight;
    if m > 0 {
      AllKept(run, m - 1);
      assert Next(run[m - 1], run[m - 1 + 1]);
      var i: nat, o :| Enabled(run[m - 1], i) && run[m] == Step(run[m - 1], i, o);
      StepKeeps(run[m - 1], i, o);
      SlotKept(run[m - 1], i, o);
    }
  }

  // ----- whole runs

  /** The lookup has ended with a value or an exception of the evaluator. */
  ghost predicate Answered(s: State, i: nat) {
    i < |s.lookups| && s.lookups[i].Done? && (s.lookups[i].answer.Returned? || s.lookups[i].answer.Rethrown?)
  }

  /** In every interleaving, unless the name is bound to a plain constant, the evaluator runs at most once, all lookups that
      have ended with an answer have the same one, and no lookup but the one that evaluated can end any other way. */
  lemma EvaluatedOnce(run: seq<State>, m: nat)
    requires Run(run) && m < |run| && run[0].slot.Empty?
    ensures var s := run[m];
            && s.evaluations <= 1
            && (forall i: nat, k: nat :: Answered(s, i) && Answered(s, k) ==> s.lookups[i] == s.lookups[k])
            && (forall i: nat :: i < |s.lookups| && s.lookups[i].Done? && !Answered(s, i) ==> s.slot == FutureOf(i) && s.lookups[i].answer.Died?)
  {
    AllKept(run, m);
    var s := run[m];
    if s.slot.FutureOf? {
      forall i: nat | i < |s.lookups| && s.lookups[i].Done?
        ensures Answered(s, i) ==> s.futures[s.slot.owner].Some? && s.lookups[i].answer == AnswerOf(s.futures[s.slot.owner].value)
        ensures !Answered(s, i) ==> i == s.slot.owner && s.lookups[i].answer.Died?
      {
        TheAnswer(s, i);
      }
    }
  }

  lemma TheAnswer(s: State, i: nat)
    requires Invariant(s) && s.slot.FutureOf? && i < |s.lookups| && s.lookups[i].Done?
    ensures var k := s.slot.owner;
            if Answered(s, i) then s.futures[k].Some? && s.lookups[i].answer == AnswerOf(s.futures[k].value)
            else i == k && s.lookups[i].answer.Died?
  {
    var k := s.slot.owner;
    assert OwnerRight(s, k);
    if i != k {
      assert OtherRight(s, k, i);
    }
  }

  /** What every lookup that has ended gives is what the evaluator has come to: the value it has returned to all, the
      exception it has thrown to all, and an error to nobody but the one that was evaluating. */
  lemma AnswersAreOutcome(run: seq<State>, m: nat, i: nat)
    requires Run(run) && m < |run| && run[0].slot.Empty? && i < |run[m].lookups| && run[m].lookups[i].Done?
    ensures var s := run[m];
            && s.outcome.Some? && s.evaluations == 1
            && match s.outcome.value
               case Value(v) => s.lookups[i] == Done(Returned(v))
               case Exception(e) => s.lookups[i] == Done(Rethrown(e))
               case Error(e) => s.slot == FutureOf(i) && s.lookups[i] == Done(Died(e))
  {
    AllKept(run, m);
    var s := run[m];
    var k := s.slot.owner;
    assert OwnerRight(s, k);
    if i != k {
      assert OtherRight(s, k, i);
    }
  }

  /** The outcome is that of the one evaluation, and stays. */
  lemma {:induction false} OutcomeStays(run: seq<State>, m: nat, m': nat)
    requires Run(run) && m <= m' < |run| && run[m].outcome.Some?
    ensures run[m'].outcome == run[m].outcome && run[m'].evaluations == run[m].evaluations
    decreases m'
  {
    hide Step, Enabled, OwnerRight, OtherRight;
    if m < m' {
      OutcomeStays(run, m, m' - 1);
      AllKept(run, m' - 1);
      assert Next(run[m' - 1], run[m' - 1 + 1]);
      var i: nat, o :| Enabled(run[m' - 1], i) && run[m'] == Step(run[m' - 1], i, o);
      NotAgain(run[m' - 1], i, o);
    }
  }

  lemma NotAgain(s: State, i: nat, o: Outcome)
    requires Invariant(s) && Enabled(s, i) && s.outcome.Some?
    ensures Step(s, i, o).outcome == s.outcome && Step(s, i, o).evaluations == s.evaluations
  {
    if s.slot.FutureOf? {
      assert OwnerRight(s, s.slot.owner);
      assert i != s.slot.owner ==> OtherRight(s, s.slot.owner, i);
    }
  }

  /** A name bound to a plain constant is never evaluated: every lookup fails, because the constant is no future. */
  lemma ConstantBreaksLookups(run: seq<State>, m: nat, i: nat)
    requires Run(run) && m < |run| && run[0].slot.Constant? && i < |run[m].lookups|
    ensures run[m].evaluations == 0 && (run[m].lookups[i].Done? ==> run[m].lookups[i].answer == NotAFuture)
  {
    AllKept(run, m);
  }

  /** The lookups can always go on until all have ended, unless the evaluator has died of an error: then those that
      wait for it, and no others, wait for ever. */
  lemma StuckOnlyBehindError(run: seq<State>, m: nat)
    requires Run(run) && m < |run|
    requires forall i: nat :: !Enabled(run[m], i)
    ensures var s := run[m];
            || (forall i :: 0 <= i < |s.lookups| ==> s.lookups[i].Done?)
            || (s.slot.FutureOf? && s.slot.owner < |s.lookups| && s.lookups[s.slot.owner].Done? && s.lookups[s.slot.owner].answer.Died?
                && forall i :: 0 <= i < |s.lookups| && i != s.slot.owner ==> s.lookups[i] == Awaiting(s.slot.owner))
  {
    AllKept(run, m);
    var s := run[m];
    forall i: nat | i < |s.lookups|
      ensures s.lookups[i].Done? || s.lookups[i].Awaiting?
    {
      assert !Enabled(s, i);
    }
    if s.slot.FutureOf? {
      var k := s.slot.owner;
      forall i: nat | i < |s.lookups| && i != k
        ensures OtherRight(s, k, i) && (s.futures[k].Some? ==> s.lookups[i].Done?)
      {
        assert !Enabled(s, i);
      }
    }
  }

  /** The evaluator has died of an error. */
  ghost predicate OwnerDied(s: State) {
    s.slot.FutureOf? && s.slot.owner < |s.lookups| && s.lookups[s.slot.owner].Done? && s.lookups[s.slot.owner].answer.Died?
  }

  /** No step of another lookup brings the evaluator back. */
  lemma StaysDead(s: State, i: nat, o: Outcome)
    requires Invariant(s) && OwnerDied(s) && Enabled(s, i)
    ensures OwnerDied(Step(s, i, o)) && Step(s, i, o).slot == s.slot
  {
    assert i != s.slot.owner;
    assert OtherRight(s, s.slot.owner, i);
  }

  /** Once the evaluator has died of an error, no other lookup has ended or ever ends, whatever happens. */
  lemma {:induction false} OthersWaitForEver(run: seq<State>, m: nat, m': nat)
    requires Run(run) && m <= m' < |run| && OwnerDied(run[m])
    ensures OwnerDied(run[m']) && run[m'].slot == run[m].slot
    ensures forall i: nat :: i < |run[m'].lookups| && i != run[m].slot.owner ==> !run[m'].lookups[i].Done?
    decreases m'
  {
    hide Step, Enabled, OwnerRight, OtherRight;
    AllKept(run, m');
    if m < m' {
      OthersWaitForEver(run, m, m' - 1);
      AllKept(run, m' - 1);
      assert Next(run[m' - 1], run[m' - 1 + 1]);
      var i: nat, o :| Enabled(run[m' - 1], i) && run[m'] == Step(run[m' - 1], i, o);
      StaysDead(run[m' - 1], i, o);
    }
    forall i: nat | i < |run[m'].lookups| && i != run[m].slot.owner
      ensures !run[m'].lookups[i].Done?
    {
      NoneEnds(run[m'], i);
    }
  }

  lemma NoneEnds(s: State, i: nat)
    requires Invariant(s) && OwnerDied(s) && i < |s.lookups| && i != s.slot.owner
    ensures !s.lookups[i].Done?
  {
    assert OwnerRight(s, s.slot.owner) && OtherRight(s, s.slot.owner, i);
  }
}
