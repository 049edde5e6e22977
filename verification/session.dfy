/** `SessionRunner`: runs a task after the tasks it depends on and those before it, then the ones after it;
    the first failure stops everything but the rollback of the task that failed. */
module Sessions {

  type Role = string

  datatype Option<T> = None | Some(value: T)

  datatype TaskResult = Ok(value: int) | Nok(error: int)

  const OK := Ok(0)

  /** What a task definition creates for a session: nothing to do, or a body to run. */
  datatype Session = Nop | Body(id: nat)

  datatype TaskDef = TaskDef(
    name: string, roles: set<Role>,
    dependsOn: seq<TaskDef>, before: seq<TaskDef>, after: seq<TaskDef>,
    sessions: seq<Session>, rollback: Option<TaskDef>)

  predicate HasRole(t: TaskDef, roles: set<Role>) {
    t.roles == {} || t.roles * roles != {}
  }

  /** A task without roles is for everyone; any other one for those who share at least one of its roles. */
  lemma RoleShared(t: TaskDef, roles: set<Role>)
    ensures HasRole(t, roles) <==> t.roles == {} || exists r :: r in t.roles && r in roles
  {
    assert (exists r :: r in t.roles && r in roles) ==> t.roles * roles != {} by {
      if r :| r in t.roles && r in roles {
        assert r in t.roles * roles;
      }
    }
    if t.roles * roles != {} {
      var r :| r in t.roles * roles;
      assert r in t.roles && r in roles;
    }
  }

  // ----- the specification: one flat list of bodies

  /** A body in the order of running, with the bodies that undo its task. */
  datatype Item = Item(id: nat, undo: seq<Item>)

  function Items(sessions: seq<Session>, undo: seq<Item>): seq<Item> {
    if sessions == [] then []
    else (if sessions[0].Nop? then [] else [Item(sessions[0].id, undo)]) + Items(sessions[1..], undo)
  }

  /** The task with everything it brings along. */
  function Expand(t: TaskDef, roles: set<Role>): seq<Item>
    decreases t, 2
  {
    ExpandAll(t.dependsOn, roles) + ExpandAll(t.before, roles) + Own(t, roles) + ExpandAll(t.after, roles)
  }

  /** The bodies of the task itself, if the session has one of its roles. */
  function Own(t: TaskDef, roles: set<Role>): seq<Item>
    decreases t, 1
  {
    if HasRole(t, roles) then Items(t.sessions, if t.rollback.None? then [] else Expand(t.rollback.value, roles)) else []
  }

  /** A list of tasks, without those the session has no role for. */
  function ExpandAll(ts: seq<TaskDef>, roles: set<Role>): seq<Item>
    decreases ts, 3
  {
    if ts == [] then []
    else (if HasRole(ts[0], roles) then Expand(ts[0], roles) else []) + ExpandAll(ts[1..], roles)
  }

  /** A body that was run, and its result. */
  datatype Entry = Entry(id: nat, result: TaskResult)

  /** `ran` is a run of the bodies `items`: one after the other, up to the first failure, then the undoing of what failed. */
  predicate Runs(items: seq<Item>, ran: seq<Entry>)
    decreases ran
  {
    if items == [] then ran == []
    else
      && ran != [] && ran[0].id == items[0].id
      && (if ran[0].result.Nok? then Runs(items[0].undo, ran[1..]) else Runs(items[1..], ran[1..]))
  }

  /** The first failure in a run. */
  function Failure(ran: seq<Entry>): (f: Option<TaskResult>)
    ensures f.Some? ==> f.value.Nok?
  {
    if ran == [] then None
    else if ran[0].result.Nok? then Some(ran[0].result)
    else Failure(ran[1..])
  }

  lemma {:induction false} FailureMeaning(ran: seq<Entry>)
    ensures Failure(ran).None? <==> forall k :: 0 <= k < |ran| ==> ran[k].result.Ok?
  {
    if ran != [] {
      FailureMeaning(ran[1..]);
      assert forall k :: 1 <= k < |ran| ==> ran[k] == ran[1..][k - 1];
      if ran[0].result.Ok? && Failure(ran).Some? {
        var k :| 0 <= k < |ran[1..]| && !ran[1..][k].result.Ok?;
        assert ran[k + 1] == ran[1..][k];
      }
    }
  }

  lemma {:induction false} FailureOf(x: seq<Entry>, y: seq<Entry>)
    ensures Failure(x + y) == if Failure(x).Some? then Failure(x) else Failure(y)
  {
    if x == [] {
      assert x + y == y;
    } else {
      assert (x + y)[1..] == x[1..] + y;
      FailureOf(x[1..], y);
    }
  }

  /** After a run without a failure the next bodies run; after a failure they do not. */
  lemma {:induction false} RunsOn(a: seq<Item>, x: seq<Entry>, b: seq<Item>, y: seq<Entry>)
    requires Runs(a, x) && (if Failure(x).Some? then y == [] else Runs(b, y))
    ensures Runs(a + b, x + y)
    decreases |a|
  {
    if a == [] {
      assert a + b == b && x + y == y;
    } else {
      assert (x + y)[0] == x[0] && (x + y)[1..] == x[1..] + y;
      assert (a + b)[0] == a[0] && (a + b)[1..] == a[1..] + b;
      if x[0].result.Ok? {
        RunsOn(a[1..], x[1..], b, y);
      } else {
        assert x[1..] + y == x[1..];
      }
    }
  }

  /** The place of the first failure, or the length of the run. */
  function FailsAt(ran: seq<Entry>): (k: nat)
    ensures k <= |ran|
    ensures forall i :: 0 <= i < k ==> ran[i].result.Ok?
    ensures k < |ran| ==> ran[k].result.Nok?
  {
    if ran == [] || ran[0].result.Nok? then 0
    else
      var k := FailsAt(ran[1..]);
      assert forall i :: 0 < i < k + 1 ==> ran[i] == ran[1..][i - 1];
      k + 1
  }

  /** What a run is: without a failure, all the bodies in order; with one, the bodies up to it,
      and then a run of the bodies that undo the task that failed, and of no others. */
  lemma {:induction false} RunsAreCut(items: seq<Item>, ran: seq<Entry>)
    requires Runs(items, ran)
    ensures var k := FailsAt(ran);
            && k <= |items| && (k == |ran| ==> k == |items|) && (k < |ran| ==> k < |items|)
            && (forall i :: 0 <= i <= k && i < |ran| ==> ran[i].id == items[i].id)
            && (k < |ran| ==> Runs(items[k].undo, ran[k + 1..]) && Failure(ran) == Some(ran[k].result))
            && (k == |ran| ==> Failure(ran) == None)
    decreases |items|
  {
    if items != [] && ran[0].result.Ok? {
      RunsAreCut(items[1..], ran[1..]);
      var k := FailsAt(ran);
      assert FailsAt(ran[1..]) == k - 1;
      forall i | 0 <= i <= k && i < |ran|
        ensures ran[i].id == items[i].id
      {
        if i > 0 {
          assert ran[i] == ran[1..][i - 1] && items[i] == items[1..][i - 1];
        }
      }
      if k < |ran| {
        assert ran[1..][k..] == ran[k + 1..] && ran[1..][k - 1] == ran[k] && items[1..][k - 1] == items[k];
      }
    }
  }

  /** A run of the bodies of one task without the undoing. */
  predicate Tried(items: seq<Item>, ran: seq<Entry>)
    decreases ran
  {
    if items == [] then ran == []
    else
      && ran != [] && ran[0].id == items[0].id
      && (if ran[0].result.Nok? then ran[1..] == [] else Tried(items[1..], ran[1..]))
  }

  lemma {:induction false} TriedThenUndone(items: seq<Item>, x: seq<Entry>, undo: seq<Item>, u: seq<Entry>)
    requires Tried(items, x) && forall k :: 0 <= k < |items| ==> items[k].undo == undo
    requires if Failure(x).Some? then Runs(undo, u) else u == []
    ensures Runs(items, x + u)
    decreases |items|
  {
    if items == [] {
      assert x + u == u;
    } else {
      assert (x + u)[0] == x[0] && (x + u)[1..] == x[1..] + u;
      if x[0].result.Ok? {
        TriedThenUndone(items[1..], x[1..], undo, u);
      } else {
        assert x[1..] + u == u;
      }
    }
  }

  lemma {:induction false} TriedMore(items: seq<Item>, x: seq<Entry>, item: Item, e: Entry)
    requires Tried(items, x) && Failure(x).None? && e.id == item.id
    ensures Tried(items + [item], x + [e]) && Failure(x + [e]) == if e.result.Nok? then Some(e.result) else None
    decreases |items|
  {
    if items == [] {
      assert x + [e] == [e] && [e][1..] == [] && items + [item] == [item] && [item][1..] == [];
    } else {
      assert (x + [e])[1..] == x[1..] + [e] && (items + [item])[1..] == items[1..] + [item];
      TriedMore(items[1..], x[1..], item, e);
    }
  }

  /** A failed try stays one when more bodies would have followed. */
  lemma {:induction false} TriedInVain(items: seq<Item>, x: seq<Entry>, more: seq<Item>)
    requires Tried(items, x) && Failure(x).Some?
    ensures Tried(items + more, x)
    decreases |items|
  {
    if items != [] {
      assert (items + more)[1..] == items[1..] + more;
      if x[0].result.Ok? {
        TriedInVain(items[1..], x[1..], more);
      }
    }
  }

  lemma {:induction false} ItemsSplit(s: seq<Session>, i: nat, undo: seq<Item>)
    requires i <= |s|
    ensures Items(s, undo) == Items(s[..i], undo) + Items(s[i..], undo)
  {
    if i == 0 {
      assert s[..0] == [] && s[0..] == s;
    } else {
      ItemsSplit(s[1..], i - 1, undo);
      assert s[..i][1..] == s[1..][..i - 1] && s[i..] == s[1..][i - 1..];
    }
  }

  lemma {:induction false} ItemsUndo(s: seq<Session>, undo: seq<Item>)
    ensures forall k :: 0 <= k < |Items(s, undo)| ==> Items(s, undo)[k].undo == undo
  {
    if s != [] {
      ItemsUndo(s[1..], undo);
    }
  }

  lemma {:induction false} ExpandAllSplit(ts: seq<TaskDef>, i: nat, roles: set<Role>)
    requires i <= |ts|
    ensures ExpandAll(ts, roles) == ExpandAll(ts[..i], roles) + ExpandAll(ts[i..], roles)
  {
    hide Expand;
    if i == 0 {
      assert ts[..0] == [] && ts[0..] == ts;
    } else {
      ExpandAllSplit(ts[1..], i - 1, roles);
      assert ts[..i][1..] == ts[1..][..i - 1] && ts[i..] == ts[1..][i - 1..];
    }
  }

  /** The bodies that undo a task. */
  function Undo(t: TaskDef, roles: set<Role>): seq<Item> {
    if t.rollback.None? then [] else Expand(t.rollback.value, roles)
  }

  /** The four stages of a task: each one is run when none before it has failed, and the undoing when the task itself has. */
  lemma {:induction false} Stages(t: TaskDef, roles: set<Role>, w: seq<Entry>, x: seq<Entry>, y: seq<Entry>, u: seq<Entry>, z: seq<Entry>)
    requires Runs(ExpandAll(t.dependsOn, roles), w)
    requires if Failure(w).Some? then x == [] else Runs(ExpandAll(t.before, roles), x)
    requires if Failure(w).Some? || Failure(x).Some? then y == [] else Tried(Own(t, roles), y)
    requires if Failure(y).Some? then Runs(Undo(t, roles), u) else u == []
    requires if Failure(w).Some? || Failure(x).Some? || Failure(y).Some? then z == [] else Runs(ExpandAll(t.after, roles), z)
    ensures Runs(Expand(t, roles), w + x + (y + u) + z)
    ensures Failure(w + x + (y + u) + z) ==
            if Failure(w).Some? then Failure(w) else if Failure(x).Some? then Failure(x) else if Failure(y).Some? then Failure(y) else Failure(z)
  {
    NoFailure();
    hide Runs, Failure, Tried, Own, ExpandAll, Undo;
    var a, b, c, d := ExpandAll(t.dependsOn, roles), ExpandAll(t.before, roles), Own(t, roles), ExpandAll(t.after, roles);
    FailureOf(w, x);
    FailureOf(y, u);
    FailureOf(w + x, y + u);
    FailureOf(w + x + (y + u), z);
    RunsOn(a, w, b, x);
    OwnUndo(t, roles);
    if Failure(w + x).None? {
      TriedThenUndone(c, y, Undo(t, roles), u);
    } else {
      assert y + u == [];
    }
    RunsOn(a + b, w + x, c, y + u);
    RunsOn(a + b + c, w + x + (y + u), d, z);
  }

  lemma {:induction false} FailsBehind(x: seq<Entry>, y: seq<Entry>)
    requires Failure(x).None?
    ensures FailsAt(x + y) == |x| + FailsAt(y)
  {
    if x == [] {
      assert x + y == y;
    } else {
      assert (x + y)[1..] == x[1..] + y;
      FailsBehind(x[1..], y);
    }
  }

  /** The first failure of the run is one of the task's own bodies. */
  ghost predicate OwnFailure(t: TaskDef, roles: set<Role>, ran: seq<Entry>) {
    var p := |ExpandAll(t.dependsOn, roles)| + |ExpandAll(t.before, roles)|;
    p <= FailsAt(ran) < p + |Own(t, roles)|
  }

  /** The result of the task itself in a run without a failure: that of its last body. */
  ghost function OwnResult(t: TaskDef, roles: set<Role>, ran: seq<Entry>): TaskResult {
    var p, n := |ExpandAll(t.dependsOn, roles)| + |ExpandAll(t.before, roles)|, |Own(t, roles)|;
    if n == 0 then OK else if p + n <= |ran| then ran[p + n - 1].result else OK
  }

  lemma {:induction false} TriedAll(items: seq<Item>, x: seq<Entry>)
    requires Tried(items, x) && Failure(x).None?
    ensures |x| == |items|
  {
    if items != [] {
      TriedAll(items[1..], x[1..]);
    }
  }

  lemma {:induction false} OwnResultIs(t: TaskDef, roles: set<Role>, w: seq<Entry>, x: seq<Entry>, y: seq<Entry>, z: seq<Entry>)
    requires Runs(ExpandAll(t.dependsOn, roles), w) && Failure(w).None?
    requires Runs(ExpandAll(t.before, roles), x) && Failure(x).None?
    requires Tried(Own(t, roles), y) && Failure(y).None?
    ensures OwnResult(t, roles, w + x + (y + []) + z) == if y == [] then OK else y[|y| - 1].result
  {
    RunsAreCut(ExpandAll(t.dependsOn, roles), w);
    RunsAreCut(ExpandAll(t.before, roles), x);
    TriedAll(Own(t, roles), y);
    hide Runs, Failure, Tried, Own, ExpandAll;
    if y != [] {
      LastTried(w, x, y, [], z);
    }
  }

  // ----- the last rollback result

  /** What the last rollback result is after a run of the task. Unless something fails it is left alone, or, once rolling
      back, is the task's own result. A failure below the task leaves it good. After one of the task itself, which counts
      as a rollback result only once rolling back, it is what undoing the task leaves. */
  ghost function LastRollback(t: TaskDef, roles: set<Role>, ran: seq<Entry>, rolling: bool, rollback0: TaskResult): TaskResult
    decreases t
  {
    var k, p := FailsAt(ran), |ExpandAll(t.dependsOn, roles)| + |ExpandAll(t.before, roles)|;
    if k == |ran| && !rolling then rollback0
    else if k < |ran| && k < p then OK
    else if k == |ran| || p + |Own(t, roles)| <= k then OwnResult(t, roles, ran)
    else
      var before := if rolling then ran[k].result else rollback0;
      if t.rollback.None? then before else LastRollback(t.rollback.value, roles, ran[k + 1..], true, before)
  }

  /** A failure below the task, in what it depends on or in what comes before or after it, leaves a good result. */
  lemma {:induction false} GoodAfterOthers(t: TaskDef, roles: set<Role>, ran: seq<Entry>, rolling: bool, rollback0: TaskResult)
    requires Failure(ran).Some? && !OwnFailure(t, roles, ran)
    ensures LastRollback(t, roles, ran, rolling, rollback0).Ok?
  {
    hide ExpandAll, Own;
    FailsIff(ran);
  }

  /** When the task itself has failed and is undone without a failure, the result is that of the undoing task. */
  lemma {:induction false} GoodWhenUndone(t: TaskDef, roles: set<Role>, ran: seq<Entry>, rolling: bool, rollback0: TaskResult)
    requires FailsAt(ran) < |ran| && OwnFailure(t, roles, ran) && t.rollback.Some?
    requires var u := ran[FailsAt(ran) + 1..]; Runs(Expand(t.rollback.value, roles), u) && Failure(u).None?
    ensures LastRollback(t, roles, ran, rolling, rollback0) == OwnResult(t.rollback.value, roles, ran[FailsAt(ran) + 1..])
    ensures LastRollback(t, roles, ran, rolling, rollback0).Ok?
  {
    hide ExpandAll, Own, Expand, Runs;
    FailsIff(ran);
    FailsIff(ran[FailsAt(ran) + 1..]);
  }

  lemma {:induction false} FailsIff(ran: seq<Entry>)
    ensures FailsAt(ran) == |ran| <==> Failure(ran).None?
    ensures Failure(ran).Some? ==> Failure(ran) == Some(ran[FailsAt(ran)].result)
  {
    if ran != [] {
      FailsIff(ran[1..]);
    }
  }

  /** The first failure after bodies that are all good, or among them. */
  lemma {:induction false} FailsInOrAfter(items: seq<Item>, w: seq<Entry>, r: seq<Entry>)
    requires Runs(items, w) && (Failure(w).Some? ==> r == [])
    ensures if Failure(w).Some? then FailsAt(w + r) < |items| && FailsAt(w + r) < |w + r|
            else |w| == |items| && FailsAt(w + r) == |w| + FailsAt(r)
  {
    FailsIff(w);
    RunsAreCut(items, w);
    if Failure(w).Some? {
      assert w + r == w;
    } else {
      FailsBehind(w, r);
    }
  }

  /** The same for the task's own bodies and the undoing. */
  lemma {:induction false} FailsInTry(items: seq<Item>, y: seq<Entry>, u: seq<Entry>, z: seq<Entry>)
    requires Tried(items, y) && (if Failure(y).Some? then z == [] else u == [])
    ensures var r, k := y + u + z, FailsAt(y + u + z);
            if Failure(y).Some? then k < |items| && k < |r| && r[k] == y[|y| - 1] && r[k + 1..] == u && y != []
            else |y| == |items| && k == |y| + FailsAt(z)
  {
    if Failure(y).Some? {
      FailsFirst(items, y, u);
      assert y + u + z == y + u;
    } else {
      TriedAll(items, y);
      FailsBehind(y, z);
      assert y + u + z == y + z;
    }
  }

  /** Where the first failure of a task is, by the stage it is in. */
  lemma {:induction false} FailurePlace(a: seq<Item>, b: seq<Item>, c: seq<Item>, w: seq<Entry>, x: seq<Entry>, y: seq<Entry>, u: seq<Entry>, z: seq<Entry>)
    requires Runs(a, w)
    requires if Failure(w).Some? then x == [] else Runs(b, x)
    requires if Failure(w).Some? || Failure(x).Some? then y == [] else Tried(c, y)
    requires if Failure(w).Some? || Failure(x).Some? || Failure(y).Some? then z == [] else u == []
    requires Failure(y).None? ==> u == []
    ensures var ran, p, k := w + x + (y + u) + z, |a| + |b|, FailsAt(w + x + (y + u) + z);
            if Failure(w).Some? || Failure(x).Some? then k < p && k < |ran|
            else if Failure(y).Some? then p <= k < p + |c| && k < |ran| && y != [] && ran[k] == y[|y| - 1] && ran[k + 1..] == u
            else k == p + |c| + FailsAt(z) && |ran| == p + |c| + |z| && |y| == |c| && |w| + |x| == p
  {
    NoFailure();
    hide Runs, Failure, Tried, FailsAt;
    var r := y + u + z;
    assert w + x + (y + u) + z == w + (x + r);
    FailsInOrAfter(a, w, x + r);
    if Failure(w).None? {
      FailsInOrAfter(b, x, r);
      if Failure(x).None? {
        FailsInTry(c, y, u, z);
        if Failure(y).Some? {
          FartherBack(w, x, r, FailsAt(r));
        }
      }
    }
  }

  lemma FartherBack(w: seq<Entry>, x: seq<Entry>, r: seq<Entry>, k: nat)
    requires k < |r|
    ensures var ran, k' := w + (x + r), |w| + (|x| + k); ran[k'] == r[k] && ran[k' + 1..] == r[k + 1..]
  {
  }

  /** A try that fails ends there. */
  lemma {:induction false} FailsFirst(items: seq<Item>, y: seq<Entry>, u: seq<Entry>)
    requires Tried(items, y) && Failure(y).Some?
    ensures FailsAt(y + u) == |y| - 1 < |items| && y != [] && (y + u)[|y| - 1] == y[|y| - 1] && (y + u)[|y|..] == u
  {
    assert (y + u)[0] == y[0] && (y + u)[1..] == y[1..] + u;
    if y[0].result.Ok? {
      FailsFirst(items[1..], y[1..], u);
    }
  }

  /** The last rollback result after the four stages, from what was there before and the task's own result. */
  lemma {:induction false} LastRollbackIs(t: TaskDef, roles: set<Role>, w: seq<Entry>, x: seq<Entry>, y: seq<Entry>, u: seq<Entry>, z: seq<Entry>,
                                          rolling: bool, rollback0: TaskResult)
    requires Runs(ExpandAll(t.dependsOn, roles), w)
    requires if Failure(w).Some? then x == [] else Runs(ExpandAll(t.before, roles), x)
    requires if Failure(w).Some? || Failure(x).Some? then y == [] else Tried(Own(t, roles), y)
    requires if Failure(w).Some? || Failure(x).Some? || Failure(y).Some? then z == [] else u == []
    requires Failure(y).None? ==> u == []
    ensures var ran, own := w + x + (y + u) + z, if y == [] then OK else y[|y| - 1].result;
            LastRollback(t, roles, ran, rolling, rollback0) ==
            if Failure(y).Some? then
              (var before := if rolling then own else rollback0;
               if t.rollback.None? then before else LastRollback(t.rollback.value, roles, u, true, before))
            else if rolling || Failure(w).Some? || Failure(x).Some? || Failure(z).Some? then own
            else rollback0
  {
    NoFailure();
    FailsIff(z);
    hide *;
    FailurePlace(ExpandAll(t.dependsOn, roles), ExpandAll(t.before, roles), Own(t, roles), w, x, y, u, z);
    if y != [] {
      LastTried(w, x, y, u, z);
    }
    var stage := if Failure(w).Some? || Failure(x).Some? then 0 else if Failure(y).Some? then 1 else 2;
    LastRollbackAt(t, roles, w + x + (y + u) + z, stage, if y == [] then OK else y[|y| - 1].result, u, |z|, FailsAt(z), rolling, rollback0);
  }

  /** The same from where the first failure is: before the task, in it, or `k` bodies of `n` behind it. */
  lemma {:induction false} LastRollbackAt(t: TaskDef, roles: set<Role>, ran: seq<Entry>, stage: nat, own: TaskResult, u: seq<Entry>,
                                          n: nat, k: nat, rolling: bool, rollback0: TaskResult)
    requires k <= n && stage <= 2
    requires var p := |ExpandAll(t.dependsOn, roles)| + |ExpandAll(t.before, roles)|;
             var f, c := FailsAt(ran), |Own(t, roles)|;
             && (stage == 0 ==> f < p && f < |ran|)
             && (stage == 1 ==> p <= f < p + c && f < |ran| && ran[f].result == own && ran[f + 1..] == u)
             && (stage == 2 ==> f == p + c + k && |ran| == p + c + n && own == if c == 0 then OK else ran[p + c - 1].result)
    ensures LastRollback(t, roles, ran, rolling, rollback0) ==
            match stage
            case 0 => OK
            case 1 =>
              (var before := if rolling then own else rollback0;
               if t.rollback.None? then before else LastRollback(t.rollback.value, roles, u, true, before))
            case _ => if rolling || k < n then own else rollback0
  {
    hide FailsAt, ExpandAll, Own;
  }

  lemma LastTried(w: seq<Entry>, x: seq<Entry>, y: seq<Entry>, u: seq<Entry>, z: seq<Entry>)
    requires y != []
    ensures var ran, k := w + x + (y + u) + z, |w| + |x| + |y| - 1; k < |ran| && ran[k] == y[|y| - 1]
  {
  }

  lemma NoFailure()
    ensures Failure([]) == None
  {
  }

  lemma {:induction false} OwnUndo(t: TaskDef, roles: set<Role>)
    ensures forall k :: 0 <= k < |Own(t, roles)| ==> Own(t, roles)[k].undo == Undo(t, roles)
  {
    ItemsUndo(t.sessions, Undo(t, roles));
  }

  lemma {:induction false} NothingTried(s: seq<Session>, undo: seq<Item>)
    ensures Tried(Items(s[..0], undo), []) && Tried([], [])
  {
  }

  lemma {:induction false} NothingRuns(roles: set<Role>)
    ensures Runs(ExpandAll([], roles), [])
  {
  }

  lemma {:induction false} NextItem(s: seq<Session>, i: nat, undo: seq<Item>)
    requires i < |s|
    ensures Items(s[..i + 1], undo) == if s[i].Nop? then Items(s[..i], undo) else Items(s[..i], undo) + [Item(s[i].id, undo)]
  {
    ItemsSplit(s[..i + 1], i, undo);
    assert s[..i + 1][..i] == s[..i] && s[..i + 1][i..] == [s[i]];
    assert [s[i]][1..] == [] && Items([], undo) == [];
  }

  lemma {:induction false} NextTask(ts: seq<TaskDef>, i: nat, roles: set<Role>)
    requires i < |ts|
    ensures ExpandAll(ts[..i + 1], roles) == if HasRole(ts[i], roles) then ExpandAll(ts[..i], roles) + Expand(ts[i], roles) else ExpandAll(ts[..i], roles)
  {
    hide Expand;
    ExpandAllSplit(ts[..i + 1], i, roles);
    assert ts[..i + 1][..i] == ts[..i] && ts[..i + 1][i..] == [ts[i]];
    assert [ts[i]][1..] == [];
  }

  /** After a failure the rest of the tasks is left out. */
  lemma {:induction false} StopsThere(ts: seq<TaskDef>, i: nat, roles: set<Role>, ran: seq<Entry>)
    requires i <= |ts| && Runs(ExpandAll(ts[..i], roles), ran) && Failure(ran).Some?
    ensures Runs(ExpandAll(ts, roles), ran)
  {
    hide Failure, Runs, ExpandAll;
    ExpandAllSplit(ts, i, roles);
    RunsOn(ExpandAll(ts[..i], roles), ran, ExpandAll(ts[i..], roles), []);
    assert ran + [] == ran;
  }

  /** Tasks that are run on request. */
  function ExpandEach(ts: seq<TaskDef>, roles: set<Role>): seq<Item> {
    if ts == [] then [] else Expand(ts[0], roles) + ExpandEach(ts[1..], roles)
  }

  lemma {:induction false} ExpandEachSplit(ts: seq<TaskDef>, i: nat, roles: set<Role>)
    requires i <= |ts|
    ensures ExpandEach(ts, roles) == ExpandEach(ts[..i], roles) + ExpandEach(ts[i..], roles)
  {
    hide Expand;
    if i == 0 {
      assert ts[..0] == [] && ts[0..] == ts;
    } else {
      ExpandEachSplit(ts[1..], i - 1, roles);
      assert ts[..i][1..] == ts[1..][..i - 1] && ts[i..] == ts[1..][i - 1..];
    }
  }

  lemma {:induction false} NextOf(ts: seq<TaskDef>, i: nat, roles: set<Role>)
    requires i < |ts|
    ensures ExpandEach(ts[..i + 1], roles) == ExpandEach(ts[..i], roles) + Expand(ts[i], roles)
  {
    hide Expand;
    ExpandEachSplit(ts[..i + 1], i, roles);
    assert ts[..i + 1][..i] == ts[..i] && ts[..i + 1][i..] == [ts[i]];
    assert [ts[i]][1..] == [];
  }

  // ----- the runner

  datatype State = NotRunning | Running | RollingBack | Finished

  class SessionRunner {
    const roles: set<Role>
    var state: State
    var myLastResult: TaskResult
    var myLastRollbackResult: TaskResult
    /** Every body run so far, with its result. */
    ghost var log: seq<Entry>

    /** Until the first failure the last result is good. */
    ghost predicate Valid()
      reads this
    {
      state != RollingBack ==> myLastResult.Ok?
    }

    constructor (roles: set<Role>)
      ensures Valid() && this.roles == roles && state == NotRunning && log == []
      ensures myLastResult == myLastRollbackResult == OK
    {
      this.roles := roles;
      state, myLastResult, myLastRollbackResult, log := NotRunning, OK, OK, [];
    }

    /** How a run leaves the runner: a failure turns it to rolling back for good and stays the last result for good. */
    ghost predicate Moved(state0: State, last0: TaskResult, rollback0: TaskResult, failure: Option<TaskResult>)
      reads this
    {
      && state == (if failure.Some? then RollingBack else if state0 == NotRunning then Running else state0)
      && (state0 == RollingBack ==> myLastResult == last0)
      && (state0 != RollingBack && failure.Some? ==> myLastResult == failure.value)
      && (state0 != RollingBack && failure.None? ==> myLastResult.Ok? && myLastRollbackResult == rollback0)
    }

    /** A body may end in any way, but does not run tasks through this runner. */
    method RunSession(id: nat) returns (r: TaskResult)
      modifies this`log
      ensures log == old(log) + [Entry(id, r)]
    {
      r := *;
      log := log + [Entry(id, r)];
    }

    /** `run` for one task. */
    method RunOne(t: TaskDef) returns (r: TaskResult, ghost ran: seq<Entry>)
      requires Valid()
      modifies this
      ensures Valid()
      ensures log == old(log) + ran && Runs(Expand(t, roles), ran)
      ensures if Failure(ran).Some? then r == Failure(ran).value else r == OK
      ensures Moved(old(state), old(myLastResult), old(myLastRollbackResult), Failure(ran))
      ensures myLastRollbackResult == LastRollback(t, roles, ran, old(state) == RollingBack, old(myLastRollbackResult))
      decreases t, 6
    {
      r, ran := RunWithDependencies(t);
    }

    /** `run` for several tasks, whatever their roles: stops at the first one that fails. */
    method Run(tasks: seq<TaskDef>) returns (r: TaskResult, ghost ran: seq<Entry>)
      requires Valid()
      modifies this
      ensures Valid()
      ensures log == old(log) + ran && Runs(ExpandEach(tasks, roles), ran)
      ensures r == if Failure(ran).Some? then Failure(ran).value else OK
      ensures tasks != [] ==> Moved(old(state), old(myLastResult), old(myLastRollbackResult), Failure(ran))
      ensures tasks == [] ==> state == old(state) && myLastResult == old(myLastResult)
    {
      hide Failure, Runs, Expand, LastRollback, HasRole;
      ran := [];
      NoFailure();
      NothingRuns(roles);
      var i := 0;
      while i < |tasks|
        invariant 0 <= i <= |tasks| && log == old(log) + ran && Valid()
        invariant Runs(ExpandEach(tasks[..i], roles), ran) && Failure(ran).None?
        invariant if i == 0 then state == old(state) && myLastResult == old(myLastResult) && myLastRollbackResult == old(myLastRollbackResult)
                  else Moved(old(state), old(myLastResult), old(myLastRollbackResult), None)
      {
        NextOf(tasks, i, roles);
        ghost var x;
        r, x := RunWithDependencies(tasks[i]);
        RunsOn(ExpandEach(tasks[..i], roles), ran, Expand(tasks[i], roles), x);
        FailureOf(ran, x);
        ran := ran + x;
        if r.Nok? {
          ExpandEachSplit(tasks, i + 1, roles);
          RunsOn(ExpandEach(tasks[..i + 1], roles), ran, ExpandEach(tasks[i + 1..], roles), []);
          assert ran + [] == ran;
          return;
        }
        i := i + 1;
      }
      assert tasks[..i] == tasks;
      r := OK;
    }

    /** One task with everything around it. */
    method RunWithDependencies(t: TaskDef) returns (last: TaskResult, ghost ran: seq<Entry>)
      requires Valid()
      modifies this
      ensures Valid()
      ensures log == old(log) + ran && Runs(Expand(t, roles), ran)
      ensures if Failure(ran).Some? then last == Failure(ran).value else last == OK
      ensures Moved(old(state), old(myLastResult), old(myLastRollbackResult), Failure(ran))
      ensures myLastRollbackResult == LastRollback(t, roles, ran, old(state) == RollingBack, old(myLastRollbackResult))
      ensures Failure(ran).None? && old(state) != RollingBack ==> myLastResult == OwnResult(t, roles, ran)
      decreases t, 5
    {
      hide Runs, Failure, Tried, Undo, ExpandAll, Own, Expand, OwnResult, LastRollback;
      NoFailure();
      if state == NotRunning {
        state := Running;
      }
      ghost var x: seq<Entry>, y: seq<Entry>, z: seq<Entry>, u: seq<Entry> := [], [], [], [];
      ghost var w;
      last, w := RunCollection(t.dependsOn);
      var myResult := OK;
      if last.Ok? {
        last, x := RunCollection(t.before);
      }
      if last.Ok? {
        myResult, y := RunMe(t);
        last := myResult;
      }
      if last.Ok? {
        last, z := RunCollection(t.after);
      }
      u := Conclude(t, myResult);
      ran := w + x + (y + u) + z;
      Stages(t, roles, w, x, y, u, z);
      LastRollbackIs(t, roles, w, x, y, u, z, old(state) == RollingBack, old(myLastRollbackResult));
      if Failure(ran).None? {
        OwnResultIs(t, roles, w, x, y, z);
      }
    }

    /** The end of `runWithDependencies`: keeps the task's own result, and undoes the task if that is a failure. */
    method Conclude(t: TaskDef, myResult: TaskResult) returns (ghost u: seq<Entry>)
      requires Valid() && state != NotRunning
      modifies this
      ensures Valid() && log == old(log) + u
      ensures if myResult.Nok? then Runs(Undo(t, roles), u) else u == []
      ensures state == (if myResult.Nok? then RollingBack else old(state))
      ensures myLastResult == if old(state) == RollingBack then old(myLastResult) else myResult
      ensures var kept := if old(state) == RollingBack then myResult else old(myLastRollbackResult);
              myLastRollbackResult == if myResult.Nok? && t.rollback.Some? then LastRollback(t.rollback.value, roles, u, true, kept) else kept
      decreases t, 4, 1
    {
      hide LastRollback;
      u := [];
      if state != RollingBack {
        myLastResult := myResult;
      } else {
        myLastRollbackResult := myResult;
      }
      if myResult.Nok? {
        state := RollingBack;
        u := RunRollback(t);
      }
    }

    /** `runRollback` of the failed task. */
    method RunRollback(t: TaskDef) returns (ghost ran: seq<Entry>)
      requires Valid() && state == RollingBack
      modifies this
      ensures Valid() && state == RollingBack && myLastResult == old(myLastResult)
      ensures log == old(log) + ran && Runs(Undo(t, roles), ran)
      ensures myLastRollbackResult == if t.rollback.None? then old(myLastRollbackResult)
                                      else LastRollback(t.rollback.value, roles, ran, true, old(myLastRollbackResult))
      decreases t, 4, 0
    {
      hide LastRollback;
      ran := [];
      if t.rollback.Some? {
        var r;
        r, ran := RunOne(t.rollback.value);
      }
    }

    /** The task's own bodies: `runMe`, with the role check of `runCollectionOfTasks` and the loop of `_runSingleTask`. */
    method RunMe(t: TaskDef) returns (r: TaskResult, ghost ran: seq<Entry>)
      modifies this`log
      ensures log == old(log) + ran && Tried(Own(t, roles), ran)
      ensures if Failure(ran).Some? then r == Failure(ran).value else r.Ok?
      ensures r == if ran == [] then OK else ran[|ran| - 1].result
      decreases t, 4
    {
      hide Failure, Tried, Expand, Items;
      r, ran := OK, [];
      NoFailure();
      ghost var undo := Undo(t, roles);
      NothingTried(t.sessions, undo);
      if !HasRole(t, roles) {
        return;
      }
      var i := 0;
      while i < |t.sessions|
        invariant 0 <= i <= |t.sessions| && log == old(log) + ran
        invariant Tried(Items(t.sessions[..i], undo), ran) && Failure(ran).None? && r.Ok?
        invariant r == if ran == [] then OK else ran[|ran| - 1].result
      {
        NextItem(t.sessions, i, undo);
        if t.sessions[i].Body? {
          r := RunSession(t.sessions[i].id);
          ghost var e := Entry(t.sessions[i].id, r);
          TriedMore(Items(t.sessions[..i], undo), ran, Item(t.sessions[i].id, undo), e);
          ran := ran + [e];
          if r.Nok? {
            ItemsSplit(t.sessions, i + 1, undo);
            TriedInVain(Items(t.sessions[..i + 1], undo), ran, Items(t.sessions[i + 1..], undo));
            return;
          }
        }
        i := i + 1;
      }
      assert t.sessions[..i] == t.sessions;
    }

    /** The tasks of a list that the session has a role for, up to the first failure. */
    method RunCollection(ts: seq<TaskDef>) returns (r: TaskResult, ghost ran: seq<Entry>)
      requires Valid() && state != NotRunning
      modifies this
      ensures Valid()
      ensures log == old(log) + ran && Runs(ExpandAll(ts, roles), ran)
      ensures if Failure(ran).Some? then r == Failure(ran).value else r == OK
      ensures Moved(old(state), old(myLastResult), old(myLastRollbackResult), Failure(ran))
      decreases ts
    {
      hide Failure, Runs, Expand, ExpandAll, LastRollback, HasRole;
      assert ts[..0] == [];
      r, ran := OK, [];
      NoFailure();
      NothingRuns(roles);
      var i := 0;
      while i < |ts|
        invariant 0 <= i <= |ts| && log == old(log) + ran && Valid() && state != NotRunning
        invariant Runs(ExpandAll(ts[..i], roles), ran) && Failure(ran).None? && r == OK
        invariant Moved(old(state), old(myLastResult), old(myLastRollbackResult), None)
      {
        NextTask(ts, i, roles);
        if HasRole(ts[i], roles) {
          ghost var x;
          r, x := RunWithDependencies(ts[i]);
          RunsOn(ExpandAll(ts[..i], roles), ran, Expand(ts[i], roles), x);
          FailureOf(ran, x);
          ran := ran + x;
          if r.Nok? {
            StopsThere(ts, i + 1, roles, ran);
            return;
          }
        }
        i := i + 1;
      }
      assert ts[..i] == ts;
    }
  }
}
