/** The console of `bear.js`: events arrive in any order, and those whose parent is not there yet wait for it. */
module Console {

  type Id = string

  /** Sessions, tasks and commands have an id, texts (here: texts without a log level) have not. */
  datatype Event =
    | Session(id: Id)
    | Task(id: Id, parent: Id)
    | Command(id: Id, parent: Id)
    | TextAdded(text: string, parent: Id)

  function Rank(e: Event): nat {
    match e
    case Session(_) => 0
    case Task(_, _) => 1
    case Command(_, _) => 2
    case TextAdded(_, _) => 3
  }

  /** The element of event `x` is the parent that `e` asks for. */
  predicate ParentOf(x: Event, e: Event) {
    !x.TextAdded? && !e.Session? && x.id == e.parent
  }

  /** Parents are of a lower layer: tasks are under sessions, commands under tasks or sessions, texts under any of these. */
  ghost predicate Layered(r: multiset<Event>) {
    forall x, e :: x in r && e in r && ParentOf(x, e) ==> Rank(x) < Rank(e)
  }

  /** There is an unbroken line of parents from `e` up to a session. */
  ghost predicate Anchored(r: multiset<Event>, e: Event)
    decreases Rank(e)
  {
    e.Session? || exists x :: x in r && Rank(x) < Rank(e) && ParentOf(x, e) && Anchored(r, x)
  }

  /** The page holds the parent of `e`. */
  predicate ParentShown(page: seq<Event>, e: Event) {
    exists i :: 0 <= i < |page| && ParentOf(page[i], e)
  }

  ghost predicate Waiting(page: seq<Event>, queue: seq<Event>) {
    forall i :: 0 <= i < |queue| ==> !ParentShown(page, queue[i])
  }

  // ----- going through a queue once

  datatype Sweep = Sweep(page: seq<Event>, rest: seq<Event>)

  /** One pass over a queue: each event whose parent is there by then goes on the page, the others stay. */
  function Swept(page: seq<Event>, queue: seq<Event>): Sweep
    decreases |queue|
  {
    if queue == [] then Sweep(page, [])
    else if ParentShown(page, queue[0]) then Swept(page + [queue[0]], queue[1..])
    else
      var r := Swept(page, queue[1..]);
      r.(rest := [queue[0]] + r.rest)
  }

  /** On the page `page`, event `i` stands behind its parent. */
  ghost predicate Supported(page: seq<Event>, i: nat)
    requires i < |page|
  {
    ParentShown(page[..i], page[i])
  }

  lemma ShownBefore(p: seq<Event>, q: seq<Event>, e: Event)
    requires p <= q && ParentShown(p, e)
    ensures ParentShown(q, e)
  {
    var i :| 0 <= i < |p| && ParentOf(p[i], e);
    assert ParentOf(q[i], e);
  }

  /** A pass keeps the page, and loses nothing. */
  lemma {:induction false} SweptKeeps(page: seq<Event>, queue: seq<Event>)
    ensures var r := Swept(page, queue); page <= r.page && multiset(r.page) + multiset(r.rest) == multiset(page) + multiset(queue)
    decreases |queue|
  {
    hide ParentShown;
    if queue != [] {
      var e, q := queue[0], queue[1..];
      HeadOff(queue);
      if ParentShown(page, e) {
        SweptKeeps(page + [e], q);
        assert multiset(page + [e]) == multiset(page) + multiset{e};
      } else {
        SweptKeeps(page, q);
        var r := Swept(page, q);
        HeadOn(e, r.rest);
        OneMoreEach(multiset(r.page), multiset(r.rest), multiset(page), multiset(q), multiset{e});
      }
    }
  }

  lemma OneMoreEach(a: multiset<Event>, b: multiset<Event>, c: multiset<Event>, d: multiset<Event>, e: multiset<Event>)
    requires a + b == c + d
    ensures a + (e + b) == c + (e + d)
  {
    assert a + (e + b) == (a + b) + e;
    assert c + (e + d) == (c + d) + e;
  }

  lemma HeadOn(e: Event, s: seq<Event>)
    ensures multiset([e] + s) == multiset{e} + multiset(s)
  {
  }

  lemma HeadOff(s: seq<Event>)
    requires s != []
    ensures multiset(s) == multiset{s[0]} + multiset(s[1..])
  {
    assert s == [s[0]] + s[1..];
  }

  /** What stays comes from the queue, and has not had its parent on the page. */
  lemma {:induction false} SweptLeaves(page: seq<Event>, queue: seq<Event>, i: nat)
    requires i < |Swept(page, queue).rest|
    ensures var x := Swept(page, queue).rest[i]; x in queue && !ParentShown(page, x)
    decreases |queue|
  {
    hide ParentShown;
    var e, q := queue[0], queue[1..];
    assert queue == [e] + q;
    if ParentShown(page, e) {
      SweptLeaves(page + [e], q, i);
      var x := Swept(page, queue).rest[i];
      if ParentShown(page, x) {
        ShownBefore(page, page + [e], x);
      }
    } else if i > 0 {
      SweptLeaves(page, q, i - 1);
    }
  }

  /** What comes onto the page comes from the queue, and behind its parent. */
  lemma {:induction false} SweptSupports(page: seq<Event>, queue: seq<Event>)
    ensures var r := Swept(page, queue);
            page <= r.page && forall i :: |page| <= i < |r.page| ==> r.page[i] in queue && Supported(r.page, i)
    decreases |queue|
  {
    hide ParentShown;
    SweptKeeps(page, queue);
    if queue != [] {
      var e, q := queue[0], queue[1..];
      var p := if ParentShown(page, e) then page + [e] else page;
      var r := Swept(page, queue);
      SweptKeeps(p, q);
      SweptSupports(p, q);
      if ParentShown(page, e) {
        FirstSupported(page, e, r.page);
      }
    }
  }

  lemma FirstSupported(page: seq<Event>, e: Event, page': seq<Event>)
    requires ParentShown(page, e) && page + [e] <= page'
    ensures page'[|page|] == e && Supported(page', |page|)
  {
    assert (page + [e])[|page|] == e;
    assert page'[..|page|] == page;
  }

  lemma NewlyShown(p: seq<Event>, q: seq<Event>, e: Event) returns (k: nat)
    requires p <= q && !ParentShown(p, e) && ParentShown(q, e)
    ensures |p| <= k < |q| && ParentOf(q[k], e)
  {
    forall m | 0 <= m < |p|
      ensures !ParentOf(q[m], e)
    {
      assert q[m] == p[m];
    }
    k :| 0 <= k < |q| && ParentOf(q[k], e);
  }

  /** When no event of a queue is the parent of another, nothing that stays has its parent on the page. */
  lemma {:induction false} SweptSettles(page: seq<Event>, queue: seq<Event>)
    requires forall x, e :: x in queue && e in queue ==> !ParentOf(x, e)
    ensures var r := Swept(page, queue); Waiting(r.page, r.rest)
  {
    hide Swept, ParentShown, ParentOf;
    SweptSupports(page, queue);
    var r := Swept(page, queue);
    forall i | 0 <= i < |r.rest|
      ensures !ParentShown(r.page, r.rest[i])
    {
      SweptLeaves(page, queue, i);
      if ParentShown(r.page, r.rest[i]) {
        var k := NewlyShown(page, r.page, r.rest[i]);
      }
    }
  }

  /** Events of a higher layer do not help those that wait. */
  lemma StillWaiting(page: seq<Event>, page': seq<Event>, queue: seq<Event>)
    requires Waiting(page, queue) && page <= page'
    requires forall i, e :: |page| <= i < |page'| && e in queue ==> !ParentOf(page'[i], e)
    ensures Waiting(page', queue)
  {
    hide ParentShown, ParentOf;
    forall i | 0 <= i < |queue|
      ensures !ParentShown(page', queue[i])
    {
      var e := queue[i];
      assert e in queue && !ParentShown(page, e);
      if ParentShown(page', e) {
        var k := NewlyShown(page, page', e);
      }
    }
  }

  /** More events do not break a line of parents. */
  lemma {:induction false} LaterAnchored(r: multiset<Event>, r': multiset<Event>, e: Event)
    requires r <= r' && Anchored(r, e)
    ensures Anchored(r', e)
    decreases Rank(e)
  {
    if !e.Session? {
      var x :| x in r && Rank(x) < Rank(e) && ParentOf(x, e) && Anchored(r, x);
      LaterAnchored(r, r', x);
    }
  }

  ghost predicate AllAnchored(r: multiset<Event>, page: seq<Event>) {
    forall i :: 0 <= i < |page| ==> page[i] in r && Anchored(r, page[i])
  }

  /** What is put behind its parent is anchored with it. */
  lemma {:induction false} SupportedAnchored(r: multiset<Event>, page: seq<Event>, page': seq<Event>)
    requires Layered(r) && AllAnchored(r, page) && page <= page'
    requires forall i :: |page| <= i < |page'| ==> page'[i] in r && Supported(page', i)
    ensures AllAnchored(r, page')
    decreases |page'|
  {
    hide Supported, Anchored, Layered;
    if |page| < |page'| {
      var l := |page'| - 1;
      var p := page'[..l];
      forall i | |page| <= i < |p|
        ensures p[i] in r && Supported(p, i)
      {
        SupportedFront(page', l, i);
      }
      SupportedAnchored(r, page, p);
      LastAnchored(r, p, page', l);
      assert forall i :: 0 <= i < l ==> page'[i] == p[i];
    } else {
      assert page' == page;
    }
  }

  lemma SupportedFront(page: seq<Event>, l: nat, i: nat)
    requires i < l <= |page| && Supported(page, i)
    ensures Supported(page[..l], i)
  {
    assert page[..l][..i] == page[..i];
  }

  lemma {:induction false} LastAnchored(r: multiset<Event>, p: seq<Event>, page: seq<Event>, l: nat)
    requires Layered(r) && AllAnchored(r, p) && l < |page| && p == page[..l] && page[l] in r && Supported(page, l)
    ensures Anchored(r, page[l])
  {
    var k :| 0 <= k < l && ParentOf(p[k], page[l]);
    assert p[k] in r && Anchored(r, p[k]);
  }

  // ----- going through the three queues

  ghost predicate OfKind(r: multiset<Event>, queue: seq<Event>, rank: nat) {
    forall i :: 0 <= i < |queue| ==> queue[i] in r && Rank(queue[i]) == rank
  }

  /** After a pass over the queue of one kind nothing of that kind waits in vain, nor does anything of the kinds gone through before. */
  lemma {:induction false} PassSettles(r: multiset<Event>, page: seq<Event>, queue: seq<Event>, rank: nat)
    requires Layered(r) && OfKind(r, queue, rank) && AllAnchored(r, page)
    ensures var s := Swept(page, queue); page <= s.page && Waiting(s.page, s.rest) && AllAnchored(r, s.page) && OfKind(r, s.rest, rank)
  {
    hide Swept, Anchored, ParentShown, Supported;
    SweptSupports(page, queue);
    forall x, e | x in queue && e in queue
      ensures !ParentOf(x, e)
    {
      assert x in r && e in r && Rank(x) == Rank(e);
    }
    SweptSettles(page, queue);
    var s := Swept(page, queue);
    forall i | |page| <= i < |s.page|
      ensures s.page[i] in r && Supported(s.page, i)
    {
      assert s.page[i] in queue;
    }
    SupportedAnchored(r, page, s.page);
    forall i | 0 <= i < |s.rest|
      ensures s.rest[i] in r && Rank(s.rest[i]) == rank
    {
      SweptLeaves(page, queue, i);
    }
  }

  lemma {:induction false} LowerStillWait(r: multiset<Event>, page: seq<Event>, queue: seq<Event>, rank: nat, lower: seq<Event>, less: nat)
    requires Layered(r) && OfKind(r, queue, rank) && OfKind(r, lower, less) && less < rank && Waiting(page, lower)
    ensures Waiting(Swept(page, queue).page, lower)
  {
    hide Swept, Waiting, Supported;
    SweptSupports(page, queue);
    var p := Swept(page, queue).page;
    forall i, e | |page| <= i < |p| && e in lower
      ensures !ParentOf(p[i], e)
    {
      assert p[i] in queue;
      assert p[i] in r && e in r && Rank(p[i]) == rank && Rank(e) == less;
    }
    StillWaiting(page, p, lower);
  }

  /** Going through the tasks, the commands and the texts, in this order, settles layered events. */
  lemma {:induction false} SweepSettles(r: multiset<Event>, page: seq<Event>, tasks: seq<Event>, commands: seq<Event>, texts: seq<Event>)
    requires Layered(r) && AllAnchored(r, page)
    requires OfKind(r, tasks, 1) && OfKind(r, commands, 2) && OfKind(r, texts, 3)
    ensures var s1 := Swept(page, tasks);
            var s2 := Swept(s1.page, commands);
            var s3 := Swept(s2.page, texts);
            Waiting(s3.page, s1.rest) && Waiting(s3.page, s2.rest) && Waiting(s3.page, s3.rest) && AllAnchored(r, s3.page)
  {
    hide Swept, Waiting, Layered, AllAnchored, OfKind;
    var s1 := Swept(page, tasks);
    var s2 := Swept(s1.page, commands);
    PassSettles(r, page, tasks, 1);
    PassSettles(r, s1.page, commands, 2);
    LowerStillWait(r, s1.page, commands, 2, s1.rest, 1);
    PassSettles(r, s2.page, texts, 3);
    LowerStillWait(r, s2.page, texts, 3, s1.rest, 1);
    LowerStillWait(r, s2.page, texts, 3, s2.rest, 2);
  }

  // ----- what the page shows

  /** Every event received is on the page or waits in the queue of its kind. */
  ghost predicate InPlace(r: multiset<Event>, page: seq<Event>, tasks: seq<Event>, commands: seq<Event>, texts: seq<Event>) {
    && r == multiset(page) + multiset(tasks) + multiset(commands) + multiset(texts)
    && OfKind(r, tasks, 1) && OfKind(r, commands, 2) && OfKind(r, texts, 3)
  }

  lemma {:induction false} SweepKeepsPlace(r: multiset<Event>, page: seq<Event>, tasks: seq<Event>, commands: seq<Event>, texts: seq<Event>)
    requires InPlace(r, page, tasks, commands, texts)
    ensures var s1 := Swept(page, tasks);
            var s2 := Swept(s1.page, commands);
            var s3 := Swept(s2.page, texts);
            InPlace(r, s3.page, s1.rest, s2.rest, s3.rest)
  {
    hide Swept;
    var s1 := Swept(page, tasks);
    var s2 := Swept(s1.page, commands);
    var s3 := Swept(s2.page, texts);
    SweptKeeps(page, tasks);
    SweptKeeps(s1.page, commands);
    SweptKeeps(s2.page, texts);
    RestOfKind(r, page, tasks, 1);
    RestOfKind(r, s1.page, commands, 2);
    RestOfKind(r, s2.page, texts, 3);
    Reordered(multiset(page), multiset(tasks), multiset(commands), multiset(texts), multiset(s1.page), multiset(s1.rest),
              multiset(s2.page), multiset(s2.rest), multiset(s3.page), multiset(s3.rest));
  }

  lemma {:induction false} RestOfKind(r: multiset<Event>, page: seq<Event>, queue: seq<Event>, rank: nat)
    requires OfKind(r, queue, rank)
    ensures OfKind(r, Swept(page, queue).rest, rank)
  {
    hide Swept, ParentShown;
    var s := Swept(page, queue);
    forall i | 0 <= i < |s.rest|
      ensures s.rest[i] in r && Rank(s.rest[i]) == rank
    {
      SweptLeaves(page, queue, i);
    }
  }

  lemma Reordered(p: multiset<Event>, t: multiset<Event>, c: multiset<Event>, x: multiset<Event>, p1: multiset<Event>, t1: multiset<Event>,
                  p2: multiset<Event>, c2: multiset<Event>, p3: multiset<Event>, x3: multiset<Event>)
    requires p1 + t1 == p + t && p2 + c2 == p1 + c && p3 + x3 == p2 + x
    ensures p + t + c + x == p3 + t1 + c2 + x3
  {
    forall e: Event
      ensures p[e] + t[e] + c[e] + x[e] == p3[e] + t1[e] + c2[e] + x3[e]
    {
      assert (p1 + t1)[e] == (p + t)[e] && (p2 + c2)[e] == (p1 + c)[e] && (p3 + x3)[e] == (p2 + x)[e];
    }
    assert forall e: Event :: (p + t + c + x)[e] == (p3 + t1 + c2 + x3)[e];
  }

  ghost predicate Quiet(r: multiset<Event>, page: seq<Event>, tasks: seq<Event>, commands: seq<Event>, texts: seq<Event>) {
    Waiting(page, tasks) && Waiting(page, commands) && Waiting(page, texts) && AllAnchored(r, page)
  }

  /** An anchored event does not wait. */
  lemma {:induction false} AnchoredShown(r: multiset<Event>, page: seq<Event>, tasks: seq<Event>, commands: seq<Event>, texts: seq<Event>, e: Event)
    requires InPlace(r, page, tasks, commands, texts) && Quiet(r, page, tasks, commands, texts) && Anchored(r, e)
    ensures e !in tasks && e !in commands && e !in texts
    decreases Rank(e)
  {
    if !e.Session? {
      var x :| x in r && Rank(x) < Rank(e) && ParentOf(x, e) && Anchored(r, x);
      AnchoredShown(r, page, tasks, commands, texts, x);
      assert x in multiset(page);
      var i :| 0 <= i < |page| && page[i] == x;
      assert ParentShown(page, e);
    }
  }

  /** The page shows exactly the anchored events, each as often as it was received: nothing else of the order matters. */
  lemma {:induction false} PageShows(r: multiset<Event>, page: seq<Event>, tasks: seq<Event>, commands: seq<Event>, texts: seq<Event>, e: Event)
    requires InPlace(r, page, tasks, commands, texts) && Quiet(r, page, tasks, commands, texts)
    ensures multiset(page)[e] == if Anchored(r, e) then r[e] else 0
  {
    hide Anchored, OfKind, Waiting;
    if Anchored(r, e) {
      AnchoredShown(r, page, tasks, commands, texts, e);
      assert e !in multiset(tasks) && e !in multiset(commands) && e !in multiset(texts);
    } else {
      assert e !in page;
      assert e !in multiset(page);
    }
  }

  // ----- one message after the other

  /** What a terminal holds. */
  datatype View = View(page: seq<Event>, tasks: seq<Event>, commands: seq<Event>, texts: seq<Event>)

  const Nothing := View([], [], [], [])

  /** The event goes on the page or into the queue of its kind. */
  function Placed(v: View, e: Event): View {
    if e.Session? || ParentShown(v.page, e) then v.(page := v.page + [e])
    else
      match e
      case Task(_, _) => v.(tasks := v.tasks + [e])
      case Command(_, _) => v.(commands := v.commands + [e])
      case TextAdded(_, _) => v.(texts := v.texts + [e])
  }

  /** The three queues are gone through once. */
  function AllSwept(v: View): View {
    var s1 := Swept(v.page, v.tasks);
    var s2 := Swept(s1.page, v.commands);
    var s3 := Swept(s2.page, v.texts);
    View(s3.page, s1.rest, s2.rest, s3.rest)
  }

  function Processed(v: View, e: Event): View {
    AllSwept(Placed(v, e))
  }

  function AllProcessed(v: View, es: seq<Event>): View
    decreases |es|
  {
    if es == [] then v else AllProcessed(Processed(v, es[0]), es[1..])
  }

  lemma {:induction false} OneMoreProcessed(v: View, es: seq<Event>, e: Event)
    ensures AllProcessed(v, es + [e]) == Processed(AllProcessed(v, es), e)
    decreases |es|
  {
    hide Processed;
    if es == [] {
      assert es + [e] == [e] && [e][1..] == [];
    } else {
      assert (es + [e])[1..] == es[1..] + [e];
      OneMoreProcessed(Processed(v, es[0]), es[1..], e);
    }
  }

  // ----- the terminal

  class Terminal {
    const name: string
    /** The elements of the page in the order of insertion. */
    var page: seq<Event>
    var unprocessedTasks: seq<Event>
    var unprocessedCommands: seq<Event>
    var unprocessedTexts: seq<Event>
    /** Every event received so far. */
    ghost var received: multiset<Event>

    function Held(): View
      reads this
    {
      View(page, unprocessedTasks, unprocessedCommands, unprocessedTexts)
    }

    ghost predicate Accounted()
      reads this
    {
      InPlace(received, page, unprocessedTasks, unprocessedCommands, unprocessedTexts)
    }

    /** Nothing waits for a parent that is there, and what is there is anchored. */
    ghost predicate Settled()
      reads this
    {
      Quiet(received, page, unprocessedTasks, unprocessedCommands, unprocessedTexts)
    }

    constructor (name: string)
      ensures this.name == name && Accounted() && Settled() && received == multiset{}
      ensures page == unprocessedTasks == unprocessedCommands == unprocessedTexts == []
    {
      this.name := name;
      page, unprocessedTasks, unprocessedCommands, unprocessedTexts, received := [], [], [], [], multiset{};
    }

    /** `quicklyInsertSession`. */
    method InsertSession(e: Event)
      modifies this`page
      ensures page == old(page) + [e]
    {
      page := page + [e];
    }

    /** `quicklyInsertTask`, `quicklyInsertCommand` and `quicklyInsertText`, which differ in their markup only. */
    method QuicklyInsert(e: Event) returns (inserted: bool)
      modifies this`page
      ensures inserted <==> ParentShown(old(page), e)
      ensures page == if inserted then old(page) + [e] else old(page)
    {
      inserted := ParentShown(page, e);
      if inserted {
        page := page + [e];
      }
    }

    /** `queue.filter(e => !quicklyInsert(e))`. */
    method InsertWaiting(queue: seq<Event>) returns (rest: seq<Event>)
      modifies this`page
      ensures Sweep(page, rest) == Swept(old(page), queue)
    {
      hide ParentShown;
      rest := [];
      var k := 0;
      assert queue[0..] == queue;
      while k < |queue|
        invariant 0 <= k <= |queue|
        invariant var r := Swept(page, queue[k..]); Sweep(r.page, rest + r.rest) == Swept(old(page), queue)
      {
        assert queue[k..][0] == queue[k] && queue[k..][1..] == queue[k + 1..];
        var inserted := QuicklyInsert(queue[k]);
        if !inserted {
          ghost var r := Swept(page, queue[k + 1..]);
          assert rest + ([queue[k]] + r.rest) == rest + [queue[k]] + r.rest;
          rest := rest + [queue[k]];
        }
        k := k + 1;
      }
      assert rest + [] == rest;
    }

    /** What one event does to the page and the queues before the queues are gone through. */
    method Place(e: Event)
      modifies this
      ensures received == old(received) + multiset{e}
      ensures Held() == Placed(old(Held()), e)
    {
      received := received + multiset{e};
      var inserted;
      match e {
        case TextAdded(_, _) =>
          inserted := QuicklyInsert(e);
          if !inserted {
            unprocessedTexts := unprocessedTexts + [e];
          }
        case Command(_, _) =>
          inserted := QuicklyInsert(e);
          if !inserted {
            unprocessedCommands := unprocessedCommands + [e];
          }
        case Task(_, _) =>
          inserted := QuicklyInsert(e);
          if !inserted {
            unprocessedTasks := unprocessedTasks + [e];
          }
        case Session(_) =>
          InsertSession(e);
      }
    }

    /** The "message" handler. As long as all events received are layered, nothing waits for a parent that is there. */
    method Message(e: Event, console: string)
      requires Accounted()
      modifies this
      ensures Accounted()
      ensures console != name ==> received == old(received) && Held() == old(Held())
      ensures console == name ==> received == old(received) + multiset{e} && Held() == Processed(old(Held()), e)
      ensures console == name && old(Settled()) && Layered(received) ==> Settled()
    {
      hide InPlace, Quiet, Layered, ParentShown, Swept;
      if console != name {
        return;
      }
      ghost var r0, p0, t0, c0, x0 := received, page, unprocessedTasks, unprocessedCommands, unprocessedTexts;
      Place(e);
      PlacedInPlace(r0, p0, t0, c0, x0, e);
      ghost var p, t, c, x := page, unprocessedTasks, unprocessedCommands, unprocessedTexts;
      unprocessedTasks := InsertWaiting(unprocessedTasks);
      unprocessedCommands := InsertWaiting(unprocessedCommands);
      unprocessedTexts := InsertWaiting(unprocessedTexts);
      SweepKeepsPlace(received, p, t, c, x);
      if old(Settled()) && Layered(received) {
        PlacedAnchored(r0, p0, t0, c0, x0, e);
        SweptQuiet(received, p, t, c, x);
      }
    }
  }

  lemma {:induction false} SweptQuiet(r: multiset<Event>, page: seq<Event>, tasks: seq<Event>, commands: seq<Event>, texts: seq<Event>)
    requires Layered(r) && AllAnchored(r, page) && InPlace(r, page, tasks, commands, texts)
    ensures var s1 := Swept(page, tasks);
            var s2 := Swept(s1.page, commands);
            var s3 := Swept(s2.page, texts);
            Quiet(r, s3.page, s1.rest, s2.rest, s3.rest)
  {
    hide Swept, Layered, AllAnchored, Waiting;
    SweepSettles(r, page, tasks, commands, texts);
  }

  lemma PlacedInPlace(r: multiset<Event>, page: seq<Event>, tasks: seq<Event>, commands: seq<Event>, texts: seq<Event>, e: Event)
    requires InPlace(r, page, tasks, commands, texts)
    ensures var shown := e.Session? || ParentShown(page, e);
            InPlace(r + multiset{e}, if shown then page + [e] else page,
                    if e.Task? && !shown then tasks + [e] else tasks,
                    if e.Command? && !shown then commands + [e] else commands,
                    if e.TextAdded? && !shown then texts + [e] else texts)
  {
    hide ParentShown;
    Added(page, e);
    Added(tasks, e);
    Added(commands, e);
    Added(texts, e);
    KindAdded(r, tasks, 1, e);
    KindAdded(r, commands, 2, e);
    KindAdded(r, texts, 3, e);
    hide OfKind;
    var p, t, c, x, o := multiset(page), multiset(tasks), multiset(commands), multiset(texts), multiset{e};
    assert (p + o) + t + c + x == p + t + c + x + o;
    assert p + (t + o) + c + x == p + t + c + x + o;
    assert p + t + (c + o) + x == p + t + c + x + o;
    assert p + t + c + (x + o) == p + t + c + x + o;
  }

  lemma KindAdded(r: multiset<Event>, queue: seq<Event>, rank: nat, e: Event)
    requires OfKind(r, queue, rank)
    ensures OfKind(r + multiset{e}, queue, rank)
    ensures Rank(e) == rank ==> OfKind(r + multiset{e}, queue + [e], rank)
  {
    var q := queue + [e];
    forall i | 0 <= i < |q|
      ensures q[i] in r + multiset{e} && (i < |queue| || Rank(e) == rank ==> Rank(q[i]) == rank)
    {
      assert i < |queue| ==> q[i] == queue[i];
    }
  }

  lemma Added(s: seq<Event>, e: Event)
    ensures multiset(s + [e]) == multiset(s) + multiset{e}
  {
  }

  lemma PlacedAnchored(r: multiset<Event>, page: seq<Event>, tasks: seq<Event>, commands: seq<Event>, texts: seq<Event>, e: Event)
    requires InPlace(r, page, tasks, commands, texts) && Quiet(r, page, tasks, commands, texts) && Layered(r + multiset{e})
    ensures AllAnchored(r + multiset{e}, if e.Session? || ParentShown(page, e) then page + [e] else page)
  {
    hide Anchored, ParentShown, Layered, Supported, InPlace, Waiting;
    var r' := r + multiset{e};
    forall i | 0 <= i < |page|
      ensures page[i] in r' && Anchored(r', page[i])
    {
      LaterAnchored(r, r', page[i]);
    }
    var p := page + [e];
    if e.Session? {
      SessionAnchored(r', e);
    } else if ParentShown(page, e) {
      FirstSupported(page, e, p);
      SupportedAnchored(r', page, p);
    }
  }

  lemma {:induction false} SessionAnchored(r: multiset<Event>, e: Event)
    requires e.Session?
    ensures Anchored(r, e)
  {
  }

  /** Two terminals that have received the same layered events, in whatever order, show the same. */
  lemma OrderDoesNotMatter(a: Terminal, b: Terminal)
    requires a.Accounted() && a.Settled() && b.Accounted() && b.Settled() && a.received == b.received
    ensures multiset(a.page) == multiset(b.page)
  {
    hide InPlace, Quiet, Anchored;
    forall e: Event
      ensures multiset(a.page)[e] == multiset(b.page)[e]
    {
      PageShows(a.received, a.page, a.unprocessedTasks, a.unprocessedCommands, a.unprocessedTexts, e);
      PageShows(b.received, b.page, b.unprocessedTasks, b.unprocessedCommands, b.unprocessedTexts, e);
    }
  }

  /** Without layers one pass may not be enough: when tasks lie under tasks and arrive innermost first, one is left waiting
      for a parent that is on the page, until the next message. */
  lemma NestedTasksStayBehind(a: Id, b: Id, c: Id, d: Id, e: Event)
    requires a != b && a != c && a != d && b != c && b != d && c != d
    ensures var s, t1, t2, t3 := Session(a), Task(b, a), Task(c, b), Task(d, c);
            var v := AllProcessed(Nothing, [s, t3, t2, t1]);
            && v == View([s, t1, t2], [t3], [], []) && ParentShown(v.page, t3)
            && (e.Session? ==> Processed(v, e) == View([s, t1, t2, e, t3], [], [], []))
  {
    hide AllProcessed, Processed, ParentShown;
    var s, t1, t2, t3 := Session(a), Task(b, a), Task(c, b), Task(d, c);
    ComesFirst(s);
    NotShown([s], t3);
    NotShown([s], t2);
    MustWait(View([s], [], [], []), t3);
    MustWait(View([s], [t3], [], []), t2);
    assert [] + [t3] == [t3] && [t3] + [t2] == [t3, t2];
    Unwinds(s, t1, t2, t3);
    FourProcessed(s, t3, t2, t1);
    var v := View([s, t1, t2], [t3], [], []);
    ShownAt(v.page, 2, t3);
    if e.Session? {
      LetIn(v, e, t3);
      assert v.page + [e] + [t3] == [s, t1, t2, e, t3];
    }
  }

  lemma NotShown(page: seq<Event>, e: Event)
    requires forall i :: 0 <= i < |page| ==> !ParentOf(page[i], e)
    ensures !ParentShown(page, e)
  {
  }

  lemma ShownAt(page: seq<Event>, i: nat, e: Event)
    requires i < |page| && ParentOf(page[i], e)
    ensures ParentShown(page, e)
  {
  }

  lemma FourProcessed(w: Event, x: Event, y: Event, z: Event)
    ensures AllProcessed(Nothing, [w, x, y, z]) == Processed(Processed(Processed(Processed(Nothing, w), x), y), z)
  {
    hide AllProcessed, Processed;
    var v1, v2, v3 := Processed(Nothing, w), Processed(Processed(Nothing, w), x), Processed(Processed(Processed(Nothing, w), x), y);
    FirstProcessed(Nothing, [w, x, y, z]);
    FirstProcessed(v1, [x, y, z]);
    FirstProcessed(v2, [y, z]);
    FirstProcessed(v3, [z]);
    assert [w, x, y, z][1..] == [x, y, z] && [x, y, z][1..] == [y, z] && [y, z][1..] == [z] && [z][1..] == [];
    assert AllProcessed(Processed(v3, z), []) == Processed(v3, z) by { NoneProcessed(Processed(v3, z)); }
  }

  lemma {:induction false} FirstProcessed(v: View, es: seq<Event>)
    requires es != []
    ensures AllProcessed(v, es) == AllProcessed(Processed(v, es[0]), es[1..])
  {
    hide Processed;
  }

  lemma {:induction false} NoneProcessed(v: View)
    ensures AllProcessed(v, []) == v
  {
  }

  lemma ComesFirst(s: Event)
    requires s.Session?
    ensures Processed(Nothing, s) == View([s], [], [], [])
  {
    assert [] + [s] == [s];
  }

  /** Where nothing has its parent on the page, a task in want of its own waits with the others. */
  lemma {:induction false} MustWait(v: View, e: Event)
    requires e.Task? && !ParentShown(v.page, e) && Waiting(v.page, v.tasks) && v.commands == v.texts == []
    ensures Processed(v, e) == v.(tasks := v.tasks + [e])
  {
    hide ParentShown;
    NoneLeaves(v.page, v.tasks + [e]);
  }

  lemma {:induction false} NoneLeaves(page: seq<Event>, queue: seq<Event>)
    requires Waiting(page, queue)
    ensures Swept(page, queue) == Sweep(page, queue)
    decreases |queue|
  {
    hide ParentShown;
    if queue != [] {
      assert Waiting(page, queue[1..]);
      NoneLeaves(page, queue[1..]);
    }
  }

  lemma {:induction false} Unwinds(s: Event, t1: Event, t2: Event, t3: Event)
    requires s.Session? && t1.Task? && t2.Task? && t3.Task? && t1.parent == s.id && t2.parent == t1.id && t3.parent == t2.id
    requires t3.parent != s.id && t3.parent != t1.id
    ensures Processed(View([s], [t3, t2], [], []), t1) == View([s, t1, t2], [t3], [], [])
  {
    hide ParentShown;
    var p, q, r := [s, t1], [t3, t2], [s, t1, t2];
    ShownAt([s], 0, t1);
    assert [s] + [t1] == p && p + [t2] == r;
    NotShown(p, t3);
    ShownAt(p, 1, t2);
    assert q[1..] == [t2] && [t2][1..] == [];
    assert Swept(r, []) == Sweep(r, []);
    assert Swept(p, [t2]) == Sweep(r, []);
    assert Swept(p, q) == Sweep(r, [t3] + []);
    assert [t3] + [] == [t3];
    assert Placed(View([s], q, [], []), t1) == View(p, q, [], []);
  }

  lemma {:induction false} LetIn(v: View, e: Event, t: Event)
    requires e.Session? && v.tasks == [t] && v.commands == v.texts == [] && ParentShown(v.page, t)
    ensures Processed(v, e) == View(v.page + [e] + [t], [], [], [])
  {
    hide ParentShown;
    ShownBefore(v.page, v.page + [e], t);
    assert [t][1..] == [];
    assert Swept(v.page + [e] + [t], []) == Sweep(v.page + [e] + [t], []);
    assert Swept(v.page + [e], [t]) == Sweep(v.page + [e] + [t], []);
  }

  /** Any number of messages, one after the other. */
  method Deliver(t: Terminal, es: seq<Event>)
    requires t.Accounted()
    modifies t
    ensures t.Accounted() && t.received == old(t.received) + multiset(es) && t.Held() == AllProcessed(old(t.Held()), es)
    ensures old(t.Settled()) && Layered(t.received) ==> t.Settled()
  {
    hide InPlace, Quiet;
    var i := 0;
    while i < |es|
      invariant 0 <= i <= |es| && t.Accounted() && t.received == old(t.received) + multiset(es[..i])
      invariant t.Held() == AllProcessed(old(t.Held()), es[..i])
      invariant old(t.Settled()) && Layered(old(t.received) + multiset(es)) ==> t.Settled()
    {
      assert es[..i + 1] == es[..i] + [es[i]];
      FewerLayered(old(t.received), es, i + 1);
      OneMoreProcessed(old(t.Held()), es[..i], es[i]);
      t.Message(es[i], t.name);
      i := i + 1;
    }
    assert es[..i] == es;
  }

  lemma FewerLayered(r: multiset<Event>, es: seq<Event>, i: nat)
    requires i <= |es|
    ensures Layered(r + multiset(es)) ==> Layered(r + multiset(es[..i]))
  {
    assert es == es[..i] + es[i..];
    assert multiset(es) == multiset(es[..i]) + multiset(es[i..]);
  }
}
