/** The in-process event bus: lock-protected subscriber list, deferred delivery through each
    subscriber's event loop, bounded queues. */
module EventBus {
  import opened Lists

  type SubId = nat
  type LoopId = nat
  type PubId = nat

  const QUEUE_SIZE: nat := 100

  datatype Message = Message(id: PubId, recipient: string, event: string, payload: string)

  datatype Sub = Sub(pid: string, events: set<string>, loop: LoopId, active: bool, queue: seq<Message>)

  /** What happened to a subscription's messages so far. */
  datatype Log = Log(scheduled: seq<Message>, handled: seq<Message>, enqueued: seq<Message>, received: seq<Message>,
                     dropped: nat, discarded: nat)

  datatype Loop = Loop(closed: bool, pending: seq<(SubId, Message)>)

  /** A publication between taking its snapshot and scheduling its last callback. */
  datatype Flight = Flight(message: Message, targets: seq<SubId>)

  datatype Bus = Bus(
    registered: seq<SubId>,
    subs: map<SubId, Sub>,
    logs: map<SubId, Log>,
    loops: map<LoopId, Loop>,
    flights: map<PubId, Flight>,
    published: set<PubId>)

  datatype Step =
    | OpenLoop(loop: LoopId)
    | CloseLoop(loop: LoopId)
    | Subscribe(sub: SubId, pid: string, events: set<string>, loop: LoopId)
    | Unsubscribe(sub: SubId)
    | Publish(message: Message)
    | Schedule(pub: PubId)
    | Deliver(loop: LoopId)
    | Receive(sub: SubId)

  predicate Matches(s: Sub, m: Message)
  {
    s.pid == m.recipient && m.event in s.events
  }

  /** `list.remove`: drop the first occurrence, if any. */
  function Remove(list: seq<SubId>, x: SubId): (r: seq<SubId>)
    ensures forall y :: y in r ==> y in list
    ensures forall y :: y in list && y != x ==> y in r
  {
    if list == [] then []
    else if list[0] == x then list[1..]
    else
      assert list == [list[0]] + list[1..];
      [list[0]] + Remove(list[1..], x)
  }

  /** The registered subscriptions a message is for, in order of registration. */
  function Targets(subs: map<SubId, Sub>, registered: seq<SubId>, m: Message): (r: seq<SubId>)
    ensures forall s :: s in r <==> s in registered && s in subs && Matches(subs[s], m)
  {
    if registered == [] then [] else
      var rest := Targets(subs, registered[..|registered| - 1], m);
      var last := registered[|registered| - 1];
      assert registered == registered[..|registered| - 1] + [last];
      if last in subs && Matches(subs[last], m) then rest + [last] else rest
  }

  predicate Enabled(b: Bus, step: Step)
  {
    match step
    case OpenLoop(l) => l !in b.loops
    case CloseLoop(l) => l in b.loops
    case Subscribe(s, _, _, l) => s !in b.subs && l in b.loops && !b.loops[l].closed
    case Unsubscribe(s) => s in b.subs
    case Publish(m) => m.id !in b.published
    case Schedule(p) => p in b.flights && b.flights[p].targets != []
    case Deliver(l) => l in b.loops && !b.loops[l].closed && b.loops[l].pending != []
    case Receive(s) => s in b.subs && b.subs[s].queue != []
  }

  /** Mark inactive and take off the list. */
  function Deactivated(b: Bus, s: SubId): Bus
    requires s in b.subs
  {
    b.(subs := b.subs[s := b.subs[s].(active := false)], registered := Remove(b.registered, s))
  }

  /** Hand the callback to the subscriber's loop; a closed loop refuses it and the subscriber
      is dropped. */
  function Scheduled(b: Bus, s: SubId, m: Message): Bus
    requires s in b.subs && s in b.logs && b.subs[s].loop in b.loops
  {
    var l := b.subs[s].loop;
    if b.loops[l].closed then Deactivated(b, s)
    else b.(loops := b.loops[l := b.loops[l].(pending := b.loops[l].pending + [(s, m)])],
            logs := b.logs[s := b.logs[s].(scheduled := b.logs[s].scheduled + [m])])
  }

  /** The callback: skip the inactive, enqueue if there is room, otherwise drop the newest. */
  function Delivered(b: Bus, s: SubId, m: Message): Bus
    requires s in b.subs && s in b.logs
  {
    var sub, log := b.subs[s], b.logs[s].(handled := b.logs[s].handled + [m]);
    if !sub.active then b.(logs := b.logs[s := log.(discarded := log.discarded + 1)])
    else if |sub.queue| < QUEUE_SIZE then
      b.(subs := b.subs[s := sub.(queue := sub.queue + [m])], logs := b.logs[s := log.(enqueued := log.enqueued + [m])])
    else b.(logs := b.logs[s := log.(dropped := log.dropped + 1)])
  }

  /** The tables know this subscription; true of every one that can come up in a run. */
  predicate Knows(b: Bus, s: SubId)
  {
    s in b.subs && s in b.logs && b.subs[s].loop in b.loops
  }

  function Next(b: Bus, step: Step): Bus
    requires Enabled(b, step)
  {
    match step
    case OpenLoop(l) => b.(loops := b.loops[l := Loop(false, [])])
    case CloseLoop(l) => b.(loops := b.loops[l := b.loops[l].(closed := true)])
    case Subscribe(s, pid, events, l) =>
      b.(subs := b.subs[s := Sub(pid, events, l, true, [])], logs := b.logs[s := Log([], [], [], [], 0, 0)],
         registered := b.registered + [s])
    case Unsubscribe(s) => Deactivated(b, s)
    case Publish(m) =>
      b.(flights := b.flights[m.id := Flight(m, Targets(b.subs, b.registered, m))], published := b.published + {m.id})
    case Schedule(p) =>
      var f := b.flights[p];
      if !Knows(b, f.targets[0]) then b
      else Scheduled(b, f.targets[0], f.message).(flights := b.flights[p := f.(targets := f.targets[1..])])
    case Deliver(l) =>
      var (s, m) := b.loops[l].pending[0];
      if !Knows(b, s) then b
      else Delivered(b, s, m).(loops := b.loops[l := b.loops[l].(pending := b.loops[l].pending[1..])])
    case Receive(s) =>
      if !Knows(b, s) then b else
      b.(subs := b.subs[s := b.subs[s].(queue := b.subs[s].queue[1..])],
         logs := b.logs[s := b.logs[s].(received := b.logs[s].received + [b.subs[s].queue[0]])])
  }

  // ----- what every run keeps -----

  /** `a` is `b` with some elements left out. */
  predicate Subsequence(a: seq<Message>, b: seq<Message>)
  {
    if a == [] then true
    else if b == [] then false
    else (a[|a| - 1] == b[|b| - 1] && Subsequence(a[..|a| - 1], b[..|b| - 1])) || Subsequence(a, b[..|b| - 1])
  }

  /** The callbacks of one subscription waiting in its loop. */
  function PendingFor(pending: seq<(SubId, Message)>, s: SubId): seq<Message>
  {
    if pending == [] then []
    else (if pending[0].0 == s then [pending[0].1] else []) + PendingFor(pending[1..], s)
  }

  predicate DistinctIds(list: seq<Message>)
  {
    forall i, j :: 0 <= i < j < |list| ==> list[i].id != list[j].id
  }

  /** The books of one subscription balance. */
  predicate Balanced(sub: Sub, log: Log, pending: seq<Message>)
  {
    && |sub.queue| <= QUEUE_SIZE
    && log.scheduled == log.handled + pending
    && log.enqueued == log.received + sub.queue
    && Subsequence(log.enqueued, log.handled)
    && |log.handled| == |log.enqueued| + log.dropped + log.discarded
    && DistinctIds(log.scheduled)
    && forall m :: m in log.scheduled ==> Matches(sub, m)
  }

  predicate SubInv(b: Bus, s: SubId)
    requires s in b.subs && s in b.logs
  {
    && b.subs[s].loop in b.loops
    && Balanced(b.subs[s], b.logs[s], PendingFor(b.loops[b.subs[s].loop].pending, s))
    && (s in b.registered <==> b.subs[s].active)
    && forall m :: m in b.logs[s].scheduled ==> m.id in b.published
  }

  /** Targets still to be scheduled are known, match, and have not had this message yet. */
  ghost predicate FlightInv(b: Bus, p: PubId)
    requires p in b.flights && b.subs.Keys == b.logs.Keys
  {
    var f := b.flights[p];
    && p == f.message.id && p in b.published && Distinct(f.targets)
    && forall s :: s in f.targets ==> s in b.subs && Matches(b.subs[s], f.message) && forall m :: m in b.logs[s].scheduled ==> m.id != p
  }

  ghost predicate Inv(b: Bus)
  {
    && b.subs.Keys == b.logs.Keys
    && Distinct(b.registered) && (forall s :: s in b.registered ==> s in b.subs)
    && (forall s :: s in b.subs ==> SubInv(b, s))
    && (forall p :: p in b.flights ==> FlightInv(b, p))
    && (forall l, x :: l in b.loops && x in b.loops[l].pending ==> x.0 in b.subs && b.subs[x.0].loop == l)
  }

  predicate Initial(b: Bus)
  {
    b == Bus([], map[], map[], map[], map[], {})
  }

  // ----- list facts -----

  lemma FlightTail(targets: seq<SubId>)
    requires Distinct(targets) && targets != []
    ensures Distinct(targets[1..]) && targets[0] !in targets[1..]
  {
  }

  lemma NoRepeatCons(x: SubId, list: seq<SubId>)
    requires Distinct(list) && x !in list
    ensures Distinct([x] + list)
  {
  }

  lemma {:induction false} RemoveKeeps(list: seq<SubId>, x: SubId)
    requires Distinct(list)
    ensures Distinct(Remove(list, x)) && x !in Remove(list, x)
    decreases |list|
  {
    hide Distinct;
    if list != [] {
      FlightTail(list);
      if list[0] != x {
        RemoveKeeps(list[1..], x);
        NoRepeatCons(list[0], Remove(list[1..], x));
      }
    }
  }

  lemma {:induction false} TargetsKeep(subs: map<SubId, Sub>, registered: seq<SubId>, m: Message)
    requires Distinct(registered)
    ensures Distinct(Targets(subs, registered, m))
    decreases |registered|
  {
    if registered != [] {
      var init, last := registered[..|registered| - 1], registered[|registered| - 1];
      TargetsKeep(subs, init, m);
      assert last !in init;
    }
  }

  lemma {:induction false} PendingAppend(pending: seq<(SubId, Message)>, x: (SubId, Message), s: SubId)
    ensures PendingFor(pending + [x], s) == PendingFor(pending, s) + (if x.0 == s then [x.1] else [])
    decreases |pending|
  {
    if pending == [] {
      assert [x][1..] == [];
    } else {
      assert (pending + [x])[1..] == pending[1..] + [x];
      PendingAppend(pending[1..], x, s);
    }
  }

  lemma {:induction false} PendingNobody(pending: seq<(SubId, Message)>, s: SubId)
    requires forall x :: x in pending ==> x.0 != s
    ensures PendingFor(pending, s) == []
    decreases |pending|
  {
    if pending != [] {
      assert pending[0] in pending;
      PendingNobody(pending[1..], s);
    }
  }

  lemma SubsequenceGrow(a: seq<Message>, b: seq<Message>, m: Message)
    requires Subsequence(a, b)
    ensures Subsequence(a, b + [m]) && Subsequence(a + [m], b + [m])
  {
    assert (b + [m])[..|b|] == b && (a + [m])[..|a|] == a;
  }

  lemma {:induction false} SubsequencePrefix(a: seq<Message>, n: nat, b: seq<Message>)
    requires Subsequence(a, b) && n <= |a|
    ensures Subsequence(a[..n], b)
    decreases |a| + |b|
  {
    if n == |a| {
      assert a[..n] == a;
    } else if n > 0 {
      assert b != [];
      var b' := b[..|b| - 1];
      if a[|a| - 1] == b[|b| - 1] && Subsequence(a[..|a| - 1], b') {
        assert a[..|a| - 1][..n] == a[..n];
        SubsequencePrefix(a[..|a| - 1], n, b');
      } else {
        SubsequencePrefix(a, n, b');
      }
    }
  }

  lemma {:induction false} SubsequenceLonger(a: seq<Message>, b: seq<Message>, c: seq<Message>)
    requires Subsequence(a, b)
    ensures Subsequence(a, b + c)
    decreases |c|
  {
    hide Subsequence;
    if c == [] {
      assert b + c == b;
    } else {
      var c', m := c[..|c| - 1], c[|c| - 1];
      SubsequenceLonger(a, b, c');
      SubsequenceGrow(a, b + c', m);
      assert b + c == b + c' + [m];
    }
  }

  lemma {:induction false} SubsequenceMember(a: seq<Message>, b: seq<Message>, i: nat)
    requires Subsequence(a, b) && i < |a|
    ensures a[i] in b
    decreases |a| + |b|
  {
    var b' := b[..|b| - 1];
    assert b == b' + [b[|b| - 1]];
    if a[|a| - 1] == b[|b| - 1] && Subsequence(a[..|a| - 1], b') {
      if i < |a| - 1 {
        SubsequenceMember(a[..|a| - 1], b', i);
        assert a[..|a| - 1][i] == a[i];
      }
    } else {
      SubsequenceMember(a, b', i);
    }
  }

  lemma {:induction false} SubsequenceDistinct(a: seq<Message>, b: seq<Message>)
    requires Subsequence(a, b) && DistinctIds(b)
    ensures DistinctIds(a)
    decreases |a| + |b|
  {
    if a != [] {
      var b', last := b[..|b| - 1], b[|b| - 1];
      assert b == b' + [last];
      if a[|a| - 1] == last && Subsequence(a[..|a| - 1], b') {
        var a' := a[..|a| - 1];
        SubsequenceDistinct(a', b');
        forall i | 0 <= i < |a'| ensures a[i].id != last.id {
          SubsequenceMember(a', b', i);
          assert a'[i] == a[i];
        }
      } else {
        SubsequenceDistinct(a, b');
      }
    }
  }

  // ----- each step keeps the invariant -----

  predicate SameFace(b: Bus, after: Bus, t: SubId)
  {
    && t in b.subs && t in b.logs && t in after.subs && t in after.logs
    && after.subs[t].pid == b.subs[t].pid && after.subs[t].events == b.subs[t].events
    && after.logs[t].scheduled == b.logs[t].scheduled
  }

  /** Flights only look at who the targets are and what was scheduled for them. */
  lemma FlightsKept(b: Bus, after: Bus)
    requires Inv(b) && after.flights == b.flights && after.published == b.published
    requires after.subs.Keys == after.logs.Keys && b.subs.Keys <= after.subs.Keys
    requires forall t :: t in b.subs ==> SameFace(b, after, t)
    ensures forall p :: p in after.flights ==> FlightInv(after, p)
  {
    hide SubInv, Distinct;
    forall p | p in after.flights ensures FlightInv(after, p) {
      assert FlightInv(b, p);
    }
  }

  lemma BalancedSame(sub: Sub, log: Log, pending: seq<Message>, sub': Sub)
    requires Balanced(sub, log, pending) && sub'.queue == sub.queue && sub'.pid == sub.pid && sub'.events == sub.events
    ensures Balanced(sub', log, pending)
  {
  }

  lemma DeactivateKeeps(b: Bus, s: SubId)
    requires Inv(b) && s in b.subs
    ensures Inv(Deactivated(b, s))
  {
    hide Balanced, PendingFor, Distinct, FlightInv, Remove;
    RemoveKeeps(b.registered, s);
    var after := Deactivated(b, s);
    assert SubInv(b, s);
    BalancedSame(b.subs[s], b.logs[s], PendingFor(b.loops[b.subs[s].loop].pending, s), after.subs[s]);
    forall t | t in after.subs ensures SubInv(after, t) {
      assert SubInv(b, t);
    }
    FlightsKept(b, after);
  }

  lemma SubscribeKeeps(b: Bus, s: SubId, pid: string, events: set<string>, l: LoopId)
    requires Inv(b) && Enabled(b, Subscribe(s, pid, events, l))
    ensures Inv(Next(b, Subscribe(s, pid, events, l)))
  {
    hide Subsequence, DistinctIds, PendingFor;
    var after := Next(b, Subscribe(s, pid, events, l));
    forall t | t in after.subs ensures SubInv(after, t) {
      if t == s {
        PendingNobody(b.loops[l].pending, s);
        EmptyBalanced(after.subs[s], after.logs[s]);
      } else {
        assert SubInv(b, t);
      }
    }
    forall p | p in after.flights ensures FlightInv(after, p) {
      assert FlightInv(b, p);
    }
  }

  lemma EmptyBalanced(sub: Sub, log: Log)
    requires sub.queue == [] && log == Log([], [], [], [], 0, 0)
    ensures Balanced(sub, log, [])
  {
  }

  lemma PublishKeeps(b: Bus, m: Message)
    requires Inv(b) && Enabled(b, Publish(m))
    ensures Inv(Next(b, Publish(m)))
  {
    hide Subsequence, DistinctIds, PendingFor, Balanced;
    var after := Next(b, Publish(m));
    TargetsKeep(b.subs, b.registered, m);
    forall t | t in after.subs ensures SubInv(after, t) {
      assert SubInv(b, t);
    }
    forall p | p in after.flights ensures FlightInv(after, p) {
      if p != m.id {
        assert FlightInv(b, p);
      } else {
        forall s | s in Targets(b.subs, b.registered, m) ensures forall x :: x in b.logs[s].scheduled ==> x.id != p {
          assert SubInv(b, s);
        }
      }
    }
  }

  lemma LoopsKeep(b: Bus, l: LoopId, loop: Loop)
    requires Inv(b) && (l in b.loops ==> loop.pending == b.loops[l].pending) && (l !in b.loops ==> loop.pending == [])
    ensures Inv(b.(loops := b.loops[l := loop]))
  {
    hide Subsequence, DistinctIds, PendingFor, Balanced;
    var after := b.(loops := b.loops[l := loop]);
    forall t | t in after.subs ensures SubInv(after, t) {
      assert SubInv(b, t);
    }
    forall p | p in after.flights ensures FlightInv(after, p) {
      assert FlightInv(b, p);
    }
  }

  lemma BalancedSchedule(sub: Sub, log: Log, pending: seq<Message>, m: Message)
    requires Balanced(sub, log, pending) && Matches(sub, m) && forall x :: x in log.scheduled ==> x.id != m.id
    ensures Balanced(sub, log.(scheduled := log.scheduled + [m]), pending + [m])
  {
    assert log.scheduled + [m] == log.handled + (pending + [m]);
    assert forall i :: 0 <= i < |log.scheduled| ==> log.scheduled[i] in log.scheduled;
  }

  lemma ScheduleOne(b: Bus, p: PubId, t: SubId)
    requires Inv(b) && Enabled(b, Schedule(p)) && t in b.subs
    ensures var s := b.flights[p].targets[0];
            Knows(b, s) && (!b.loops[b.subs[s].loop].closed ==> SubInv(Next(b, Schedule(p)), t))
  {
    hide PendingFor, Balanced, Distinct;
    var f := b.flights[p];
    var s, m := f.targets[0], f.message;
    assert FlightInv(b, p) && s in f.targets;
    assert SubInv(b, s) && SubInv(b, t);
    var l := b.subs[s].loop;
    BalancedSchedule(b.subs[s], b.logs[s], PendingFor(b.loops[l].pending, s), m);
    PendingAppend(b.loops[l].pending, (s, m), t);
    assert PendingFor(b.loops[l].pending, t) + [] == PendingFor(b.loops[l].pending, t);
  }

  lemma ScheduleFlight(b: Bus, p: PubId, q: PubId)
    requires Inv(b) && Enabled(b, Schedule(p)) && q in b.flights && Knows(b, b.flights[p].targets[0])
    requires !b.loops[b.subs[b.flights[p].targets[0]].loop].closed
    ensures Next(b, Schedule(p)).subs.Keys == Next(b, Schedule(p)).logs.Keys && FlightInv(Next(b, Schedule(p)), q)
  {
    hide SubInv, Distinct;
    assert FlightInv(b, q) && FlightInv(b, p);
    FlightTail(b.flights[p].targets);
  }

  lemma ScheduleKeeps(b: Bus, p: PubId)
    requires Inv(b) && Enabled(b, Schedule(p))
    ensures Inv(Next(b, Schedule(p)))
  {
    hide SubInv, Distinct, FlightInv;
    var f := b.flights[p];
    var s := f.targets[0];
    TargetKnown(b, p);
    ScheduleOne(b, p, s);
    if b.loops[b.subs[s].loop].closed {
      FlightShrinks(b, p);
      DeactivateKeeps(b.(flights := b.flights[p := f.(targets := f.targets[1..])]), s);
    } else {
      var after := Next(b, Schedule(p));
      forall t | t in after.subs ensures SubInv(after, t) {
        ScheduleOne(b, p, t);
      }
      forall q | q in after.flights ensures FlightInv(after, q) {
        ScheduleFlight(b, p, q);
      }
    }
  }

  lemma TargetKnown(b: Bus, p: PubId)
    requires Inv(b) && Enabled(b, Schedule(p))
    ensures b.flights[p].targets[0] in b.subs
  {
    assert FlightInv(b, p) && b.flights[p].targets[0] in b.flights[p].targets;
  }

  lemma FlightShrinks(b: Bus, p: PubId)
    requires Inv(b) && Enabled(b, Schedule(p))
    ensures Inv(b.(flights := b.flights[p := b.flights[p].(targets := b.flights[p].targets[1..])]))
  {
    hide Subsequence, DistinctIds, PendingFor, Balanced;
    var f := b.flights[p];
    var after := b.(flights := b.flights[p := f.(targets := f.targets[1..])]);
    assert FlightInv(b, p);
    forall t | t in after.subs ensures SubInv(after, t) {
      assert SubInv(b, t);
    }
    forall q | q in after.flights ensures FlightInv(after, q) {
      assert FlightInv(b, q);
    }
  }

  lemma BalancedDeliver(sub: Sub, log: Log, pending: seq<Message>)
    requires Balanced(sub, log, pending) && pending != []
    ensures var m := pending[0];
            var log1 := log.(handled := log.handled + [m]);
            && Balanced(sub, log1.(discarded := log1.discarded + 1), pending[1..])
            && Balanced(sub, log1.(dropped := log1.dropped + 1), pending[1..])
            && (|sub.queue| < QUEUE_SIZE ==>
                  Balanced(sub.(queue := sub.queue + [m]), log1.(enqueued := log1.enqueued + [m]), pending[1..]))
  {
    hide Subsequence, DistinctIds;
    var m := pending[0];
    assert log.handled + pending == log.handled + [m] + pending[1..];
    SubsequenceGrow(log.enqueued, log.handled, m);
    assert log.received + sub.queue + [m] == log.received + (sub.queue + [m]);
  }

  lemma DeliverToTarget(b: Bus, l: LoopId)
    requires Inv(b) && Enabled(b, Deliver(l))
    ensures var s := b.loops[l].pending[0].0;
            Knows(b, s) && b.subs[s].loop == l && s in Next(b, Deliver(l)).subs && s in Next(b, Deliver(l)).logs && SubInv(Next(b, Deliver(l)), s)
  {
    hide PendingFor, Balanced, Distinct, FlightInv;
    var pending := b.loops[l].pending;
    var (s, m) := pending[0];
    assert (s, m) in pending;
    assert SubInv(b, s);
    PendingHead(pending, s);
    BalancedDeliver(b.subs[s], b.logs[s], PendingFor(pending, s));
  }

  lemma DeliverToOther(b: Bus, l: LoopId, t: SubId)
    requires Inv(b) && Enabled(b, Deliver(l)) && t in b.subs && t != b.loops[l].pending[0].0
    ensures t in Next(b, Deliver(l)).subs && t in Next(b, Deliver(l)).logs && SubInv(Next(b, Deliver(l)), t)
  {
    hide PendingFor, Balanced, Distinct, FlightInv;
    assert SubInv(b, t);
    PendingHead(b.loops[l].pending, t);
  }

  lemma DeliverKeeps(b: Bus, l: LoopId)
    requires Inv(b) && Enabled(b, Deliver(l))
    ensures Inv(Next(b, Deliver(l)))
  {
    hide SubInv, Distinct, FlightInv;
    var after := Next(b, Deliver(l));
    DeliverToTarget(b, l);
    forall t | t in after.subs ensures SubInv(after, t) {
      if t != b.loops[l].pending[0].0 { DeliverToOther(b, l, t); }
    }
    FlightsKept(b, after);
  }

  lemma PendingHead(pending: seq<(SubId, Message)>, t: SubId)
    requires pending != []
    ensures pending[0].0 == t ==> PendingFor(pending, t) == [pending[0].1] + PendingFor(pending[1..], t)
    ensures pending[0].0 != t ==> PendingFor(pending, t) == PendingFor(pending[1..], t)
    ensures pending[0].0 == t ==> PendingFor(pending, t)[1..] == PendingFor(pending[1..], t)
  {
  }

  lemma BalancedReceive(sub: Sub, log: Log, pending: seq<Message>)
    requires Balanced(sub, log, pending) && sub.queue != []
    ensures Balanced(sub.(queue := sub.queue[1..]), log.(received := log.received + [sub.queue[0]]), pending)
  {
    hide Subsequence, DistinctIds;
    assert log.received + sub.queue == log.received + [sub.queue[0]] + sub.queue[1..];
  }

  lemma ReceiveKeeps(b: Bus, s: SubId)
    requires Inv(b) && Enabled(b, Receive(s))
    ensures Inv(Next(b, Receive(s)))
  {
    hide PendingFor, Balanced, Distinct, FlightInv;
    var after := Next(b, Receive(s));
    assert SubInv(b, s);
    BalancedReceive(b.subs[s], b.logs[s], PendingFor(b.loops[b.subs[s].loop].pending, s));
    forall t | t in after.subs ensures SubInv(after, t) {
      assert SubInv(b, t);
    }
    FlightsKept(b, after);
  }

  lemma StepKeepsInv(b: Bus, step: Step)
    requires Inv(b) && Enabled(b, step)
    ensures Inv(Next(b, step))
  {
    match step
    case OpenLoop(l) => LoopsKeep(b, l, Loop(false, []));
    case CloseLoop(l) => LoopsKeep(b, l, b.loops[l].(closed := true));
    case Subscribe(s, pid, events, l) => SubscribeKeeps(b, s, pid, events, l);
    case Unsubscribe(s) => DeactivateKeeps(b, s);
    case Publish(m) => PublishKeeps(b, m);
    case Schedule(p) => ScheduleKeeps(b, p);
    case Deliver(l) => DeliverKeeps(b, l);
    case Receive(s) => ReceiveKeeps(b, s);
  }

  // ----- whole runs -----

  /** A run from the empty bus: every step enabled where it is taken. */
  ghost predicate IsRun(run: seq<Bus>, steps: seq<Step>)
  {
    && |run| == |steps| + 1 && Initial(run[0])
    && forall i :: 0 <= i < |steps| ==> Enabled(run[i], steps[i]) && run[i + 1] == Next(run[i], steps[i])
  }

  lemma {:induction false} RunKeepsInv(run: seq<Bus>, steps: seq<Step>, i: nat)
    requires IsRun(run, steps) && i < |run|
    ensures Inv(run[i])
    decreases i
  {
    if i > 0 {
      RunKeepsInv(run, steps, i - 1);
      StepKeepsInv(run[i - 1], steps[i - 1]);
    }
  }

  /** In every run a subscriber receives an order-preserving selection of the matching
      messages scheduled for it, each at most once; its queue never exceeds the bound, and
      every scheduled message is pending, enqueued, dropped or discarded. */
  lemma DeliveryGuarantee(run: seq<Bus>, steps: seq<Step>, i: nat, s: SubId)
    requires IsRun(run, steps) && i < |run| && s in run[i].subs
    ensures Knows(run[i], s)
    ensures var b := run[i];
            var log, sub := b.logs[s], b.subs[s];
            var pending := PendingFor(b.loops[sub.loop].pending, s);
            && Subsequence(log.received, log.scheduled)
            && DistinctIds(log.received)
            && (forall m :: m in log.received ==> m.recipient == sub.pid && m.event in sub.events)
            && |sub.queue| <= 100
            && |log.scheduled| == |pending| + |log.enqueued| + log.dropped + log.discarded
  {
    RunKeepsInv(run, steps, i);
    BooksGive(run[i], s);
  }

  lemma BooksGive(b: Bus, s: SubId)
    requires Inv(b) && s in b.subs
    ensures Knows(b, s)
    ensures var log, sub := b.logs[s], b.subs[s];
            var pending := PendingFor(b.loops[sub.loop].pending, s);
            && Subsequence(log.received, log.scheduled)
            && DistinctIds(log.received)
            && (forall m :: m in log.received ==> m.recipient == sub.pid && m.event in sub.events)
            && |sub.queue| <= 100
            && |log.scheduled| == |pending| + |log.enqueued| + log.dropped + log.discarded
  {
    hide Subsequence, PendingFor, FlightInv, DistinctIds;
    assert SubInv(b, s);
    var log := b.logs[s];
    var pending := PendingFor(b.loops[b.subs[s].loop].pending, s);
    SubsequencePrefix(log.enqueued, |log.received|, log.handled);
    assert log.enqueued[..|log.received|] == log.received;
    SubsequenceLonger(log.received, log.handled, pending);
    SubsequenceDistinct(log.received, log.scheduled);
    forall m | m in log.received ensures Matches(b.subs[s], m) {
      var i :| 0 <= i < |log.received| && log.received[i] == m;
      SubsequenceMember(log.received, log.scheduled, i);
    }
  }

  /** A publication aims at exactly the subscriptions registered at its snapshot that want
      its recipient and event. */
  lemma PublishAimsAtSubscribers(b: Bus, m: Message, s: SubId)
    requires Inv(b) && Enabled(b, Publish(m))
    ensures s in Next(b, Publish(m)).flights[m.id].targets
       <==> s in b.subs && b.subs[s].active && b.subs[s].pid == m.recipient && m.event in b.subs[s].events
  {
    if s in b.subs { assert SubInv(b, s); }
  }

  /** They are taken in the order in which they subscribed, and nothing else changes. */
  lemma PublishOutcome(b: Bus, m: Message, i: nat, j: nat, x: nat, y: nat)
    requires Inv(b) && Enabled(b, Publish(m))
    ensures Next(b, Publish(m)) == b.(flights := Next(b, Publish(m)).flights, published := b.published + {m.id})
    ensures Next(b, Publish(m)).flights == b.flights[m.id := Flight(m, Next(b, Publish(m)).flights[m.id].targets)]
    ensures var targets := Next(b, Publish(m)).flights[m.id].targets;
            i < j < |targets| && x < |b.registered| && y < |b.registered| && b.registered[x] == targets[i] && b.registered[y] == targets[j] ==> x < y
  {
    TargetsInOrder(b.subs, b.registered, m, i, j, x, y);
  }

  lemma {:induction false} TargetsInOrder(subs: map<SubId, Sub>, registered: seq<SubId>, m: Message, i: nat, j: nat, x: nat, y: nat)
    requires Distinct(registered)
    ensures var targets := Targets(subs, registered, m);
            i < j < |targets| && x < |registered| && y < |registered| && registered[x] == targets[i] && registered[y] == targets[j] ==> x < y
    decreases |registered|
  {
    if registered != [] {
      var n := |registered| - 1;
      var init := registered[..n];
      var targets, rest := Targets(subs, registered, m), Targets(subs, init, m);
      if i < j < |targets| && x <= n && y <= n && registered[x] == targets[i] && registered[y] == targets[j] {
        assert targets[i] == rest[i] && rest[i] in rest && rest[i] in init;
        assert x < n;
        if y < n {
          assert targets[j] in init && targets[j] != registered[n];
          TargetsInOrder(subs, init, m, i, j, x, y);
        }
      }
    }
  }

  /** A new subscription is active, wants what it asked for, has an empty queue and no history, and
      comes last in the list. */
  lemma SubscribeOutcome(b: Bus, s: SubId, pid: string, events: set<string>, l: LoopId)
    requires Enabled(b, Subscribe(s, pid, events, l))
    ensures var after := Next(b, Subscribe(s, pid, events, l));
            && after == b.(registered := b.registered + [s], subs := after.subs, logs := after.logs)
            && after.subs == b.subs[s := Sub(pid, events, l, true, [])]
            && after.logs == b.logs[s := Log([], [], [], [], 0, 0)]
  {
  }

  /** The next target's callback goes last into its loop and counts as scheduled; a closed loop
      gets the subscription dropped instead. */
  lemma ScheduleOutcome(b: Bus, p: PubId)
    requires Inv(b) && Enabled(b, Schedule(p))
    ensures var s, m, after := b.flights[p].targets[0], b.flights[p].message, Next(b, Schedule(p));
            && s in b.subs && s in b.logs && b.subs[s].loop in b.loops
            && after.flights == b.flights[p := Flight(m, b.flights[p].targets[1..])] && after.published == b.published
            && (var l := b.subs[s].loop;
                && (!b.loops[l].closed ==> && after.loops == b.loops[l := Loop(false, b.loops[l].pending + [(s, m)])]
                                           && after.logs == b.logs[s := b.logs[s].(scheduled := b.logs[s].scheduled + [m])]
                                           && after.subs == b.subs && after.registered == b.registered)
                && (b.loops[l].closed ==> && after.loops == b.loops && after.logs == b.logs
                                          && after.subs == b.subs[s := b.subs[s].(active := false)] && s !in after.registered))
  {
    hide Balanced, PendingFor, Targets;
    TargetKnown(b, p);
    var s := b.flights[p].targets[0];
    assert SubInv(b, s);
    RemoveKeeps(b.registered, s);
  }

  /** The callback at the head of a loop: an active subscription with room gets the message last
      in its queue; with a hundred waiting it is dropped, and an inactive one discards it. */
  lemma DeliverOutcome(b: Bus, l: LoopId)
    requires Inv(b) && Enabled(b, Deliver(l))
    ensures var s, m, after := b.loops[l].pending[0].0, b.loops[l].pending[0].1, Next(b, Deliver(l));
            && s in b.subs && s in b.logs && s in after.subs && s in after.logs
            && after.loops == b.loops[l := Loop(false, b.loops[l].pending[1..])]
            && after.registered == b.registered && after.flights == b.flights && after.published == b.published
            && (forall t :: t in b.subs && t != s ==> t in after.subs && after.subs[t] == b.subs[t] && t in after.logs && after.logs[t] == b.logs[t])
            && (b.subs[s].active && |b.subs[s].queue| < 100 ==> && after.subs[s] == b.subs[s].(queue := b.subs[s].queue + [m])
                                                                && after.logs[s].dropped == b.logs[s].dropped && after.logs[s].discarded == b.logs[s].discarded)
            && (b.subs[s].active && |b.subs[s].queue| >= 100 ==> && after.subs[s] == b.subs[s] && after.logs[s].dropped == b.logs[s].dropped + 1
                                                                 && after.logs[s].discarded == b.logs[s].discarded)
            && (!b.subs[s].active ==> && after.subs[s] == b.subs[s] && after.logs[s].dropped == b.logs[s].dropped
                                      && after.logs[s].discarded == b.logs[s].discarded + 1)
  {
    hide Balanced, PendingFor, FlightInv, Distinct;
    var x := b.loops[l].pending[0];
    assert x in b.loops[l].pending && SubInv(b, x.0);
  }

  /** The subscriber takes the oldest queued message. */
  lemma ReceiveOutcome(b: Bus, s: SubId)
    requires Inv(b) && Enabled(b, Receive(s))
    ensures var after := Next(b, Receive(s));
            && s in b.logs && after == b.(subs := after.subs, logs := after.logs)
            && after.subs == b.subs[s := b.subs[s].(queue := b.subs[s].queue[1..])]
            && after.logs == b.logs[s := b.logs[s].(received := b.logs[s].received + [b.subs[s].queue[0]])]
  {
    hide Balanced, PendingFor, FlightInv, Distinct;
    assert SubInv(b, s);
  }

  /** A message is dropped only by a delivery to an active subscription with a hundred waiting, and
      discarded only by a delivery to an inactive one. */
  lemma LossHasACause(b: Bus, step: Step, s: SubId)
    requires Inv(b) && Enabled(b, step) && s in b.subs
    ensures var after := Next(b, step);
            && s in b.logs && s in after.logs
            && (after.logs[s].dropped != b.logs[s].dropped ==> DeliversTo(b, step, s) && b.subs[s].active && |b.subs[s].queue| == 100)
            && (after.logs[s].discarded != b.logs[s].discarded ==> DeliversTo(b, step, s) && !b.subs[s].active)
  {
    hide Balanced, PendingFor, FlightInv, Distinct, Targets, Remove;
    assert SubInv(b, s);
    if step.Deliver? {
      DeliverOutcome(b, step.loop);
      QueueBounded(b, s);
    }
  }

  ghost predicate DeliversTo(b: Bus, step: Step, s: SubId)
  {
    step.Deliver? && step.loop in b.loops && b.loops[step.loop].pending != [] && b.loops[step.loop].pending[0].0 == s
  }

  lemma QueueBounded(b: Bus, s: SubId)
    requires Inv(b) && s in b.subs
    ensures |b.subs[s].queue| <= 100
  {
    assert SubInv(b, s);
  }

  /** So over every run. */
  lemma LossesHaveCauses(run: seq<Bus>, steps: seq<Step>, i: nat, s: SubId)
    requires IsRun(run, steps) && i < |steps| && s in run[i].subs
    ensures s in run[i].logs && s in run[i + 1].logs
    ensures run[i + 1].logs[s].dropped != run[i].logs[s].dropped ==> DeliversTo(run[i], steps[i], s) && run[i].subs[s].active && |run[i].subs[s].queue| == 100
    ensures run[i + 1].logs[s].discarded != run[i].logs[s].discarded ==> DeliversTo(run[i], steps[i], s) && !run[i].subs[s].active
  {
    hide Inv, Next;
    RunKeepsInv(run, steps, i);
    LossHasACause(run[i], steps[i], s);
  }

  lemma StepSparesInactive(b: Bus, step: Step, s: SubId)
    requires Inv(b) && Enabled(b, step) && s in b.subs && !b.subs[s].active
    ensures var after := Next(b, step);
            s in after.subs && !after.subs[s].active && s in after.logs && after.logs[s].enqueued == b.logs[s].enqueued
  {
    hide Subsequence, DistinctIds, PendingFor, Balanced, Distinct, FlightInv, SubInv, Targets, Remove;
  }

  /** Once unsubscribed, or dropped because its loop closed, a subscription is never enqueued
      to again, although callbacks scheduled earlier may still run. */
  lemma {:induction false} NothingAfterUnsubscribe(run: seq<Bus>, steps: seq<Step>, i: nat, j: nat, s: SubId)
    requires IsRun(run, steps) && i <= j < |run| && s in run[i].subs && !run[i].subs[s].active && s in run[i].logs
    ensures s in run[j].subs && !run[j].subs[s].active && s in run[j].logs
    ensures run[j].logs[s].enqueued == run[i].logs[s].enqueued
    decreases j - i
  {
    hide Inv, Next;
    if i < j {
      NothingAfterUnsubscribe(run, steps, i, j - 1, s);
      RunKeepsInv(run, steps, j - 1);
      StepSparesInactive(run[j - 1], steps[j - 1], s);
    }
  }

  /** So what a subscriber ever receives is a selection, in order, of what had been scheduled for
      it when it became inactive: later callbacks and publications never reach it. */
  lemma ReceivedWasScheduledWhileSubscribed(run: seq<Bus>, steps: seq<Step>, i: nat, j: nat, s: SubId)
    requires IsRun(run, steps) && i <= j < |run| && s in run[i].subs && !run[i].subs[s].active
    ensures s in run[i].logs && s in run[j].logs && Subsequence(run[j].logs[s].received, run[i].logs[s].scheduled)
  {
    hide Inv, Next, Subsequence, IsRun;
    RunKeepsInv(run, steps, i);
    EnqueuedWasScheduled(run[i], s);
    NothingAfterUnsubscribe(run, steps, i, j, s);
    RunKeepsInv(run, steps, j);
    EnqueuedWasScheduled(run[j], s);
    var log := run[j].logs[s];
    SubsequencePrefix(log.enqueued, |log.received|, run[i].logs[s].scheduled);
  }

  lemma EnqueuedWasScheduled(b: Bus, s: SubId)
    requires Inv(b) && s in b.subs
    ensures s in b.logs && Subsequence(b.logs[s].enqueued, b.logs[s].scheduled)
    ensures |b.logs[s].received| <= |b.logs[s].enqueued| && b.logs[s].enqueued[..|b.logs[s].received|] == b.logs[s].received
  {
    hide Subsequence, PendingFor, FlightInv, DistinctIds;
    assert SubInv(b, s);
    SubsequenceLonger(b.logs[s].enqueued, b.logs[s].handled, PendingFor(b.loops[b.subs[s].loop].pending, s));
  }

  lemma UnsubscribeDeactivates(b: Bus, s: SubId)
    requires Inv(b) && Enabled(b, Unsubscribe(s))
    ensures var after := Next(b, Unsubscribe(s)); !after.subs[s].active && s !in after.registered
  {
    RemoveKeeps(b.registered, s);
  }

  // ----- the bus as an object -----

  /** Removal by position: `i` is where `s` is found, or the end. */
  lemma {:induction false} RemoveAt(list: seq<SubId>, s: SubId, i: nat)
    requires i <= |list| && (forall j :: 0 <= j < i ==> list[j] != s) && (i < |list| ==> list[i] == s)
    ensures Remove(list, s) == if i < |list| then list[..i] + list[i + 1..] else list
    decreases i
  {
    if i > 0 {
      RemoveAt(list[1..], s, i - 1);
      assert list == [list[0]] + list[1..];
    }
  }

  class InMemoryEventBus {
    var registered: seq<SubId>
    var subs: map<SubId, Sub>
    var loops: map<LoopId, Loop>
    var flights: map<PubId, Flight>
    ghost var logs: map<SubId, Log>
    ghost var published: set<PubId>

    constructor ()
      ensures Initial(Contents())
    {
      registered, subs, loops, flights, logs, published := [], map[], map[], map[], map[], {};
    }

    ghost function Contents(): Bus
      reads this
    {
      Bus(registered, subs, logs, loops, flights, published)
    }

    method Subscribe(s: SubId, pid: string, events: seq<string>, loop: LoopId)
      requires Enabled(Contents(), Step.Subscribe(s, pid, (set e | e in events), loop))
      modifies this`registered, this`subs, this`logs
      ensures Contents() == Next(old(Contents()), Step.Subscribe(s, pid, (set e | e in events), loop))
    {
      subs := subs[s := Sub(pid, (set e | e in events), loop, true, [])];
      logs := logs[s := Log([], [], [], [], 0, 0)];
      registered := registered + [s];
    }

    /** Marks the subscription inactive, then takes it off the list if it is there. */
    method Unsubscribe(s: SubId)
      requires Enabled(Contents(), Step.Unsubscribe(s))
      modifies this`registered, this`subs
      ensures Contents() == Next(old(Contents()), Step.Unsubscribe(s))
    {
      subs := subs[s := subs[s].(active := false)];
      var i := 0;
      while i < |registered| && registered[i] != s
        invariant 0 <= i <= |registered|
        invariant forall j :: 0 <= j < i ==> registered[j] != s
      {
        i := i + 1;
      }
      RemoveAt(registered, s, i);
      if i < |registered| {
        registered := registered[..i] + registered[i + 1..];
      }
    }

    /** Takes the snapshot of matching subscriptions under the lock. */
    method Publish(m: Message)
      requires Enabled(Contents(), Step.Publish(m)) && forall s :: s in registered ==> s in subs
      modifies this`flights, this`published
      ensures Contents() == Next(old(Contents()), Step.Publish(m))
    {
      var targets: seq<SubId> := [];
      for i := 0 to |registered|
        invariant targets == Targets(subs, registered[..i], m)
      {
        assert registered[..i + 1][..i] == registered[..i];
        if Matches(subs[registered[i]], m) {
          targets := targets + [registered[i]];
        }
      }
      assert registered[..|registered|] == registered;
      flights := flights[m.id := Flight(m, targets)];
      published := published + {m.id};
    }

    /** Offers the callback to the next target's loop; a closed loop gets its subscriber dropped. */
    method ScheduleNext(p: PubId)
      requires Inv(Contents()) && Enabled(Contents(), Schedule(p))
      modifies this
      ensures Contents() == Next(old(Contents()), Schedule(p))
    {
      hide Inv, SubInv;
      var f := flights[p];
      var s := f.targets[0];
      TargetKnown(Contents(), p);
      ScheduleOne(Contents(), p, s);
      flights := flights[p := f.(targets := f.targets[1..])];
      var l := subs[s].loop;
      if loops[l].closed {
        Unsubscribe(s);
      } else {
        loops := loops[l := loops[l].(pending := loops[l].pending + [(s, f.message)])];
        logs := logs[s := logs[s].(scheduled := logs[s].scheduled + [f.message])];
      }
    }

    /** The callback, run by its loop. */
    method DeliverIfActive(l: LoopId)
      requires Inv(Contents()) && Enabled(Contents(), Deliver(l))
      modifies this`loops, this`subs, this`logs
      ensures Contents() == Next(old(Contents()), Deliver(l))
    {
      hide Inv, SubInv;
      DeliverToTarget(Contents(), l);
      var (s, m) := loops[l].pending[0];
      loops := loops[l := loops[l].(pending := loops[l].pending[1..])];
      ghost var log := logs[s].(handled := logs[s].handled + [m]);
      if !subs[s].active {
        logs := logs[s := log.(discarded := log.discarded + 1)];
        return;
      }
      if |subs[s].queue| < QUEUE_SIZE {
        subs := subs[s := subs[s].(queue := subs[s].queue + [m])];
        logs := logs[s := log.(enqueued := log.enqueued + [m])];
      } else {
        logs := logs[s := log.(dropped := log.dropped + 1)];
      }
    }
  }
}
