/** The token-based distributed lock as a protocol: any number of callers, one key in the
    store, set-if-absent with expiry, compare-and-delete on release. */
module RedisLock {

  type Caller = nat
  type Token = string

  datatype Entry = Absent | Held(token: Token, expires: int)

  datatype Phase =
    | Waiting(deadline: int)
    | InBody(since: int)
    | Done
    | Conflict
    | Failed
    | BadArguments

  datatype Call = Call(token: Token, ttl: int, phase: Phase)

  datatype State = State(clock: int, key: Entry, calls: map<Caller, Call>)

  /** What becomes of a call to the store: answered, lost before it took effect, or lost on the
      way back. */
  datatype Reply = Answered | LostBefore | LostAfter

  datatype Step =
    | Arrive(who: Caller, token: Token, ttl: int, wait: int, poll: int)
    | Attempt(who: Caller, reply: Reply)
    | Leave(who: Caller, unlockFails: bool)
    | Tick(elapsed: nat)

  /** The store forgets the key once its expiry is reached. */
  predicate Live(st: State)
  {
    st.key.Held? && st.clock < st.key.expires
  }

  /** The token drawn for a call has not been drawn before. */
  predicate Enabled(st: State, step: Step)
  {
    match step
    case Arrive(who, token, ttl, wait, poll) => who !in st.calls && forall c :: c in st.calls ==> st.calls[c].token != token
    case Attempt(who, _) => who in st.calls && st.calls[who].phase.Waiting?
    case Leave(who, _) => who in st.calls && st.calls[who].phase.InBody?
    case Tick(_) => true
  }

  /** One atomic step. An attempt sets the key if it is absent; otherwise the caller gives up
      at its deadline or stays to poll again. If the store's answer is lost the call ends with
      the error, and does not try to unlock. Leaving deletes the key only if it still holds the
      caller's own token; a failing unlock call is swallowed. */
  function Next(st: State, step: Step): State
    requires Enabled(st, step)
  {
    match step
    case Arrive(who, token, ttl, wait, poll) =>
      var phase := if ttl <= 0 || wait < 0 || poll <= 0 then BadArguments else Waiting(st.clock + wait);
      st.(calls := st.calls[who := Call(token, ttl, phase)])
    case Attempt(who, reply) =>
      var call := st.calls[who];
      var sets := !Live(st) && reply != LostBefore;
      var phase :=
        if reply != Answered then Failed
        else if sets then InBody(st.clock)
        else if st.clock >= call.phase.deadline then Conflict
        else call.phase;
      st.(key := if sets then Held(call.token, st.clock + call.ttl) else st.key, calls := st.calls[who := call.(phase := phase)])
    case Leave(who, unlockFails) =>
      var call := st.calls[who];
      var released := if !unlockFails && Live(st) && st.key.token == call.token then Absent else st.key;
      st.(key := released, calls := st.calls[who := call.(phase := Done)])
    case Tick(elapsed) => st.(clock := st.clock + elapsed)
  }

  predicate Inside(st: State, c: Caller)
  {
    c in st.calls && st.calls[c].phase.InBody?
  }

  /** Inside, and the key has not yet expired on it. */
  predicate WithinTtl(st: State, c: Caller)
  {
    Inside(st, c) && st.clock < st.calls[c].phase.since + st.calls[c].ttl
  }

  /** Tokens are distinct, and whoever is inside within its time owns the key. */
  ghost predicate Inv(st: State)
  {
    && (forall c, d :: c in st.calls && d in st.calls && c != d ==> st.calls[c].token != st.calls[d].token)
    && (forall c :: WithinTtl(st, c) ==> st.key == Held(st.calls[c].token, st.calls[c].phase.since + st.calls[c].ttl))
    && (forall c :: c in st.calls && !st.calls[c].phase.BadArguments? ==> st.calls[c].ttl > 0)
  }

  predicate Initial(st: State)
  {
    st.key.Absent? && st.calls == map[]
  }

  lemma StepKeepsTokens(st: State, step: Step)
    requires Inv(st) && Enabled(st, step)
    ensures forall c :: c in st.calls ==> c in Next(st, step).calls && Next(st, step).calls[c].token == st.calls[c].token && Next(st, step).calls[c].ttl == st.calls[c].ttl
    ensures forall c :: c in Next(st, step).calls && c !in st.calls ==> step.Arrive? && step.who == c && Next(st, step).calls[c].token == step.token && !Next(st, step).calls[c].phase.InBody?
  {
  }

  lemma TokensStayDistinct(st: State, step: Step)
    requires Inv(st) && Enabled(st, step)
    ensures var calls := Next(st, step).calls; forall c, d :: c in calls && d in calls && c != d ==> calls[c].token != calls[d].token
  {
    hide Next, WithinTtl;
    StepKeepsTokens(st, step);
  }

  /** Whoever is inside within its time after a step was so before, or has just taken the key. */
  lemma StepKeepsOwnership(st: State, step: Step, c: Caller)
    requires Inv(st) && Enabled(st, step) && WithinTtl(Next(st, step), c)
    ensures var after := Next(st, step);
            after.key == Held(after.calls[c].token, after.calls[c].phase.since + after.calls[c].ttl)
  {
    StepKeepsTokens(st, step);
    assert WithinTtl(st, c) || step == Attempt(c, Answered);
  }

  lemma StepKeepsInv(st: State, step: Step)
    requires Inv(st) && Enabled(st, step)
    ensures Inv(Next(st, step))
  {
    var after := Next(st, step);
    TokensStayDistinct(st, step);
    forall c | WithinTtl(after, c)
      ensures after.key == Held(after.calls[c].token, after.calls[c].phase.since + after.calls[c].ttl)
    {
      StepKeepsOwnership(st, step, c);
    }
    assert forall c :: c in after.calls && !after.calls[c].phase.BadArguments? ==> after.calls[c].ttl > 0;
  }

  /** A run: every step enabled where it is taken. */
  ghost predicate IsRun(run: seq<State>, steps: seq<Step>)
  {
    && |run| == |steps| + 1 && Initial(run[0])
    && forall i :: 0 <= i < |steps| ==> Enabled(run[i], steps[i]) && run[i + 1] == Next(run[i], steps[i])
  }

  lemma {:induction false} RunKeepsInv(run: seq<State>, steps: seq<Step>, i: nat)
    requires IsRun(run, steps) && i < |run|
    ensures Inv(run[i])
    decreases i
  {
    if i > 0 {
      RunKeepsInv(run, steps, i - 1);
      StepKeepsInv(run[i - 1], steps[i - 1]);
    }
  }

  /** In every interleaving, two callers are inside together only if one of them has outlived
      its time to live. */
  lemma MutualExclusion(run: seq<State>, steps: seq<Step>, i: nat, c: Caller, d: Caller)
    requires IsRun(run, steps) && i < |run| && c != d
    ensures !(WithinTtl(run[i], c) && WithinTtl(run[i], d))
  {
    RunKeepsInv(run, steps, i);
  }

  /** In every interleaving, a release deletes nobody else's key: if another caller is inside
      within its time, it still owns the key afterwards. */
  lemma ReleaseSparesOthers(run: seq<State>, steps: seq<Step>, i: nat, other: Caller)
    requires IsRun(run, steps) && i < |steps| && steps[i].Leave? && steps[i].who != other && WithinTtl(run[i], other)
    ensures run[i + 1].key == run[i].key == Held(run[i].calls[other].token, run[i].calls[other].phase.since + run[i].calls[other].ttl)
    ensures WithinTtl(run[i + 1], other)
  {
    RunKeepsInv(run, steps, i);
  }

  /** A release in time whose unlock call succeeds frees the key at once. */
  lemma ReleaseInTimeFrees(run: seq<State>, steps: seq<Step>, i: nat)
    requires IsRun(run, steps) && i < |steps| && steps[i].Leave? && !steps[i].unlockFails && WithinTtl(run[i], steps[i].who)
    ensures run[i + 1].key.Absent?
  {
    RunKeepsInv(run, steps, i);
  }

  /** Where a live key comes from: some caller set it and has not deleted it. */
  ghost predicate KeyHasOwner(st: State)
  {
    st.key.Held? ==> exists c :: OwnsKey(st, c)
  }

  ghost predicate OwnsKey(st: State, c: Caller)
  {
    && c in st.calls && st.key.Held? && st.key.token == st.calls[c].token
    && (st.calls[c].phase.InBody? || st.calls[c].phase.Done? || st.calls[c].phase.Failed?)
    && (st.calls[c].phase.InBody? ==> st.key.expires == st.calls[c].phase.since + st.calls[c].ttl)
  }

  lemma StepKeepsOwner(st: State, step: Step)
    requires Inv(st) && KeyHasOwner(st) && Enabled(st, step)
    ensures KeyHasOwner(Next(st, step))
  {
    var after := Next(st, step);
    if after.key.Held? {
      if step.Attempt? && !Live(st) && step.reply != LostBefore {
        assert OwnsKey(after, step.who);
      } else {
        var c :| OwnsKey(st, c);
        assert OwnsKey(after, c);
      }
    }
  }

  lemma {:induction false} RunKeepsOwner(run: seq<State>, steps: seq<Step>, i: nat)
    requires IsRun(run, steps) && i < |run|
    ensures KeyHasOwner(run[i])
    decreases i
  {
    if i > 0 {
      RunKeepsOwner(run, steps, i - 1);
      RunKeepsInv(run, steps, i - 1);
      StepKeepsOwner(run[i - 1], steps[i - 1]);
    }
  }

  /** Nobody else is inside within its time. */
  ghost predicate Alone(st: State, who: Caller)
  {
    forall c :: c != who ==> !WithinTtl(st, c)
  }

  /** In every interleaving an answered attempt enters exactly when nobody owns a live key, and
      then nobody else is inside within its time. */
  lemma AttemptOutcome(run: seq<State>, steps: seq<Step>, i: nat, who: Caller)
    requires IsRun(run, steps) && i < |steps| && steps[i] == Attempt(who, Answered)
    ensures Inside(run[i + 1], who) <==> forall c :: !(OwnsKey(run[i], c) && Live(run[i]))
    ensures Inside(run[i + 1], who) ==> Alone(run[i + 1], who)
  {
    RunKeepsOwner(run, steps, i);
    RunKeepsInv(run, steps, i);
    RunKeepsInv(run, steps, i + 1);
    assert Enabled(run[i], steps[i]) && run[i + 1] == Next(run[i], steps[i]);
    assert Inside(run[i + 1], who) <==> !Live(run[i]);
  }

  /** Who asks gets an answer at once or waits until its deadline: bad arguments are refused. */
  lemma ArriveOutcome(run: seq<State>, steps: seq<Step>, i: nat)
    requires IsRun(run, steps) && i < |steps| && steps[i].Arrive?
    ensures var a := steps[i];
            && a.who in run[i + 1].calls && run[i + 1].key == run[i].key && run[i + 1].clock == run[i].clock
            && run[i + 1].calls[a.who].phase == (if a.ttl > 0 && a.wait >= 0 && a.poll > 0 then Waiting(run[i].clock + a.wait) else BadArguments)
            && run[i + 1].calls[a.who].token == a.token && run[i + 1].calls[a.who].ttl == a.ttl
  {
    assert Enabled(run[i], steps[i]) && run[i + 1] == Next(run[i], steps[i]);
  }

  /** In every interleaving, a caller whose answered attempt finds a live key keeps waiting for
      the same deadline before it and is refused from it on; one that finds none has set the key
      to its own token for its own time. Nobody else's call changes. */
  lemma KeptOutUntilDeadline(run: seq<State>, steps: seq<Step>, i: nat, who: Caller)
    requires IsRun(run, steps) && i < |steps| && steps[i] == Attempt(who, Answered)
    ensures who in run[i].calls && run[i].calls[who].phase.Waiting? && who in run[i + 1].calls
    ensures var kept := run[i].key.Held? && run[i].clock < run[i].key.expires;
            var deadline := run[i].calls[who].phase.deadline;
            && (kept && run[i].clock < deadline ==> run[i + 1].calls[who].phase == Waiting(deadline))
            && (kept && run[i].clock >= deadline ==> run[i + 1].calls[who].phase == Conflict)
            && (kept ==> run[i + 1].key == run[i].key)
            && (!kept ==> run[i + 1].calls[who].phase == InBody(run[i].clock))
            && (!kept ==> run[i + 1].key == Held(run[i].calls[who].token, run[i].clock + run[i].calls[who].ttl))
    ensures run[i + 1].clock == run[i].clock
    ensures forall c :: c in run[i].calls && c != who ==> c in run[i + 1].calls && run[i + 1].calls[c] == run[i].calls[c]
  {
    assert Enabled(run[i], steps[i]) && run[i + 1] == Next(run[i], steps[i]);
  }

  /** Attempts whose answer is lost end the call; only one that reached the store may set the key. */
  lemma LostAttemptOutcome(run: seq<State>, steps: seq<Step>, i: nat, who: Caller)
    requires IsRun(run, steps) && i < |steps| && (steps[i] == Attempt(who, LostBefore) || steps[i] == Attempt(who, LostAfter))
    ensures who in run[i].calls && who in run[i + 1].calls && run[i + 1].calls[who].phase == Failed
    ensures steps[i].reply == LostBefore ==> run[i + 1].key == run[i].key
    ensures steps[i].reply == LostAfter ==>
              run[i + 1].key == if run[i].key.Held? && run[i].clock < run[i].key.expires then run[i].key
                                else Held(run[i].calls[who].token, run[i].clock + run[i].calls[who].ttl)
  {
    assert Enabled(run[i], steps[i]) && run[i + 1] == Next(run[i], steps[i]);
  }

  /** Leaving always ends the call; the key goes exactly when the unlock call arrives and the
      live key still carries the caller's token. */
  lemma LeaveOutcome(run: seq<State>, steps: seq<Step>, i: nat, who: Caller)
    requires IsRun(run, steps) && i < |steps| && steps[i].Leave? && steps[i].who == who
    ensures who in run[i].calls && who in run[i + 1].calls && run[i + 1].calls[who].phase == Done
    ensures run[i + 1].key ==
              if !steps[i].unlockFails && run[i].key.Held? && run[i].clock < run[i].key.expires && run[i].key.token == run[i].calls[who].token
              then Absent else run[i].key
  {
    assert Enabled(run[i], steps[i]) && run[i + 1] == Next(run[i], steps[i]);
  }

  /** Whoever waits at any point of a run asked properly, and its deadline is the moment it asked
      plus the wait it asked for. */
  lemma {:induction false} DeadlineIsAskedFor(run: seq<State>, steps: seq<Step>, i: nat, who: Caller)
    requires IsRun(run, steps) && i < |run| && who in run[i].calls && run[i].calls[who].phase.Waiting?
    ensures exists j :: 0 <= j < i && steps[j].Arrive? && steps[j].who == who && steps[j].ttl > 0 && steps[j].wait >= 0 && steps[j].poll > 0
                     && run[i].calls[who] == Call(steps[j].token, steps[j].ttl, Waiting(run[j].clock + steps[j].wait))
    decreases i
  {
    assert Enabled(run[i - 1], steps[i - 1]) && run[i] == Next(run[i - 1], steps[i - 1]);
    if steps[i - 1].Arrive? && steps[i - 1].who == who {
    } else {
      assert run[i - 1].calls[who] == run[i].calls[who];
      DeadlineIsAskedFor(run, steps, i - 1, who);
    }
  }

  /** Nobody is locked out for good: a waiting caller that finds the key live is up against a
      caller still inside within its time, one that left without its unlock succeeding, or one
      whose successful attempt was never answered; either way the next attempt at or after the
      expiry enters. */
  lemma BlockedByOwner(run: seq<State>, steps: seq<Step>, i: nat, who: Caller)
    requires IsRun(run, steps) && i < |run| && Enabled(run[i], Attempt(who, Answered)) && !Inside(Next(run[i], Attempt(who, Answered)), who)
    ensures exists c :: c != who && OwnsKey(run[i], c) && (WithinTtl(run[i], c) || run[i].calls[c].phase.Done? || run[i].calls[c].phase.Failed?)
    ensures Inside(Next(run[i].(clock := run[i].key.expires), Attempt(who, Answered)), who)
  {
    RunKeepsOwner(run, steps, i);
    var c :| OwnsKey(run[i], c);
    assert c != who;
  }

  /** A lost answer leaves a key that nobody inside owns and nobody will release: the next
      attempt in time is kept out by a call that has already failed. */
  lemma LostAnswerLeavesKey(st: State, c: Caller, d: Caller)
    requires Inv(st) && c != d && !Live(st) && Enabled(st, Attempt(c, LostAfter)) && Enabled(st, Attempt(d, Answered))
    ensures var after := Next(st, Attempt(c, LostAfter));
            && after.calls[c].phase.Failed? && OwnsKey(after, c) && Live(after)
            && Enabled(after, Attempt(d, Answered)) && !Inside(Next(after, Attempt(d, Answered)), d)
  {
    assert st.calls[c].ttl > 0;
  }

  /** The exclusion bound is tight: once a caller has outlived its time and the key is gone, the
      next waiting caller joins it inside. */
  lemma OverstayedCallerIsJoined(st: State, c: Caller, d: Caller)
    requires Inv(st) && Inside(st, c) && c != d && Enabled(st, Attempt(d, Answered)) && !Live(st)
    ensures Inside(Next(st, Attempt(d, Answered)), c) && Inside(Next(st, Attempt(d, Answered)), d)
    ensures !WithinTtl(Next(st, Attempt(d, Answered)), c)
  {
    assert WithinTtl(st, c) ==> Live(st);
  }

  // ----- runs that reach the exceptions -----

  /** The states a list of steps goes through. */
  ghost function Play(st: State, steps: seq<Step>): (run: seq<State>)
    requires AllEnabled(st, steps)
    ensures |run| == |steps| + 1 && run[0] == st
    decreases |steps|
  {
    if steps == [] then [st] else [st] + Play(Next(st, steps[0]), steps[1..])
  }

  ghost predicate AllEnabled(st: State, steps: seq<Step>)
    decreases |steps|
  {
    steps == [] || (Enabled(st, steps[0]) && AllEnabled(Next(st, steps[0]), steps[1..]))
  }

  lemma {:induction false} PlayFollows(st: State, steps: seq<Step>)
    requires AllEnabled(st, steps)
    ensures forall i :: 0 <= i < |steps| ==> Enabled(Play(st, steps)[i], steps[i]) && Play(st, steps)[i + 1] == Next(Play(st, steps)[i], steps[i])
    decreases |steps|
  {
    if steps != [] {
      var rest := Play(Next(st, steps[0]), steps[1..]);
      PlayFollows(Next(st, steps[0]), steps[1..]);
      forall i | 0 <= i < |steps| ensures Enabled(Play(st, steps)[i], steps[i]) && Play(st, steps)[i + 1] == Next(Play(st, steps)[i], steps[i]) {
        if i > 0 {
          assert Play(st, steps)[i] == rest[i - 1] && steps[i] == steps[1..][i - 1];
        }
      }
    }
  }

  const Empty := State(0, Absent, map[])
  const TwoCallers := Empty.(calls := map[0 := Call("a", 5, Waiting(10)), 1 := Call("b", 5, Waiting(10))])

  lemma TwoArrive(rest: seq<Step>)
    requires AllEnabled(TwoCallers, rest)
    ensures var steps := [Arrive(0, "a", 5, 10, 1), Arrive(1, "b", 5, 10, 1)] + rest;
            AllEnabled(Empty, steps) && Play(Empty, steps)[2..] == Play(TwoCallers, rest)
  {
    var steps := [Arrive(0, "a", 5, 10, 1), Arrive(1, "b", 5, 10, 1)] + rest;
    var one := Next(Empty, steps[0]);
    assert one == Empty.(calls := map[0 := Call("a", 5, Waiting(10))]);
    assert steps[1..] == [Arrive(1, "b", 5, 10, 1)] + rest && steps[1..][1..] == rest;
    assert Next(one, steps[1]) == TwoCallers;
  }

  /** A run in which the first caller stays past its time and the second joins it. */
  lemma OverstayIsReached() returns (run: seq<State>, steps: seq<Step>)
    ensures IsRun(run, steps) && |run| > 0 && Inside(run[|run| - 1], 0) && Inside(run[|run| - 1], 1)
  {
    var rest := [Attempt(0, Answered), Tick(5), Attempt(1, Answered)];
    var s1 := Next(TwoCallers, rest[0]);
    assert s1 == State(0, Held("a", 5), map[0 := Call("a", 5, InBody(0)), 1 := Call("b", 5, Waiting(10))]);
    assert rest[1..][0] == Tick(5) && rest[1..][1..] == [Attempt(1, Answered)] && [Attempt(1, Answered)][1..] == [];
    var s2 := Next(s1, Tick(5));
    var s3 := Next(s2, Attempt(1, Answered));
    assert AllEnabled(s3, []) && AllEnabled(s2, [Attempt(1, Answered)]) && AllEnabled(s1, rest[1..]) && AllEnabled(TwoCallers, rest);
    assert Play(s2, [Attempt(1, Answered)]) == [s2] + Play(s3, []);
    assert Play(s1, rest[1..]) == [s1] + Play(s2, [Attempt(1, Answered)]);
    assert Play(TwoCallers, rest)[3] == s3;
    TwoArrive(rest);
    steps := [Arrive(0, "a", 5, 10, 1), Arrive(1, "b", 5, 10, 1)] + rest;
    run := Play(Empty, steps);
    PlayFollows(Empty, steps);
    assert run[2..][3] == run[5];
  }

  /** A run in which a lost answer leaves a key behind that keeps the second caller out. */
  lemma LostAnswerIsReached() returns (run: seq<State>, steps: seq<Step>)
    ensures IsRun(run, steps) && |run| > 1 && Live(run[|run| - 1])
    ensures var last := run[|run| - 1];
            0 in last.calls && last.calls[0].phase.Failed? && OwnsKey(last, 0)
            && Enabled(last, Attempt(1, Answered)) && !Inside(Next(last, Attempt(1, Answered)), 1)
  {
    var rest := [Attempt(0, LostAfter)];
    var s1 := Next(TwoCallers, rest[0]);
    assert rest[1..] == [] && AllEnabled(s1, []) && AllEnabled(TwoCallers, rest);
    assert Play(TwoCallers, rest)[1] == s1;
    TwoArrive(rest);
    steps := [Arrive(0, "a", 5, 10, 1), Arrive(1, "b", 5, 10, 1)] + rest;
    run := Play(Empty, steps);
    PlayFollows(Empty, steps);
    assert run[2..][1] == run[3];
  }
}
