# Verified model of a mutual-credit network

The repository is a mutual-credit hub. Participants open trust lines to each other, payments
travel along the lines as debts, a two-phase engine reserves and commits them, and cycles of
debt are cleared. This project models the parts of it where correctness is hard, and proves
what they promise. Amounts are integers in atoms (the stored decimals have a fixed scale).

The models, one module per component:

- **Payments.** `Flows`, `PrepareLocks`, `Engine` and `EngineRuns` are the two-phase engine as
  a state machine over the debt, trust-line, transaction and lock tables, with clearing and
  trust-line changes as further steps; `EngineOutcomes` says for each step when it does what. `PaymentEngine` is the same engine as an object that
  updates its tables in place, proved to take exactly those steps. `Router` is the capacity
  graph, the policy-aware breadth-first search and the greedy multipath split; `NetworkFlow`
  and `MaxFlow` are the maximum-flow estimate; `Injections` are two writers beside the engine.
- **Ledger.** `Ledger`, `Checker`, `Clearing`, `Netting`, `Triangles` and `Integrity` are net
  positions, the invariant checks, clearing of cycles, derivation of debts from trust lines,
  the triangle finder with repeated clearing, and the canonical text behind the checksum.
- **Graphs.** `Kosaraju`, `CycleSearch` and `HopReach` are strongly connected components with
  explicit stacks, the backtracking cycle search and the hop-bounded search.
- **Concurrency.** `RedisLock` and `EventBus` are step protocols over every interleaving, the
  bus also as an object; `RateLimiter` is the bounded counter table.
- **Operations.** `Recovery` (sweeps), `PidMigration` (identifier migration), `Decimals` and
  `Histogram` (amount strings and metrics of the mock administration API).
- `Lex`, `Lists`, `Graphs`, `Sums` and `Options` are shared vocabulary.

Where to start reading:

- `Engine.RunKeepsInv` and `Engine.PreparedAlwaysCommits`: safety over every run, and that what
  phase 1 promises phase 2 delivers. The promise has three gaps among the modelled steps.
  Lowering a limit looks at the used amount and not at reservations; closing a line looks at
  the two debts and not at reservations; and a clearing without the owner interlock, that is on
  any database but PostgreSQL, looks for reservations in the equivalent of its first row only.
  `Engine.StepKeepsReservableIff` is the exact condition over all steps, with
  `Engine.SetLimitKeepsReservableIff`, `Engine.CloseLineKeepsReservableIff` and
  `Engine.ClearKeepsReservableIff` for the three; `EngineRuns.LimitCutBreaksPreparedPayment`,
  `EngineRuns.ClosureBreaksPreparedPayment` and `EngineRuns.MixedClearingBreaksPreparedPayment`
  are inputs.
  Two writers of the simulator reach past the engine and are not steps: freezing a participant
  takes the limits of his lines away, and injecting a debt uses room that may be reserved.
  `Injections` states for each exactly when the invariant and the promises survive.
- `EngineRuns.PaymentMovesTotal` and `Router.RoutedPaymentArrives`: from routing through prepare,
  anything others do, and commit, a payment moves its amount from payer to payee and nothing
  else.
- `MaxFlow.CalculateMaxFlow`: the router's estimate is a feasible flow, and the maximum exactly
  when the hop limit has not hidden an augmenting path; `NetworkFlow` proves the theorem that
  maximum flow is minimum cut. Between a participant and himself the loop does not end.
- `Clearing.NeutralIff`: when clearing moves no net position. The neutrality check looks at the
  first row's equivalent only; without the interlock a selection that spans equivalents can
  move positions in the others.
- `Kosaraju.StronglyConnected`, `CycleSearch.FindDirectedCycle`, `RateLimiter.CountsAgreeIff`,
  `EventBus.DeliveryGuarantee`, `RedisLock.MutualExclusion`, `PidMigration.Migrate`.

Where code and comments disagree the model follows the code. `Router.RuleHoldsIffNoSelfBlock`:
the comment forbids an edge that blocks any intermediate node already used, the code does not
ask about the node the edge starts at, and meets the rule if and only if no policy blocks its
own debtor. `Histogram.BinsFollow`: the last histogram bin is printed
with its bounds the wrong way round when the values span fewer than nineteen atoms.
`CycleSearch.ComputeHint`: the `scc_ge_3` hint of the fixture report is necessary for a cycle of
three or more; it is also sufficient where there are no two-way edges and the length cap is at
least the largest component, and `CycleSearch.CycleIffDetour` is the exact condition for all
edge sets and caps. A false `scc_ge_4` rules out cycles of four or more
in the same way.

What varies outside the program is left open rather than fixed: iteration orders of sets and
dictionaries, the order in which a database returns rows without ORDER BY, clock readings, and
the outcome of each call into another component are parameters or arbitrary choices.
`dafny verify dfyconfig.toml` checks the whole project.

## Model

| member | source | states |
|---|---|---|
| `Flows.ApplyFlowEffect` | app/core/payments/engine.py:1389-1463 | one flow raises what the sender owes the receiver, net, by exactly its amount, touches no other pair, and never leaves both directions of the pair in debt |
| `Flows.ApplyFlowsPosition` | app/core/payments/engine.py:1389-1463 | a list of flows moves every participant's net position by exactly received minus sent |
| `Flows.ApplyFlowsNet` | app/core/payments/engine.py:1389-1463 | and every pair's net debt by the flows between the two |
| `Flows.ApplyFlowsShape` | app/core/payments/engine.py:1389-1463 | amounts stay positive, pairs the flows do not use stay as they were, and a table without mutual debts stays so |
| `Flows.TouchedIsOneSided` | app/core/payments/engine.py:1389-1463 | every pair the flows use ends with debt in at most one direction, even if it started with both |
| `Flows.NetDeterminesTable` | app/core/payments/engine.py:1389-1463 | a table is determined by its net debts on one-sided pairs and by its rows on the others |
| `Flows.ApplyOrderIrrelevant` | app/core/payments/engine.py:322-324 | so the order in which the lock rows are applied (they are sorted by a random identifier) cannot matter, on any table |
| `PrepareLocks.LookupBySenderIsComplete` | app/core/payments/engine.py:620-646 | looking only at the sender's own lock rows finds every reservation on an edge |
| `PrepareLocks.FileFlowsKeeps` | app/core/payments/engine.py:918-977 | filing segments under their senders loses and repeats nothing and keeps each row to its sender's flows |
| `PrepareLocks.ReservedAdd` | app/core/payments/engine.py:965-975 | a new transaction's lock adds its own live flows to the reservations and nothing else |
| `PrepareLocks.ReservedDrop` | app/core/payments/engine.py:634-636 | dropping a transaction's lock leaves exactly what its own lookups see, which skip it |
| `PrepareLocks.ReservedShrinks` | app/core/payments/engine.py:620-632 | reservations only shrink as the clock advances or a lock goes, and are never negative |
| `PrepareLocks.UnlockedReservesNothing` | app/core/clearing/service.py:798-823 | a pair no live lock touches has no reservation in either direction |
| `PaymentEngine.ReservedUsage` | app/core/payments/engine.py:620-651 | the loop over lock rows computes the live reservations of all other transactions on an edge |
| `PaymentEngine.ReserveSegments` | app/core/payments/engine.py:918-963 | accepts exactly when each segment fits beside the other transactions' reservations and the earlier segments of the same call |
| `PaymentEngine.ApplyRows` | app/core/payments/engine.py:1231-1243 | the nested loop applies all flows of all rows |
| `PaymentEngine.AffectedPairs` | app/core/payments/engine.py:1231-1243 | collects exactly the pairs the flows touch, both directions of each |
| `PaymentEngine.DeltaCheck` | app/core/payments/engine.py:1520-1602 | accepts exactly when every party's position moved as its flows say, within the tolerance |
| `PaymentEngine.RunChecks` | app/core/payments/engine.py:1245-1262 | the four post-commit checks on the pairs and participants the flows touch, for any table before and after |
| `PaymentEngine.Parse` | app/core/payments/engine.py:277-324 | strict parsing refuses exactly effects without rows, a row without flows, or an amount that is not positive |
| `PaymentEngine.Engine.PrepareRoutes` | app/core/payments/engine.py:818-998 | phase 1 on the tables in place: outcome and new tables are those of the step function `Engine.Prepare` |
| `PaymentEngine.Engine.PreparePath` | app/core/payments/engine.py:653-816 | phase 1 of a payment with one route, on the tables in place: outcome and tables are those of `Engine.PrepareOne` |
| `PaymentEngine.LockSegments` | app/core/payments/engine.py:746-791 | its segment loop: accepts exactly when each segment fits beside the other transactions, and writes one row per segment |
| `PaymentEngine.AcceptRows` | app/core/payments/engine.py:793-794 | the lock table takes the rows exactly when no sender has two |
| `PaymentEngine.Engine.Commit` | app/core/payments/engine.py:1000-1387 | phase 2 in place, with the lock rows in any order and whatever they hold: outcome and tables are those of `Engine.Commit`, which the rows of `EngineOutcomes` describe case by case |
| `PaymentEngine.Engine.Abort` | app/core/payments/engine.py:1616-1851 | abort in place, and no lock of the transaction survives it |
| `Engine.FitsInTotal` | app/core/payments/engine.py:922-945 | checking segment by segment bounds the total put on an edge, however often the routes share it |
| `Engine.PrepareKeepsInv` | app/core/payments/engine.py:818-998 | phase 1 keeps the invariant: limits respected, no mutual debts, locks well filed and only on prepared transactions |
| `Engine.PrepareKeepsReservable` | app/core/payments/engine.py:818-998 | phase 1 never promises more than a line can carry beside the debt and all other live promises |
| `Engine.OnePathIsOneRoute` | app/core/payments/engine.py:653-816 | phase 1 for one route equals phase 1 for a list of one route on every path of two nodes or more without a repeated sender; they may only differ in which of two obstacles they report |
| `Engine.PathKeepsInv` | app/core/payments/engine.py:653-816 | and keeps the invariant on every path |
| `Engine.PathKeepsReservable` | app/core/payments/engine.py:653-816 | and all live promises |
| `Engine.OtherChecksAlwaysPass` | app/core/payments/engine.py:1245-1262 | of the four checks after applying the flows, symmetry, zero sum and payment delta can never fail, whatever mutual debts there are elsewhere |
| `Engine.CommitsIffRoom` | app/core/payments/engine.py:1000-1387 | a live prepared payment commits if and only if every edge it uses has room, and a failed check leaves the debts untouched |
| `Engine.CommitKeepsInv` | app/core/payments/engine.py:1000-1387 | phase 2 keeps the invariant |
| `Engine.ReservationGivesRoom` | app/core/payments/engine.py:571-651 | what phase 1 reserved is still there in phase 2 |
| `Engine.CommitKeepsReservable` | app/core/payments/engine.py:1000-1387 | committing one payment does not eat into another's reservation |
| `Engine.ClearKeepsReservable` | app/core/clearing/service.py:1562-1603 | nor does a clearing within one equivalent or under the owner interlock, which keeps off reserved pairs |
| `Engine.ClearKeepsReservableIff` | app/core/clearing/service.py:1546-1603 | for any clearing: the live promises stay if and only if each row it lowers leaves room for the reservations in the other direction |
| `Engine.StepKeepsInv` | app/core/payments/engine.py:818-1851 | every step of every client (begin, prepare, commit, abort, clear, open, change or close a line) keeps the invariant |
| `Engine.RunKeepsInv` | app/core/payments/engine.py:818-1851 | so every run does, of any length, with any clock readings |
| `Engine.SetLimitKeepsReservableIff` | app/core/trustlines/service.py:319-328 | a limit change that the service accepts keeps the live promises if and only if it covers net debt plus reservations; the service looks at the used amount only |
| `Engine.CloseLineKeepsReservableIff` | app/core/trustlines/service.py:439-446 | a closure that the service accepts keeps them if and only if nothing is reserved on the line; the service looks at the two debts only |
| `Engine.StepKeepsReservableIff` | app/core/payments/engine.py:818-1851 | the exact condition for every step: only a limit change, a closure and a clearing can break a live promise, and exactly when they take effect and leave too little room |
| `Engine.RunKeepsReservable` | app/core/payments/engine.py:818-1851 | in every run whose steps meet that condition, all live promises can be kept |
| `Engine.PreparedAlwaysCommits` | app/core/payments/engine.py:1000-1387 | in every such run a payment that is prepared and not expired commits, and the debts become the old ones with its flows applied |
| `EngineOutcomes.LockReserves` | app/core/payments/engine.py:571-651 | a lock reserves exactly its flows on each edge until it expires and nothing from then on |
| `EngineOutcomes.PrepareOutcomes` | app/core/payments/engine.py:818-998 | which outcome phase 1 reports, on any tables, and that nothing changes unless it is done |
| `EngineOutcomes.RoomIsFits` | app/core/payments/engine.py:918-963 | room for a segment, written out: limit less debt plus reverse debt covers it beside the live reservations of others and the earlier segments |
| `EngineOutcomes.PreparationReserves` | app/core/payments/engine.py:818-998 | a preparation reserves its routes' amounts on their segments until the expiry and changes nothing else |
| `EngineOutcomes.RepeatedSenderIsRefused` | app/core/payments/engine.py:793-794 | a path that uses a sender twice is refused by the lock table and nothing changes |
| `EngineOutcomes.CommitOutcomes` | app/core/payments/engine.py:1000-1387 | which outcome phase 2 reports, on any tables |
| `EngineOutcomes.FailedCommitAborts` | app/core/payments/engine.py:1180-1285 | a commit that fails on an expired lock or a violated check ends the transaction: aborted, its locks gone, everything else as before |
| `EngineOutcomes.DoneCommitSettles` | app/core/payments/engine.py:1231-1387 | a successful commit applies the persisted flows, marks the transaction committed and removes its locks |
| `EngineOutcomes.OtherCommitsChangeNothing` | app/core/payments/engine.py:1000-1387 | every other outcome leaves the tables alone |
| `EngineOutcomes.ExpiredAlwaysAborts` | app/core/payments/engine.py:1180-1196 | in every reachable state the commit of an expired prepared transaction reports the expiry and aborts it |
| `EngineOutcomes.LateCommitAborts` | app/core/payments/engine.py:818-1196 | end to end: after any run that leaves a prepared payment alone, a commit at or after the expiry aborts it and moves nothing |
| `EngineOutcomes.AbortOutcomes` | app/core/payments/engine.py:1616-1851 | already committed, already aborted or newly aborted, exactly by the recorded state; the new tables in each case |
| `EngineOutcomes.OpenOutcome` | app/core/trustlines/service.py:113-274 | a line is opened exactly between different participants without an active one, at a limit that is not negative, and no other line changes |
| `EngineOutcomes.LimitOutcome` | app/core/trustlines/service.py:319-328 | an accepted change sets this line's limit and no other; accepted exactly when the limit covers the used amount |
| `EngineOutcomes.CloseOutcome` | app/core/trustlines/service.py:439-446 | an accepted closure removes this line and no other; accepted exactly when neither side owes anything |
| `EngineOutcomes.LockedPairIsLocked` | app/core/clearing/service.py:798-823 | a pair is locked if and only if a live lock holds a flow between the two, either way round |
| `EngineOutcomes.ClearingSpares` | app/core/clearing/service.py:1546-1603 | a clearing step never changes a row whose line declines automatic clearing, that has no active line, or whose pair is locked, in the first row's equivalent or when the rows share one |
| `EngineOutcomes.CycleStepClears` | app/core/clearing/service.py:1412-1789 | conversely a simple cycle none of whose rows is off limits is cleared by the step, by its least amount, and no other row changes |
| `EngineRuns.RunKeepsTerminal` | app/core/payments/engine.py:1023-1034 | committed and aborted transactions stay so in every run |
| `EngineRuns.CommittedOnce` | app/core/payments/engine.py:1023-1034 | after a commit, every later commit is a no-op and every abort is refused, whatever happens in between |
| `EngineRuns.RunMovesPositions` | app/core/payments/engine.py:1000-1387 | over a whole run a position changes by the committed payments' deltas and by what clearings drift, and by nothing else |
| `EngineRuns.ContainedRunsDoNotDrift` | app/core/clearing/service.py:1516-1523 | where every clearing is interlocked or within one equivalent, by the committed payments' deltas alone |
| `EngineRuns.PathTelescopes` | app/core/payments/engine.py:922-957 | along a path all intermediate gains and losses cancel, also where the path repeats a participant |
| `EngineRuns.RoutesTelescope` | app/core/payments/engine.py:922-957 | and likewise over several routes |
| `EngineRuns.StepKeepsWaiting` | app/core/payments/engine.py:818-1851 | no step but its own commit or abort touches a prepared transaction or its locks |
| `EngineRuns.RunKeepsWaiting` | app/core/payments/engine.py:818-1851 | nor does any run without those two |
| `EngineRuns.PaymentMovesTotal` | app/core/payments/engine.py:818-1387 | end to end: prepare, then anything other clients do, then commit moves exactly the routes' total from payer to payee, or nothing; nobody else's position moves, in any equivalent |
| `EngineRuns.AcceptedPaymentCommits` | app/core/payments/engine.py:818-1387 | and after any run that respects reservations the commit before the expiry succeeds |
| `EngineRuns.LimitCutBreaksPreparedPayment` | app/core/trustlines/service.py:319-328 | the counterexample behind the condition: a limit lowered to the used amount makes a prepared payment fail |
| `EngineRuns.ClosureBreaksPreparedPayment` | app/core/trustlines/service.py:439-446 | likewise an unused line closed under a prepared payment |
| `EngineRuns.MixedClearingBreaksPreparedPayment` | app/core/clearing/service.py:1546-1566 | likewise a clearing without interlock that lowers a reserved pair's debt in a second equivalent |
| `EngineRuns.OnePreparedIsReached` | app/core/payments/engine.py:653-816 | the state of the first two inputs is reached from empty tables |
| `EngineRuns.RingPreparedIsReached` | app/core/payments/engine.py:653-1387 | and so is the state of the third, by five lines, four payments and a preparation |
| `Injections.FreezeKeepsInvIff` | app/core/simulator/inject_executor.py:646-692 | freezing a participant keeps the engine's invariant if and only if he neither owes nor is owed |
| `Injections.FreezeKeepsReservableIff` | app/core/simulator/inject_executor.py:679-692 | and the live promises if and only if what is reserved on his edges only pays back |
| `Injections.FreezeBreaksPreparedPayment` | app/core/simulator/inject_executor.py:679-692 | the input: the payer of a prepared payment is frozen |
| `Injections.FreezeOutcome` | app/core/simulator/inject_executor.py:679-692 | exactly the lines on either side of the participant go, nothing else changes |
| `Injections.InjectOutcome` | app/core/simulator/inject_executor.py:266-366 | in hundredths: a positive number of them is added to the whole hundredths owed if both participants are known and the sum fits a line with a positive limit; otherwise nothing changes |
| `Injections.InjectKeepsInvIff` | app/core/simulator/inject_executor.py:266-366 | injecting a debt keeps the invariant if and only if it does not apply or nothing is owed the other way |
| `Injections.InjectKeepsReservableIff` | app/core/simulator/inject_executor.py:266-366 | and the live promises if and only if the raised debt leaves room for the reservations |
| `Injections.InjectBreaksPreparedPayment` | app/core/simulator/inject_executor.py:266-366 | the input: a debt on a line that a prepared payment was going to use up |
| `Router.ReservedOnEdge` | app/core/payments/router.py:266-286 | the router's own lookup over all locks finds the same reservations as the engine's |
| `Router.BuildGraph` | app/core/payments/router.py:261-336 | every edge's capacity is limit minus debt plus reverse debt minus live reservations, and exactly the edges of the equivalent with positive capacity are there |
| `Router.UsableIff` | app/core/payments/router.py:375-452 | usable routes written out: loop-free from payer to payee within the hop limit, enough capacity on each hop, nobody avoided, and the policies given for the hops; a hop without one asks nothing |
| `Router.ExtendIffAdmissible` | app/core/payments/router.py:409-450 | the incremental tests of the search accept a neighbour if and only if the longer path is admissible as a whole |
| `Router.BfsSinglePath` | app/core/payments/router.py:375-452 | returns a shortest admissible path within the hop bound, and none only if there is none |
| `Router.PathBottleneck` | app/core/payments/router.py:454-458 | the least capacity along the path, attained; none for a path without edges |
| `Router.Allocate` | app/core/payments/router.py:532-539 | takes the amount off each edge of the path, drops edges used up, and leaves the others |
| `Router.NextRoute` | app/core/payments/router.py:503-542 | each augmentation is a shortest path of the residual graph, filled with all that is asked for or all its narrowest edge has; it stops only when no path is left |
| `Router.FindFlowRoutes` | app/core/payments/router.py:460-549 | returned routes add up to exactly the amount, are usable, no more than allowed, and over-commit no edge together; nothing is returned only when the allowed or existing paths did not suffice; they obey the blocked-participants rule where no policy blocks its own debtor |
| `Router.SplitFits` | app/core/payments/router.py:460-549 | a returned split fits the state its graph was built from, segment by segment |
| `Router.RoutesArePrepared` | app/core/payments/service.py:852-873 | so phase 1 accepts whatever the router returns, if nothing happened in between, whether the service prepares it as one route or as several |
| `Router.FoundIsPrepared` | app/core/payments/service.py:852-873 | for routes the router returns the two ways of preparing make no difference |
| `Router.RoutedPaymentArrives` | app/core/payments/service.py:852-873 | from routing to settlement: the routes are prepared, and committed after any run that respects reservations they move exactly the amount asked for |
| `Router.ObeysIffTailsFree` | app/core/payments/router.py:417-438 | a path the code allows obeys the commented rule, that no edge blocks an intermediary, if and only if no edge blocks its own intermediary tail |
| `Router.RoutesObey` | app/core/payments/router.py:417-438 | so every route obeys it where no policy blocks its own debtor |
| `Router.SplitObeys` | app/core/payments/router.py:460-549 | and so do all routes of a split |
| `Router.RuleHoldsIffNoSelfBlock` | app/core/payments/router.py:433-438 | over all capacity graphs and queries of an equivalent, the code meets the rule if and only if no policy there blocks its own debtor |
| `Router.OwnTailMayBeBlocked` | app/core/payments/router.py:433-438 | the input behind the condition: a line that blocks its own debtor, and a route over that debtor |
| `NetworkFlow.CutCarriesValue` | app/core/payments/router.py:568-622 | a flow sends the same amount across every cut between source and target |
| `NetworkFlow.WeakDuality` | app/core/payments/router.py:568-622 | no flow exceeds the capacity of any such cut |
| `NetworkFlow.PushPathKeeps` | app/core/payments/router.py:606-618 | pushing along a simple path with room, reverse edges included, leaves a residual graph and moves the amount from the path's first node to its last |
| `NetworkFlow.SaturatedCut` | app/core/payments/router.py:599-600 | when the residual graph does not join source and target, the reached nodes are a cut exactly as large as the flow |
| `NetworkFlow.MaximumIff` | app/core/payments/router.py:599-600 | a flow is maximum if and only if its residual graph does not join source and target |
| `MaxFlow.Search` | app/core/payments/router.py:578-600 | returns a simple augmenting path within the hop limit with its bottleneck, and none only if there is none |
| `MaxFlow.RoundCarries` | app/core/payments/router.py:602-618 | each round leaves the residual graph of a flow larger by the bottleneck, which is positive |
| `MaxFlow.CalculateMaxFlow` | app/core/payments/router.py:568-632 | the estimate is the value of a feasible flow and the sum of the reported paths; it is the maximum if and only if the final residual graph does not join source and target, in particular when the graph has at most one node more than the hop limit; the loop ends if and only if source and target differ |
| `MaxFlow.LongChainIsMissed` | app/core/payments/router.py:590-591 | the inputs behind the condition: on every chain longer than the hop limit the estimate is zero although an atom can flow |
| `Clearing.LowerPosition` | app/core/clearing/service.py:1412-1789 | lowering rows by an amount moves a position by that amount times how often it is creditor less debtor in them |
| `Clearing.ClearedIffBalanced` | app/core/clearing/service.py:1412-1789 | a selection that reaches the lowering is cleared if and only if everybody is debtor in it as often as creditor in the first row's equivalent; otherwise it is refused and nothing changes |
| `Clearing.ExecuteOutcomes` | app/core/clearing/service.py:1412-1789 | which outcome an attempt reports, skipped, refused or cleared, and that only a cleared one changes anything |
| `Clearing.ClearingMoves` | app/core/clearing/service.py:1546-1789 | what an attempt does to any position in any equivalent |
| `Clearing.NeutralIff` | app/core/clearing/service.py:1516-1789 | an attempt moves no position anywhere if and only if it is not taken or is balanced in each equivalent it has rows of; the code checks the first row's equivalent only |
| `Clearing.ClearingIsNeutral` | app/core/clearing/service.py:1412-1789 | an attempt that is interlocked, or whose rows share one equivalent, moves no net position in any equivalent |
| `Clearing.StrayRowRidesAlong` | app/core/clearing/service.py:1516-1566 | without the interlock any row of another equivalent added to a cycle is lowered with it and moves a position there; with the interlock the selection is refused |
| `Clearing.MixedSelectionMovesPositions` | app/core/clearing/service.py:1516-1523 | the input behind the condition |
| `Clearing.ClearingShrinks` | app/core/clearing/service.py:1412-1789 | no debt grows, protected rows of the first row's equivalent stay, and a successful clearing removes at least one row |
| `Clearing.SimpleCycleClears` | README.md:157-173 | every simple cycle of debts, of any length, is cleared by its least amount |
| `Ledger.PositionSet` | app/core/invariants.py:237-258 | writing one row changes positions by that row's change only |
| `Ledger.ZeroSum` | app/core/invariants.py:62-85 | over any set that covers the parties, net positions add up to zero |
| `Ledger.OneDebtPosition` | app/core/invariants.py:237-258 | a debt counts for its creditor and against its debtor |
| `Checker.NetPosition` | app/core/invariants.py:237-258 | credits minus debts of one participant |
| `Checker.GroupTotals` | app/core/invariants.py:62-85 | the two grouped totals give everybody's net position |
| `Checker.ComputeImbalance` | app/core/invariants.py:62-85 | the imbalance is zero for every debt table, so the zero-sum check accepts all of them |
| `Checker.CheckTrustLimits` | app/core/invariants.py:87-153 | reports exactly the selected debts above their active line's limit, a missing line counting as zero, each once, with debt and limit |
| `Checker.CheckDebtSymmetry` | app/core/invariants.py:155-235 | reports exactly the selected mutual debts, each pair once |
| `Checker.VerifyClearingNeutrality` | app/core/invariants.py:260-289 | reports exactly the cycle members whose position differs from the recorded one |
| `Kosaraju.BuildAdjacency` | scripts/analyze_simulator_fixture_scenarios.py:36-43 | both adjacency lists are those of the edge set, over the nodes and all end points |
| `Kosaraju.FinishTop` | scripts/analyze_simulator_fixture_scenarios.py:48-61 | a node leaves the stack only when all it reaches is finished or a node of its own component is still open |
| `Kosaraju.ScanNext` | scripts/analyze_simulator_fixture_scenarios.py:52-58 | one look at the top frame's next neighbour keeps the search state and makes progress |
| `Kosaraju.Dfs1` | scripts/analyze_simulator_fixture_scenarios.py:48-61 | the explicit-stack search keeps the finishing order and finishes everything it has seen |
| `Kosaraju.LastOfComponent` | scripts/analyze_simulator_fixture_scenarios.py:45-67 | the last finisher of a component finished after all it reaches |
| `Kosaraju.ComponentFinishesLater` | scripts/analyze_simulator_fixture_scenarios.py:45-67 | whatever reaches a node has a member of its component finishing no earlier |
| `Kosaraju.Dfs2` | scripts/analyze_simulator_fixture_scenarios.py:69-80 | collects, once each, the unseen nodes that reach the start through unseen nodes, and leaves no unseen predecessor |
| `Kosaraju.TreeIsComponent` | scripts/analyze_simulator_fixture_scenarios.py:69-87 | taken in reverse finishing order such a collection is exactly one component |
| `Kosaraju.SecondPass` | scripts/analyze_simulator_fixture_scenarios.py:82-87 | the lists are the components, partition the nodes, and edges between lists go forward |
| `Kosaraju.StronglyConnected` | scripts/analyze_simulator_fixture_scenarios.py:35-87 | the whole algorithm, from any edge list and any start order |
| `Kosaraju.SameListIffMutual` | scripts/analyze_simulator_fixture_scenarios.py:35-87 | two nodes share a list if and only if each reaches the other |
| `Kosaraju.ReachGoesForward` | scripts/analyze_simulator_fixture_scenarios.py:45-87 | reachability only goes from a list to itself or a later one: the lists are in topological order |
| `CycleSearch.SortedAdjacency` | admin-fixtures/tools/generate_simulator_demo_snapshots.py:180-186 | sorted successors of the edge set, whatever the order and repetition of the input |
| `CycleSearch.EligibleIff` | admin-fixtures/tools/generate_simulator_demo_snapshots.py:155-166 | eligible cycles written out: between the bounds many different nodes, each joined to the next one round |
| `CycleSearch.CloseIsLeast` | admin-fixtures/tools/generate_simulator_demo_snapshots.py:188-205 | closing the walk at a sorted successor beats every eligible continuation still open |
| `CycleSearch.FoundIsLeast` | admin-fixtures/tools/generate_simulator_demo_snapshots.py:188-205 | so does a cycle found below that successor |
| `CycleSearch.Search.Dfs` | admin-fixtures/tools/generate_simulator_demo_snapshots.py:188-205 | on success the shared path is the least eligible cycle continuing it; on failure path and visited set are restored and none continues it |
| `CycleSearch.FindDirectedCycle` | admin-fixtures/tools/generate_simulator_demo_snapshots.py:169-213 | raises exactly when the bounds are bad or no simple cycle has an allowed length; otherwise returns the least one |
| `CycleSearch.LeastCycleUnique` | admin-fixtures/tools/generate_simulator_demo_snapshots.py:169-213 | there is one least cycle, so the answer depends on the edge set alone |
| `CycleSearch.Rotate` | admin-fixtures/tools/generate_simulator_demo_snapshots.py:155-166 | a rotated cycle is a cycle of the same length |
| `CycleSearch.StartsAtLeastNode` | admin-fixtures/tools/generate_simulator_demo_snapshots.py:206-213 | the answer starts at the least node of any eligible cycle |
| `CycleSearch.CycleEdges` | admin-fixtures/tools/generate_simulator_demo_snapshots.py:155-166 | the edge pairs walk round the nodes, and an edge set contains them if and only if the nodes are a cycle in it |
| `CycleSearch.CycleInsideComponent` | scripts/analyze_simulator_fixture_scenarios.py:151-161 | every cycle lies inside one component list, which is at least as long |
| `CycleSearch.ComputeHint` | scripts/analyze_simulator_fixture_scenarios.py:151-161 | without a component of three the search must raise on these edges; no cycle is longer than `max_scc`, which some component has; with room for that, cycles of three or more exist if and only if some edge has a detour, and without two-way edges if and only if `scc_ge_3` |
| `CycleSearch.HintIsNotSufficient` | scripts/analyze_simulator_fixture_scenarios.py:151-161 | the hint alone does not suffice, first cause: a component of three held together by two-way edges, without any cycle of three or more |
| `CycleSearch.LongRingNeedsRoom` | admin-fixtures/tools/generate_simulator_demo_snapshots.py:169-178 | second cause: a ring longer than the length cap is one component without two-way edges, and the search fails on it |
| `CycleSearch.CycleIffDetour` | scripts/analyze_simulator_fixture_scenarios.py:151-161 | the exact condition, for every cap: a cycle of three to `hi` nodes exists if and only if some edge's head leads back to its tail, without the reverse edge, within `hi` nodes |
| `CycleSearch.OneWayComponentHasDetour` | scripts/analyze_simulator_fixture_scenarios.py:151-161 | without two-way edges every component of more than one node has such a detour |
| `CycleSearch.LargestMatters` | scripts/analyze_simulator_fixture_scenarios.py:151-161 | so with room for the largest component, and without two-way edges, the hint is exact |
| `HopReach.BuildTopology` | scripts/run_clearing_demo10_100ticks.py:254-259 | lists exactly the trust lines between different named participants |
| `HopReach.Expand` | scripts/run_clearing_demo10_100ticks.py:270-280 | scanning one node keeps the layers: each node is discovered at its least depth |
| `HopReach.AllFound` | scripts/run_clearing_demo10_100ticks.py:263-281 | when the queue is empty every node within the bound was discovered, no deeper than its shortest path |
| `HopReach.Reachable` | scripts/run_clearing_demo10_100ticks.py:263-281 | true if and only if source equals target or at most `max_hops` lines join them (and both are named) |
| `HopReach.RoutablePairs` | scripts/run_clearing_demo10_100ticks.py:283-290 | lists exactly the ordered pairs of different participants with such a path from receiver to sender |
| `HopReach.RoutableIs` | scripts/run_clearing_demo10_100ticks.py:283-290 | the same pairs said over the given lines: at most six of them, each between two named, different ends, lead from receiver to sender |
| `Netting.BuildDebts` | admin-fixtures/tools/seedlib.py:48-106 | debtor `d` owes creditor `c` exactly what is used of the line from `c` to `d` less what is used of the line from `d` to `c`, when positive; the rows come by equivalent, debtor and creditor |
| `Netting.UsedByEdgeIs` | admin-fixtures/tools/seedlib.py:61-76 | the used amount of the last active line between two ends is a debt of the trusted side to the trusting side |
| `Netting.NettedPosition` | admin-fixtures/tools/seedlib.py:48-106 | after netting everybody stands at what is used of the lines he grants less what is used of the lines granted to him |
| `Netting.NetPair` | admin-fixtures/tools/seedlib.py:85-102 | each unordered pair is netted once, whichever direction comes first |
| `Netting.RowsAreTable` | admin-fixtures/tools/seedlib.py:48-106 | the rows are a debt table: one row per debtor and creditor |
| `Netting.NettingKeepsPositions` | admin-fixtures/tools/seedlib.py:81-103 | netting keeps every participant's net position in every equivalent |
| `Netting.TableShape` | admin-fixtures/tools/seedlib.py:81-103 | at most one direction per pair, positive, and no larger than that line's used amount |
| `Netting.NettedDebtsPassChecks` | app/core/invariants.py:87-235 | with used amounts within limits on distinct active lines, every derived debt is within its line and no pair owes both ways, so both checks pass |
| `Triangles.BuildAdjacency` | admin-fixtures/tools/seedlib.py:127-138 | the adjacency lists hold exactly the debts between different named participants, by creditor |
| `Triangles.ScanThird` | admin-fixtures/tools/seedlib.py:150-175 | for one first edge: what is added is genuine and new, and below the cap all triangles over that edge are covered |
| `Triangles.ScanSecond` | admin-fixtures/tools/seedlib.py:147-177 | the same for one first node |
| `Triangles.FindTriangles` | admin-fixtures/tools/seedlib.py:109-181 | every reported triangle is a directed 3-cycle with the debts' amounts, told from its least participant, none twice up to its node set, at most the cap, and below the cap every directed triangle is covered |
| `Triangles.ReportIs` | admin-fixtures/tools/seedlib.py:109-181 | the report written out over the given debts: three of them between three different named participants each, and none missed below the cap |
| `Triangles.BelowCapReportsAll` | admin-fixtures/tools/seedlib.py:109-181 | without mutual debts, covered means reported in its own direction: nothing is missed |
| `Triangles.ClearOne` | README.md:157-173 | lowering a reported triangle by its minimum is a successful clearing: positions stay, and at least one row goes |
| `Triangles.ClearTriangles` | README.md:157-173 | repeated clearing ends, within as many rounds as there are rows, with no triangle left and all positions as before |
| `Triangles.ClearingKeepsChecks` | app/core/invariants.py:87-235 | and keeps limits and symmetry |
| `RedisLock.StepKeepsInv` | app/utils/distributed_lock.py:47-77 | every step of every caller keeps: tokens are distinct, and whoever is inside within its time owns the key |
| `RedisLock.RunKeepsInv` | app/utils/distributed_lock.py:36-77 | so does every interleaving of any number of callers |
| `RedisLock.MutualExclusion` | app/utils/distributed_lock.py:47-77 | two callers are inside together only if one has outlived its time to live |
| `RedisLock.ReleaseSparesOthers` | app/utils/distributed_lock.py:12-18 | a release never takes the key from another caller inside within its time |
| `RedisLock.ReleaseInTimeFrees` | app/utils/distributed_lock.py:70-77 | a release in time whose unlock call goes through frees the key |
| `RedisLock.AttemptOutcome` | app/utils/distributed_lock.py:49-67 | in every interleaving an answered attempt enters if and only if nobody owns a live key, and is then alone within its time |
| `RedisLock.ArriveOutcome` | app/utils/distributed_lock.py:36-47 | a call with a bad argument is refused at once, any other waits until its deadline |
| `RedisLock.KeptOutUntilDeadline` | app/utils/distributed_lock.py:49-67 | in every run, whoever finds a live key keeps waiting for the same deadline before it and gets the conflict from it on; whoever finds none sets the key to his own token for his own time |
| `RedisLock.DeadlineIsAskedFor` | app/utils/distributed_lock.py:36-47 | in every run, the deadline of a waiting call is the moment it was made plus the wait it asked for |
| `RedisLock.LostAttemptOutcome` | app/utils/distributed_lock.py:49-53 | an attempt whose answer is lost ends the call, and sets the key only if it reached the store and found none |
| `RedisLock.LeaveOutcome` | app/utils/distributed_lock.py:70-77 | leaving ends the call and deletes the key exactly if the unlock call arrives and the live key still carries the caller's token |
| `RedisLock.BlockedByOwner` | app/utils/distributed_lock.py:49-67 | whoever is kept out is kept out by another caller inside in time, by one whose unlock call was lost, or by one whose successful attempt was never answered, and only until the key expires |
| `RedisLock.LostAnswerLeavesKey` | app/utils/distributed_lock.py:47-77 | the third case is real: the failed call's key stays and keeps the next attempt out |
| `RedisLock.OverstayedCallerIsJoined` | app/utils/distributed_lock.py:36-77 | the exception is real: after expiry a second caller joins the first |
| `RedisLock.OverstayIsReached` | app/utils/distributed_lock.py:36-77 | a run from the empty store in which that happens |
| `RedisLock.LostAnswerIsReached` | app/utils/distributed_lock.py:47-77 | and one in which a lost answer leaves a key behind |
| `RateLimiter.RemoveStale` | app/api/deps.py:96-103 | the cleanup loop removes exactly the entries more than one bucket old, in place and in order |
| `RateLimiter.EvictOldest` | app/api/deps.py:108-111 | the eviction loop keeps the newest entries up to the bound |
| `RateLimiter.Limiter.RateLimit` | app/api/deps.py:86-117 | one request on the table in place: cleanup, count, move to the end, evict; rejected exactly above the configured limit, which counts as one if it is lower; the table stays within its bound |
| `RateLimiter.HitOutcome` | app/api/deps.py:96-111 | the table after one request, said with the table before: who is forgotten, who stays, in which order, and what is counted |
| `RateLimiter.HeldIff` | app/api/deps.py:105-111 | a key of the current bucket is in the table if and only if fewer than the bound of other keys came since its last request |
| `RateLimiter.TraceKeepsInv` | app/api/deps.py:86-117 | on every trace with non-decreasing buckets the count equals a reference count that forgets a key only when crowded out |
| `RateLimiter.TableBounded` | app/api/deps.py:108-111 | the table never exceeds its bound, and the current key survives its own call with its count |
| `RateLimiter.WindowedIsUnboundedIff` | app/api/deps.py:105-111 | the reference count never exceeds an unbounded table's, and equals it if and only if the key was never crowded out |
| `RateLimiter.CountsAgreeIff` | app/api/deps.py:86-117 | so the limiter counts as an unbounded one if and only if fewer than the bound of other keys came between consecutive requests of the key |
| `RateLimiter.DecisionsAgree` | app/api/deps.py:86-117 | and then a request is accepted exactly while its key was requested no more than the limit |
| `RateLimiter.NeverStricter` | app/api/deps.py:113-117 | the bounded table never rejects what an unbounded one would accept |
| `EventBus.StepKeepsInv` | app/utils/event_bus.py:31-93 | every step (subscribe, unsubscribe, publish, schedule, deliver, receive, loops opening and closing) keeps the bus invariant |
| `EventBus.RunKeepsInv` | app/utils/event_bus.py:31-93 | so does every run |
| `EventBus.DeliveryGuarantee` | app/utils/event_bus.py:31-93 | in every run: received is an order-preserving part of what was scheduled, each message at most once, all matching; the queue stays within 100; scheduled = pending + enqueued + dropped + discarded |
| `EventBus.LossesHaveCauses` | app/utils/event_bus.py:55-71 | in every run a message is dropped only by a delivery to an active subscription with a hundred queued, and discarded only by a delivery to an inactive one |
| `EventBus.DeliverOutcome` | app/utils/event_bus.py:55-71 | a delivered message goes last into the queue if the subscription is active with fewer than a hundred queued, is dropped at a hundred, and ignored if inactive |
| `EventBus.ScheduleOutcome` | app/utils/event_bus.py:86-93 | the next target's callback goes last into its loop; a closed loop gets the subscription dropped instead |
| `EventBus.SubscribeOutcome` | app/utils/event_bus.py:31-37 | a subscription starts active with an empty queue, last in the list |
| `EventBus.ReceiveOutcome` | app/utils/event_bus.py:31-37 | the subscriber takes the oldest queued message |
| `EventBus.PublishAimsAtSubscribers` | app/utils/event_bus.py:81-85 | a publication is meant for exactly the active matching subscriptions |
| `EventBus.PublishOutcome` | app/utils/event_bus.py:81-85 | in the order in which they subscribed |
| `EventBus.NothingAfterUnsubscribe` | app/utils/event_bus.py:55-62 | nothing is enqueued for a subscription once inactive, although scheduled callbacks may still run |
| `EventBus.ReceivedWasScheduledWhileSubscribed` | app/utils/event_bus.py:39-71 | whatever a subscriber ever receives is an order-preserving part of what had been scheduled for it when it became inactive |
| `EventBus.UnsubscribeDeactivates` | app/utils/event_bus.py:39-45 | unsubscribing makes it inactive and takes it off the list |
| `EventBus.InMemoryEventBus.Subscribe` | app/utils/event_bus.py:31-37 | in place: the new subscription with an empty queue, last in the list |
| `EventBus.InMemoryEventBus.Unsubscribe` | app/utils/event_bus.py:39-45 | in place: the first occurrence is removed, if there is one |
| `EventBus.InMemoryEventBus.Publish` | app/utils/event_bus.py:81-85 | in place: the snapshot of matching subscriptions in order |
| `EventBus.InMemoryEventBus.ScheduleNext` | app/utils/event_bus.py:86-93 | in place: the callback goes to the loop, or a closed loop's subscription is dropped |
| `EventBus.InMemoryEventBus.DeliverIfActive` | app/utils/event_bus.py:55-71 | in place: the head callback of the loop is taken, and bus and books are as `EventBus.DeliverOutcome` says |
| `Recovery.ClassesPartition` | app/core/recovery.py:66-71 | newly aborted, terminal and failed attempts partition the transactions |
| `Recovery.GroupByTx` | app/core/recovery.py:98-100 | each transaction once, with as many lock identifiers as it has rows |
| `Recovery.CleanupExpiredLocks` | app/core/recovery.py:74-157 | each distinct transaction is attempted once while rollbacks work; the three counts add up; resolved counts the rows of the transactions that did not fail, whose locks are gone |
| `Recovery.AbortStalePayments` | app/core/recovery.py:160-235 | the same accounting for stale payments, and their locks are gone unless their abort failed |
| `Recovery.RunRecoveryOnce` | app/core/recovery.py:238-267 | true if and only if both queries worked and no attempt of either sweep failed, and then all locks of the expired and of the stale transactions are gone; the second sweep runs even if the first crashed, provided the session recovers |
| `Recovery.EngineAbortMeetsContract` | app/core/recovery.py:126-128 | the engine's abort meets the contract the sweeps rely on: the transaction's locks go, nothing else changes, repeating it changes nothing |
| `Recovery.SweepOnEngine` | app/core/recovery.py:107-135 | a whole sweep on the engine's own tables releases exactly the swept locks, ends every swept transaction unless committed, and keeps the engine's invariant and all live promises |
| `Integrity.StorageOrderIrrelevant` | app/core/integrity.py:23-48 | rows with unique sort keys come out in one order however they are stored |
| `Integrity.TextInjective` | app/core/integrity.py:50-59 | lines of separator-free fields can be told apart from their text |
| `Integrity.TextIgnoresStorageOrder` | app/core/integrity.py:23-59 | equal stored rows give equal text |
| `Integrity.DebtLayout` | app/core/integrity.py:23-53 | the text begins with one line for each debt, its debtor, creditor and amount, by debtor and then creditor |
| `Integrity.TrustLineLayout` | app/core/integrity.py:31-56 | then one for each trust line, its ends, limit and status, by `from` and then `to` |
| `Integrity.LineText` | app/core/integrity.py:53-56 | each line is its fields between bars, ended by a line feed |
| `Integrity.TextDeterminesState` | app/core/integrity.py:23-59 | equal text means equal debt tables and equal collections of (from, to, limit, status) trust lines, with multiplicity |
| `Integrity.OrderKeepsFields` | app/core/integrity.py:23-48 | ordering neither loses nor repeats a rendered line |
| `Integrity.Feed` | app/core/integrity.py:50-59 | feeding line by line gives the whole text |
| `Integrity.Judge` | app/core/integrity.py:69-119 | critical exactly if a debt exceeds its line, otherwise a warning exactly if there is a mutual debt, otherwise healthy; the alerts are exactly those two in that order; zero sum never fails |
| `Decimals.MatchCompose` | admin-ui/src/api/mockApi.ts:317-322 | every text of the accepted shape is taken apart in the only possible way |
| `Decimals.MatchIff` | admin-ui/src/api/mockApi.ts:317-322 | the pattern rejects exactly the texts that do not have the shape |
| `Decimals.TrimIff` | admin-ui/src/api/mockApi.ts:318-318 | trimming removes exactly the blank prefix and the blank suffix |
| `Decimals.PaddingIsIgnored` | admin-ui/src/api/mockApi.ts:318-318 | blanks around an amount do not change what it reads as |
| `Decimals.ReadsInFigures` | admin-ui/src/api/mockApi.ts:317-327 | one amount in figures, with blanks, sign and a digit too many |
| `Decimals.RoundTrip` | admin-ui/src/api/mockApi.ts:317-338 | reading back a printed amount gives the same atoms, for every integer and every precision |
| `Decimals.PrintedIffCanonical` | admin-ui/src/api/mockApi.ts:317-338 | printing what was read gives the same text if and only if the text is canonical |
| `Decimals.ParsingTruncates` | admin-ui/src/api/mockApi.ts:321-325 | an accepted decimal reads as its value cut towards zero by less than one atom, exactly when it has few enough digits |
| `Decimals.MalformedIsZero` | admin-ui/src/api/mockApi.ts:318-319 | everything else reads as zero |
| `Histogram.NetByPid` | admin-ui/src/api/mockApi.ts:631-638 | everybody is listed once with credits minus debts, and the amounts add up to zero |
| `Histogram.Extremes` | admin-ui/src/api/mockApi.ts:644-646 | the folds from zero bound all values, and on amounts that add up to zero both ends are attained |
| `Histogram.ExactlyOneBin` | admin-ui/src/api/mockApi.ts:661-664 | a value is within the bounds of the bin chosen for it and of no other |
| `Histogram.FilledIsTwentyBins` | admin-ui/src/api/mockApi.ts:654-665 | in figures: the first nineteen bins are a twentieth of the span wide, cut down to whole atoms, or one atom if the span is below twenty; the last goes up to the greatest value; each counts the values within its bounds |
| `Histogram.BinsFollow` | admin-ui/src/api/mockApi.ts:654-660 | bins follow on from one another; the last one's bounds are in order if and only if the values span at least nineteen atoms |
| `Histogram.NarrowRangeInvertsLastBin` | admin-ui/src/api/mockApi.ts:631-666 | the input behind the condition: one debt of two atoms, and the last bin comes out with its bounds in the wrong order |
| `Histogram.Distribution` | admin-ui/src/api/mockApi.ts:644-666 | each bin counts exactly the values within its bounds |
| `Histogram.NetDistribution` | admin-ui/src/api/mockApi.ts:631-666 | every participant is counted once, both ends are the least and greatest net amounts, and the last bin's bounds are in order if and only if those are at least nineteen atoms apart |
| `PidMigration.MigratedFields` | migrations/versions/008_pid_base58_sha256.py:43-68 | rewriting changes `from`, `to` and `routes[].path` and nothing else |
| `PidMigration.PayloadRestoredIff` | migrations/versions/008_pid_base58_sha256.py:43-68 | renaming and renaming back restores a payload if and only if each string in an identifier's place was renamed or is nobody's new name |
| `PidMigration.BuildMapping` | migrations/versions/008_pid_base58_sha256.py:108-116 | succeeds exactly when all keys derive, and derive distinct identifiers; then it maps each stored identifier to the derived one |
| `PidMigration.Store.SetPid` | migrations/versions/008_pid_base58_sha256.py:121-121 | one UPDATE under the uniqueness constraint |
| `PidMigration.Store.FirstPhase` | migrations/versions/008_pid_base58_sha256.py:118-121 | identifiers are unique after every UPDATE; all succeed if and only if no later row carries an earlier row's temporary identifier |
| `PidMigration.Store.SecondPhase` | migrations/versions/008_pid_base58_sha256.py:122-123 | identifiers are unique after every UPDATE; all succeed if and only if no earlier row derives a later row's temporary identifier; every row ends at the mapped value |
| `PidMigration.PrefixFreeIsClear` | migrations/versions/008_pid_base58_sha256.py:118-123 | without the temporary prefix in any old or derived identifier nothing can collide |
| `PidMigration.TemporaryPidConflicts` | migrations/versions/008_pid_base58_sha256.py:118-121 | with it, a collision is possible although the derived identifiers are distinct and free of the prefix |
| `PidMigration.Migrate` | migrations/versions/008_pid_base58_sha256.py:101-143 | the exact condition for success, and then: table renamed, challenges and payloads rewritten |
| `PidMigration.RewriteChallenges` | migrations/versions/008_pid_base58_sha256.py:125-131 | every challenge ends renamed, those without a mapping unchanged |
| `PidMigration.RewritePayloads` | migrations/versions/008_pid_base58_sha256.py:139-143 | every payload ends rewritten |
| `PidMigration.DowngradeInverts` | migrations/versions/008_pid_base58_sha256.py:146-167 | if the stored identifiers were the ones the downgrade derives, its renaming is the inverse of the upgrade's and the table comes back |
| `PidMigration.DowngradeRestoresPayloadIff` | migrations/versions/008_pid_base58_sha256.py:177-187 | a payload comes back if and only if it mentions no new identifier that was nobody's old one |

## Left out

- Engine: steps are atomic. The advisory locks, unit-of-work retries and savepoints that make them so (app/core/payments/engine.py:86-560) are not modelled.
- Engine: the `commit=False` path is left out. There a unit of work runs in a savepoint of its caller, and the exception raised after an abort rolls the abort back with it: an expired or violating transaction stays prepared with its locks, where the model, which is about `commit=True`, has it aborted.
- Engine: preparing a single path with an amount that is not positive, which the payment service refuses before (app/core/payments/service.py:504), is not a step.
- Engine: audit rows and integrity checkpoints written beside a commit are left out; a line is either active with a limit or absent. Freezing and debt injection by the simulator are not steps of a run; `Injections` states what each does to one state. Its other injections (new participants and lines) are left out.
- PaymentEngine.Engine.Commit: persisted effects are typed rows, so effects that are not even of that shape are represented by a row without flows; it requires the debt table's own check constraints.
- PaymentEngine.RunChecks: requires the debt table's own check constraints of the table after the commit.
- Router: caches, deadlines and timeouts and `check_capacity` are left out. The split is characterised as the greedy one it is; the source promises no more.
- Clearing: finding cycles by SQL and depth-first search (app/core/clearing/service.py:429-1180), replay of committed executions, the interlock session itself and the perimeter scope are left out; a clearing attempt takes any selection of rows, in the order in which the database returns them, and whether it is interlocked is a parameter.
- Triangles: which triangles are reported when the cap cuts the list off is left open beyond their starting at the least participant; rows with equal creditors keep the given order, where the code sorts them by amount text (in one equivalent's debt table there are none).
- Triangles.ClearTriangles: the repository describes repeated clearing in its README and runs it in the clearing service; this loop follows the description with the fixture's triangle finder.
- MaxFlow: the iteration order of neighbours is left open; the query of a participant to himself, whose loop does not end, is answered by a value of its own.
- RedisLock: the branch without a Redis client, in which there is no lock, is left out; the retry loop appears as repeated attempt steps, polling intervals as passing time.
- RateLimiter: the Redis branch, exempt paths and the disabled setting are left out.
- EventBus: metrics are left out, and deactivation after a failed schedule is part of the schedule step, although the code takes the lock again for it.
- EventBus.InMemoryEventBus.Publish: requires that registered subscriptions are known, which the bus invariant gives.
- Recovery: the periodic loop and its timing are left out; each transaction's attempt has one outcome per sweep.
- Integrity: the checksum function itself is not modelled, only the text it is fed; how numbers are written is an arbitrary injective, separator-free function.
- Decimals: a negative precision, for which the source's `repeat` raises, is not modelled; precisions are natural numbers.
- Histogram: rank, percentile and share rows are left out; upper-casing of equivalent codes is an arbitrary function.
- PidMigration: the derivations (hashing, base58, base64) are arbitrary partial functions; key order inside JSON objects is not represented. `_recompute_pids` has the same two loops and is not called.
- PidMigration.Migrate: after a refused UPDATE the model keeps the partly migrated table; the rollback of the surrounding database transaction is outside it.
- Decimal rounding: fixture amounts are exact integers, so `q` quantisation in admin-fixtures/tools/seedlib.py is not modelled.
- Web framework, authentication, schemas, user interface, simulator runtime, settings, other migrations: plumbing and constant data, left out.
