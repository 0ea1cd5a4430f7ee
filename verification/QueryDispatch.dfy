/** Sending a Slot's queries under permits while earlier ones run, as steps in whatever order they happen to come. */
module QueryDispatch {
  import opened Bytes
  import opened QueryPlanning
  import opened SeriesDelivery
  import opened QueryCompletion

  // ---------- Which query is next ----------

  predicate ReadyNow(q: PlannedQuery, now: int) {
    q.requirements == [] || q.readyAt <= now
  }

  predicate InRange(queries: seq<PlannedQuery>, pending: seq<nat>) {
    forall p :: 0 <= p < |pending| ==> pending[p] < |queries|
  }

  /** Whether a place holds the query to send next: the first that is ready, else the first of those ready soonest. */
  predicate IsNext(queries: seq<PlannedQuery>, pending: seq<nat>, now: int, at: nat)
    requires InRange(queries, pending)
  {
    && at < |pending|
    && (ReadyNow(queries[pending[at]], now) ==> forall p :: 0 <= p < at ==> !ReadyNow(queries[pending[p]], now))
    && (!ReadyNow(queries[pending[at]], now) ==>
          && (forall p :: 0 <= p < |pending| ==> !ReadyNow(queries[pending[p]], now) && queries[pending[at]].readyAt <= queries[pending[p]].readyAt)
          && (forall p :: 0 <= p < at ==> queries[pending[at]].readyAt < queries[pending[p]].readyAt))
  }

  method NextReadyQuery(queries: seq<PlannedQuery>, pending: seq<nat>, now: int) returns (at: nat)
    requires InRange(queries, pending) && pending != []
    ensures IsNext(queries, pending, now, at)
  {
    var earliest := 0;
    var p := 0;
    while p < |pending|
      invariant 0 <= p <= |pending| && earliest < |pending| && (p > 0 ==> earliest < p) && (p == 0 ==> earliest == 0)
      invariant forall k :: 0 <= k < p ==> !ReadyNow(queries[pending[k]], now) && queries[pending[earliest]].readyAt <= queries[pending[k]].readyAt
      invariant forall k :: 0 <= k < earliest ==> queries[pending[earliest]].readyAt < queries[pending[k]].readyAt
    {
      if ReadyNow(queries[pending[p]], now) {
        return p;
      }
      if queries[pending[p]].readyAt < queries[pending[earliest]].readyAt {
        earliest := p;
      }
      p := p + 1;
    }
    at := earliest;
  }

  lemma OneNext(queries: seq<PlannedQuery>, pending: seq<nat>, now: int, a: nat, b: nat)
    requires InRange(queries, pending) && IsNext(queries, pending, now, a) && IsNext(queries, pending, now, b)
    ensures a == b
  {
    hide ReadyNow;
  }

  // ---------- An execution ----------

  datatype QueryState = Pending | Taken | Holding | Running | Done | Broken | Lost | SetAside | Exhausted

  /** A query's state, and how often it was sent, how many permits it took and gave back. */
  datatype Query = Query(state: QueryState, started: nat, acquired: nat, released: nat)

  const WAITING := Query(Pending, 0, 0, 0)

  datatype Execution = Execution(
    pending: seq<nat>,
    queries: seq<Query>,
    dispatching: bool,
    turn: Option<nat>,
    cancelled: bool,
    callerGone: bool,
    dispatchFailed: bool,
    queryFailed: bool)

  /** What is fixed about an execution: its queries, whether it is a recovery, and what the provider answers each query. */
  datatype Work = Work(planned: seq<PlannedQuery>, recovery: bool, answers: seq<ProviderCompletion>)

  datatype Event =
    | Takes(at: nat, now: int)
    | Skips
    | WaitFails
    | AcquireFails
    | AcquireRunsOut
    | Acquires
    | TurnsAway
    | Starts
    | Notices
    | Stops
    | Finishes(i: nat)
    | Fails(i: nat)
    | CallerLeaves

  function Begin(work: Work): Execution {
    Execution(seq(|work.planned|, i => i), seq(|work.planned|, _ => WAITING), true, None, false, false, false, false)
  }

  function Without(pending: seq<nat>, at: nat): seq<nat>
    requires at < |pending|
  {
    pending[..at] + pending[at + 1..]
  }

  function Put(x: Execution, i: nat, q: Query): (y: Execution)
    requires i < |x.queries|
    ensures |y.queries| == |x.queries|
  {
    x.(queries := x.queries[i := q])
  }

  /** The loop ends on an error: the query it had in hand goes unanswered, and what runs is told to stop. */
  function Abandon(x: Execution, i: nat, q: Query): (y: Execution)
    requires i < |x.queries|
    ensures |y.queries| == |x.queries|
  {
    Put(x, i, q.(state := Lost)).(turn := None, dispatching := false, dispatchFailed := true, cancelled := true)
  }

  /** Every query not yet sent ends with the budget. */
  function Exhaust(x: Execution, i: nat): (y: Execution)
    requires i < |x.queries|
    ensures |y.queries| == |x.queries|
  {
    var queries := seq(|x.queries|, k requires 0 <= k < |x.queries| =>
      if k == i || k in x.pending then x.queries[k].(state := Exhausted) else x.queries[k]);
    x.(queries := queries, pending := [], turn := None, dispatching := false)
  }

  predicate InHand(x: Execution, state: QueryState) {
    x.turn.Some? && x.turn.value < |x.queries| && x.queries[x.turn.value].state == state
  }

  predicate IsRunning(x: Execution, i: nat) {
    i < |x.queries| && x.queries[i].state == Running
  }

  /** Whether an event can happen now. */
  predicate Can(work: Work, x: Execution, e: Event) {
    match e
    case Takes(at, now) =>
      x.dispatching && x.turn.None? && !x.cancelled && x.pending != [] && InRange(work.planned, x.pending) && IsNext(work.planned, x.pending, now, at)
    case Skips => InHand(x, Taken) && x.turn.value < |work.planned| && work.planned[x.turn.value].requirements == []
    case WaitFails => InHand(x, Taken)
    case AcquireFails => InHand(x, Taken)
    case AcquireRunsOut => InHand(x, Taken) && work.recovery && !x.callerGone
    case Acquires => InHand(x, Taken) && x.turn.value < |work.planned| && work.planned[x.turn.value].requirements != []
    case TurnsAway => InHand(x, Holding)
    case Starts => InHand(x, Holding) && !x.cancelled
    case Notices => x.dispatching && x.turn.None? && x.pending != [] && x.cancelled
    case Stops => x.dispatching && x.turn.None? && x.pending == []
    case Finishes(i) => IsRunning(x, i) && i < |work.planned| && i < |work.answers| && Trusted(work.planned[i].spec.digest, work.answers[i])
    case Fails(i) => IsRunning(x, i)
    case CallerLeaves => !x.callerGone
  }

  function Apply(work: Work, x: Execution, e: Event): (y: Execution)
    requires Can(work, x, e) && |x.queries| == |work.planned|
    ensures |y.queries| == |x.queries|
  {
    match e
    case Takes(at, _) =>
      var i := x.pending[at];
      Put(x, i, x.queries[i].(state := Taken)).(pending := Without(x.pending, at), turn := Some(i))
    case Skips => Put(x, x.turn.value, x.queries[x.turn.value].(state := SetAside)).(turn := None)
    case WaitFails => Abandon(x, x.turn.value, x.queries[x.turn.value])
    case AcquireFails => Abandon(x, x.turn.value, x.queries[x.turn.value])
    case AcquireRunsOut => Exhaust(x, x.turn.value)
    case Acquires => Put(x, x.turn.value, x.queries[x.turn.value].(state := Holding, acquired := x.queries[x.turn.value].acquired + 1))
    case TurnsAway =>
      var q := x.queries[x.turn.value];
      Abandon(x, x.turn.value, q.(released := q.released + 1))
    case Starts =>
      var q := x.queries[x.turn.value];
      Put(x, x.turn.value, q.(state := Running, started := q.started + 1)).(turn := None)
    case Notices => x.(dispatching := false, dispatchFailed := true)
    case Stops => x.(dispatching := false)
    case Finishes(i) => Put(x, i, x.queries[i].(state := Done, released := x.queries[i].released + 1))
    case Fails(i) => Put(x, i, x.queries[i].(state := Broken, released := x.queries[i].released + 1)).(queryFailed := true, cancelled := true)
    case CallerLeaves => x.(callerGone := true, cancelled := true)
  }

  // ---------- What every step keeps ----------

  /** Permits and sendings by state: held only in hand or running, given back exactly once, sent at most once. */
  predicate Accounted(q: Query) {
    match q.state
    case Holding => q.started == 0 && q.acquired == 1 && q.released == 0
    case Running => q.started == 1 && q.acquired == 1 && q.released == 0
    case Done => q.started == 1 && q.acquired == 1 && q.released == 1
    case Broken => q.started == 1 && q.acquired == 1 && q.released == 1
    case Lost => q.started == 0 && q.acquired == q.released <= 1
    case _ => q.started == 0 && q.acquired == 0 && q.released == 0
  }

  /** Whether a query's state is one its plan and the execution's fate allow. */
  predicate Explained(work: Work, x: Execution, i: nat)
    requires i < |x.queries| == |work.planned|
  {
    match x.queries[i].state
    case Pending => i in x.pending
    case Taken => x.turn == Some(i)
    case Holding => x.turn == Some(i)
    case SetAside => work.planned[i].requirements == []
    case Exhausted => work.recovery
    case Lost => x.dispatchFailed
    case Broken => x.queryFailed
    case Done => i < |work.answers| && Trusted(work.planned[i].spec.digest, work.answers[i]) && work.planned[i].requirements != []
    case Running => work.planned[i].requirements != []
  }

  predicate DistinctPending(pending: seq<nat>) {
    forall i, j :: 0 <= i < j < |pending| ==> pending[i] != pending[j]
  }

  predicate Sane(work: Work, x: Execution) {
    && |x.queries| == |work.planned|
    && DistinctPending(x.pending) && (forall i <- x.pending :: i < |x.queries| && x.queries[i].state == Pending)
    && (forall i :: 0 <= i < |x.queries| ==> Accounted(x.queries[i]) && Explained(work, x, i))
    && (x.turn.Some? ==> x.dispatching && (InHand(x, Taken) || InHand(x, Holding)))
    && (InHand(x, Holding) ==> work.planned[x.turn.value].requirements != [])
    && (!x.dispatching ==> x.dispatchFailed || x.pending == [])
  }

  lemma BeginSane(work: Work)
    ensures Sane(work, Begin(work))
  {
    var x := Begin(work);
    forall i | 0 <= i < |x.queries| ensures Accounted(x.queries[i]) && Explained(work, x, i) {
      assert x.pending[i] == i;
    }
  }

  lemma WithoutPending(x: Execution, at: nat)
    requires DistinctPending(x.pending) && at < |x.pending|
    ensures DistinctPending(Without(x.pending, at))
    ensures forall i :: i in Without(x.pending, at) <==> i in x.pending && i != x.pending[at]
  {
  }

  lemma TakesSane(work: Work, x: Execution, e: Event)
    requires Sane(work, x) && Can(work, x, e) && e.Takes?
    ensures |x.queries| == |work.planned| && Sane(work, Apply(work, x, e))
  {
    hide ReadyNow, Trusted, DistinctPending;
    WithoutPending(x, e.at);
    assert x.pending[e.at] in x.pending;
  }

  /** One query changes state: the rest are as explained as before. */
  lemma PutSane(work: Work, x: Execution, y: Execution, i: nat)
    requires Sane(work, x) && i < |x.queries| && i !in x.pending && y.pending == x.pending
    requires |y.queries| == |x.queries| == |work.planned| && y.queries == x.queries[i := y.queries[i]] && Accounted(y.queries[i]) && Explained(work, y, i)
    requires y.turn == x.turn || (x.turn == Some(i) && y.turn == None)
    requires x.dispatchFailed ==> y.dispatchFailed
    requires x.queryFailed ==> y.queryFailed
    requires y.turn.Some? ==> y.dispatching && (InHand(y, Taken) || InHand(y, Holding))
    requires InHand(y, Holding) ==> work.planned[y.turn.value].requirements != []
    requires !y.dispatching ==> y.dispatchFailed || y.pending == []
    ensures Sane(work, y)
  {
    hide Trusted, DistinctPending, Accounted;
    forall k | 0 <= k < |y.queries| ensures Accounted(y.queries[k]) && Explained(work, y, k) {
      if k != i {
        assert Accounted(x.queries[k]) && Explained(work, x, k);
        assert y.queries[k] == x.queries[k];
      }
    }
  }

  lemma HandSane(work: Work, x: Execution, e: Event)
    requires Sane(work, x) && Can(work, x, e) && (e.Skips? || e.WaitFails? || e.AcquireFails? || e.Acquires? || e.TurnsAway? || e.Starts?)
    ensures |x.queries| == |work.planned| && Sane(work, Apply(work, x, e))
  {
    hide Trusted, DistinctPending, Sane;
    SaneLength(work, x);
    var y, i := Apply(work, x, e), x.turn.value;
    InHandFacts(work, x);
    PutSane(work, x, y, i);
  }

  lemma InHandFacts(work: Work, x: Execution)
    requires Sane(work, x) && x.turn.Some?
    ensures |x.queries| == |work.planned| && x.turn.value < |x.queries| && x.turn.value !in x.pending && x.dispatching
    ensures Accounted(x.queries[x.turn.value]) && Explained(work, x, x.turn.value)
    ensures InHand(x, Holding) ==> work.planned[x.turn.value].requirements != []
  {
    hide Trusted, DistinctPending;
  }

  lemma RunningSane(work: Work, x: Execution, e: Event)
    requires Sane(work, x) && Can(work, x, e) && (e.Finishes? || e.Fails?)
    ensures |x.queries| == |work.planned| && Sane(work, Apply(work, x, e))
  {
    hide Trusted, DistinctPending, Sane;
    SaneLength(work, x);
    var y := Apply(work, x, e);
    RunningFacts(work, x, e.i);
    PutSane(work, x, y, e.i);
  }

  lemma RunningFacts(work: Work, x: Execution, i: nat)
    requires Sane(work, x) && IsRunning(x, i)
    ensures |x.queries| == |work.planned| && i !in x.pending && x.turn != Some(i) && work.planned[i].requirements != []
    ensures Accounted(x.queries[i])
    ensures x.turn.Some? ==> x.dispatching && (InHand(x, Taken) || InHand(x, Holding))
    ensures InHand(x, Holding) ==> work.planned[x.turn.value].requirements != []
    ensures !x.dispatching ==> x.dispatchFailed || x.pending == []
  {
    hide Trusted, DistinctPending;
    assert Explained(work, x, i);
  }

  lemma ExhaustSane(work: Work, x: Execution, e: Event)
    requires Sane(work, x) && Can(work, x, e) && e.AcquireRunsOut?
    ensures |x.queries| == |work.planned| && Sane(work, Apply(work, x, e))
  {
    hide Trusted, DistinctPending;
    var y, i := Apply(work, x, e), x.turn.value;
    NonePending();
    forall k | 0 <= k < |y.queries| ensures Accounted(y.queries[k]) && Explained(work, y, k) {
      assert Accounted(x.queries[k]) && Explained(work, x, k);
    }
  }

  lemma FlagsSane(work: Work, x: Execution, e: Event)
    requires Sane(work, x) && Can(work, x, e) && (e.Notices? || e.Stops? || e.CallerLeaves?)
    ensures |x.queries| == |work.planned| && Sane(work, Apply(work, x, e))
  {
    hide Trusted, DistinctPending, Accounted;
    var y := Apply(work, x, e);
    forall k | 0 <= k < |y.queries| ensures Explained(work, y, k) {
      assert Explained(work, x, k);
    }
  }

  /** Every event that can happen keeps the execution sane. */
  lemma StepSane(work: Work, x: Execution, e: Event)
    requires Sane(work, x) && Can(work, x, e)
    ensures |x.queries| == |work.planned| && Sane(work, Apply(work, x, e))
  {
    hide Sane, Can, Apply;
    SaneLength(work, x);
    match e {
      case Takes(_, _) => TakesSane(work, x, e);
      case AcquireRunsOut => ExhaustSane(work, x, e);
      case Finishes(_) => RunningSane(work, x, e);
      case Fails(_) => RunningSane(work, x, e);
      case Notices => FlagsSane(work, x, e);
      case Stops => FlagsSane(work, x, e);
      case CallerLeaves => FlagsSane(work, x, e);
      case _ => HandSane(work, x, e);
    }
  }

  lemma SaneLength(work: Work, x: Execution)
    requires Sane(work, x)
    ensures |x.queries| == |work.planned|
  {
  }

  lemma NonePending()
    ensures DistinctPending([])
  {
  }

  // ---------- Whole executions ----------

  predicate Possible(work: Work, x: Execution, events: seq<Event>)
    requires |x.queries| == |work.planned|
    decreases |events|
  {
    events == [] || (Can(work, x, events[0]) && Possible(work, Apply(work, x, events[0]), events[1..]))
  }

  function After(work: Work, x: Execution, events: seq<Event>): (y: Execution)
    requires |x.queries| == |work.planned| && Possible(work, x, events)
    ensures |y.queries| == |work.planned|
    decreases |events|
  {
    if events == [] then x else After(work, Apply(work, x, events[0]), events[1..])
  }

  lemma {:induction false} RunSane(work: Work, x: Execution, events: seq<Event>)
    requires Sane(work, x) && |x.queries| == |work.planned| && Possible(work, x, events)
    ensures Sane(work, After(work, x, events))
    decreases |events|
  {
    hide Sane, Can;
    if events != [] {
      StepSane(work, x, events[0]);
      RunSane(work, Apply(work, x, events[0]), events[1..]);
    }
  }

  /** The execution has returned: the loop has ended and every query sent has ended. */
  predicate Returned(x: Execution) {
    !x.dispatching && forall i :: 0 <= i < |x.queries| ==> x.queries[i].state != Running
  }

  predicate Succeeded(x: Execution) {
    Returned(x) && !x.dispatchFailed && !x.queryFailed
  }

  /** However an execution went, when it returns every permit it took it has given back, once, and no query was sent twice. */
  lemma PermitsReturned(work: Work, events: seq<Event>, i: nat)
    requires Possible(work, Begin(work), events) && i < |work.planned|
    requires Returned(After(work, Begin(work), events))
    ensures var q := After(work, Begin(work), events).queries[i];
            q.released == q.acquired <= 1 && q.started <= q.acquired
  {
    hide Can, Apply, Begin, After, Possible;
    BeginSane(work);
    RunSane(work, Begin(work), events);
    SettledQuery(work, After(work, Begin(work), events), i);
  }

  lemma SettledQuery(work: Work, x: Execution, i: nat)
    requires Sane(work, x) && Returned(x) && i < |x.queries|
    ensures x.queries[i].state != Holding && Accounted(x.queries[i])
  {
    hide Trusted, DistinctPending;
    assert Explained(work, x, i);
  }

  function OutcomeOf(work: Work, x: Execution, i: nat): Outcome
    requires i < |x.queries| == |work.planned| && |work.answers| == |work.planned|
  {
    match x.queries[i].state
    case SetAside => Outcome.SetAsideAll
    case Exhausted => BudgetExhausted
    case _ => Answered(work.answers[i])
  }

  function Outcomes(work: Work, x: Execution): (outcomes: seq<Outcome>)
    requires |x.queries| == |work.planned| == |work.answers|
    ensures |outcomes| == |work.planned|
  {
    seq(|work.planned|, i requires 0 <= i < |work.planned| => OutcomeOf(work, x, i))
  }

  /** A successful execution has an end for every query, and each end fits its query. */
  lemma SuccessFits(work: Work, x: Execution, i: nat)
    requires Sane(work, x) && Succeeded(x) && |work.answers| == |work.planned| && i < |work.planned|
    requires work.recovery ==> work.planned[i].readinessInvalid == []
    ensures |x.queries| == |work.planned| && Fits(work.planned[i], OutcomeOf(work, x, i))
    ensures OutcomeOf(work, x, i) ==
            if x.queries[i].state == Exhausted then BudgetExhausted
            else if work.planned[i].requirements == [] then SetAsideAll
            else Answered(work.answers[i])
    ensures x.queries[i].state == Exhausted ==> work.recovery
  {
    hide DistinctPending;
    assert Explained(work, x, i) && Accounted(x.queries[i]);
    assert x.queries[i].state == Pending ==> i in x.pending;
  }

  /**
   * Whatever order queries were sent, ended, failed or were cancelled in, an execution that succeeds
   * completes every planned query once and binds every frozen pair once.
   */
  lemma ExecutionConserves(work: Work, events: seq<Event>, facts: Facts, requirements: seq<Requirement>, attempt: nat)
    requires |work.answers| == |work.planned| && Possible(work, Begin(work), events)
    requires Succeeded(After(work, Begin(work), events))
    requires forall r <- requirements :: facts.spec(Head(r)).Some?
    requires AllPairs(work.planned) == FrozenPairs(requirements, facts)
    requires work.recovery ==> forall q <- work.planned :: q.readinessInvalid == []
    ensures var completion := Assembled(work.planned, Outcomes(work, After(work, Begin(work), events)), attempt);
            && Bound(completion.bindings) == FrozenPairs(requirements, facts)
            && |completion.queries| == |work.planned| && completion.allRequired
            && forall i :: 0 <= i < |work.planned| ==> completion.queries[i].query == work.planned[i].spec.digest
  {
    hide Can, Apply, Begin, After, Possible, Sane, OutcomeOf, Fits, FrozenPairs, AllPairs, Assembled, Bound, Succeeded;
    BeginSane(work);
    RunSane(work, Begin(work), events);
    var x := After(work, Begin(work), events);
    forall i | 0 <= i < |work.planned| ensures Fits(work.planned[i], Outcomes(work, x)[i]) {
      assert work.planned[i] in work.planned;
      SuccessFits(work, x, i);
    }
    AssembledConserves(work.planned, Outcomes(work, x), attempt);
  }

  /** The queries a budget ended. */
  function ExhaustedSet(x: Execution): set<nat> {
    set i | 0 <= i < |x.queries| && x.queries[i].state == Exhausted
  }

  /**
   * Two successful executions of one plan with the same answers, and the same queries ended by the
   * budget, complete alike; and outside a recovery no query is.
   */
  lemma OrderDoesNotMatter(work: Work, a: seq<Event>, b: seq<Event>, attempt: nat)
    requires |work.answers| == |work.planned| && Possible(work, Begin(work), a) && Possible(work, Begin(work), b)
    requires Succeeded(After(work, Begin(work), a)) && Succeeded(After(work, Begin(work), b))
    requires work.recovery ==> forall q <- work.planned :: q.readinessInvalid == []
    requires work.recovery ==> ExhaustedSet(After(work, Begin(work), a)) == ExhaustedSet(After(work, Begin(work), b))
    ensures Outcomes(work, After(work, Begin(work), a)) == Outcomes(work, After(work, Begin(work), b))
    ensures Assembled(work.planned, Outcomes(work, After(work, Begin(work), a)), attempt) ==
            Assembled(work.planned, Outcomes(work, After(work, Begin(work), b)), attempt)
  {
    hide Can, Apply, Begin, After, Possible, Sane, OutcomeOf, Fits, Succeeded, Assembled;
    BeginSane(work);
    RunSane(work, Begin(work), a);
    RunSane(work, Begin(work), b);
    var x, y := After(work, Begin(work), a), After(work, Begin(work), b);
    forall i | 0 <= i < |work.planned| ensures OutcomeOf(work, x, i) == OutcomeOf(work, y, i) {
      assert work.planned[i] in work.planned;
      SuccessFits(work, x, i);
      SuccessFits(work, y, i);
      assert i in ExhaustedSet(x) <==> x.queries[i].state == Exhausted;
      assert i in ExhaustedSet(y) <==> y.queries[i].state == Exhausted;
    }
  }

  // ---------- The whole of an execution ----------

  /** A Slot whose queries are sent in the order some schedule gives, each answered as the provider answers it. */
  datatype Surroundings = Surroundings(
    answers: seq<PlannedQuery> -> seq<ProviderCompletion>,
    schedule: Work -> seq<Event>)

  function WorkOf(planned: seq<PlannedQuery>, recovery: bool, s: Surroundings): Work {
    Work(planned, recovery, s.answers(planned))
  }

  /** Whether the schedule can happen and ends in success. */
  predicate EndsWell(work: Work, events: seq<Event>) {
    |work.answers| == |work.planned| && Possible(work, Begin(work), events) && Succeeded(After(work, Begin(work), events))
  }

  /** How each query of an execution ended: with the budget when that was spent, else as the schedule brought it. */
  function EndsOf(planned: seq<PlannedQuery>, recovery: bool, spent: bool, s: Surroundings): (ends: seq<Outcome>)
    requires (recovery && spent) || EndsWell(WorkOf(planned, recovery, s), s.schedule(WorkOf(planned, recovery, s)))
    ensures |ends| == |planned|
  {
    if recovery && spent then seq(|planned|, _ => BudgetExhausted)
    else
      var work := WorkOf(planned, recovery, s);
      Outcomes(work, After(work, Begin(work), s.schedule(work)))
  }

  /**
   * From frozen requirements to bindings, in a normal execution or a recovery, whatever the schedule:
   * it answers exactly when the plan can be made and the schedule ends well, or when a recovery's
   * budget was spent before any query was sent. Every answer has one completion for each physical
   * query and binds each frozen pair once.
   */
  method ExecuteSlot(facts: Facts, requirements: seq<Requirement>, recovery: bool, spent: bool, s: Surroundings, attempt: nat)
    returns (planned: seq<PlannedQuery>, completion: Option<Completion>)
    ensures completion.Some? <==>
              && CanPlan(facts, requirements) && facts.header(planned)
              && ((recovery && spent) || EndsWell(WorkOf(planned, recovery, s), s.schedule(WorkOf(planned, recovery, s))))
    ensures CanPlan(facts, requirements) ==> AllPairs(planned) == FrozenPairs(requirements, facts) && DistinctDigests(planned)
    ensures completion.Some? ==>
              && Bound(completion.value.bindings) == FrozenPairs(requirements, facts) && completion.value.allRequired
              && |completion.value.queries| == |planned|
              && forall i :: 0 <= i < |planned| ==> completion.value.queries[i].query == planned[i].spec.digest
    ensures completion.Some? ==> completion.value == Assembled(planned, EndsOf(planned, recovery, spent, s), attempt)
  {
    hide Assembled, Bound, AllPairs, FrozenPairs, Sound, Ordered, Fits, Possible, After, Succeeded, DistinctDigests, Physical;
    if recovery && spent {
      planned, completion := CompleteBudgetExhausted(facts, requirements, attempt);
      return;
    }
    var ok;
    planned, ok := Prepare(facts, requirements, recovery);
    if !ok {
      return planned, None;
    }
    var work := WorkOf(planned, recovery, s);
    var events := s.schedule(work);
    if !EndsWell(work, events) {
      return planned, None;
    }
    ExecutionConserves(work, events, facts, requirements, attempt);
    var assembled := Assemble(planned, Outcomes(work, After(work, Begin(work), events)), attempt);
    completion := Some(assembled);
  }

  // ---------- No execution goes on for ever ----------

  function Weight(state: QueryState): nat {
    match state
    case Pending => 4
    case Taken => 3
    case Holding => 2
    case Running => 1
    case _ => 0
  }

  function Weights(queries: seq<Query>): nat {
    if queries == [] then 0 else Weights(queries[..|queries| - 1]) + Weight(queries[|queries| - 1].state)
  }

  /** How many steps an execution has left at most. */
  function StepsLeft(x: Execution): nat {
    Weights(x.queries) + (if x.dispatching then 1 else 0) + if x.callerGone then 0 else 1
  }

  lemma {:induction false} WeightPut(queries: seq<Query>, i: nat, q: Query)
    requires i < |queries|
    ensures Weights(queries[i := q]) + Weight(queries[i].state) == Weights(queries) + Weight(q.state)
  {
    hide Weight;
    var n := |queries| - 1;
    if i < n {
      assert queries[i := q][..n] == queries[..n][i := q];
      WeightPut(queries[..n], i, q);
    } else {
      assert queries[i := q][..n] == queries[..n];
    }
  }

  lemma {:induction false} WeightLess(a: seq<Query>, b: seq<Query>)
    requires |a| == |b| && forall i :: 0 <= i < |a| ==> Weight(a[i].state) <= Weight(b[i].state)
    ensures Weights(a) <= Weights(b)
  {
    if a != [] {
      WeightLess(a[..|a| - 1], b[..|b| - 1]);
    }
  }

  /** Every event that can happen leaves fewer to come. */
  lemma StepsRunOut(work: Work, x: Execution, e: Event)
    requires Sane(work, x) && Can(work, x, e)
    ensures |x.queries| == |work.planned| && StepsLeft(Apply(work, x, e)) < StepsLeft(x)
  {
    hide Trusted, DistinctPending, ReadyNow, Weights, Accounted, Explained;
    var y := Apply(work, x, e);
    match e {
      case Takes(at, _) =>
        assert x.pending[at] in x.pending;
        WeightPut(x.queries, x.pending[at], y.queries[x.pending[at]]);
      case AcquireRunsOut => WeightLess(y.queries, x.queries);
      case Notices =>
      case Stops =>
      case CallerLeaves =>
      case Finishes(i) => WeightPut(x.queries, i, y.queries[i]);
      case Fails(i) => WeightPut(x.queries, i, y.queries[i]);
      case _ => WeightPut(x.queries, x.turn.value, y.queries[x.turn.value]);
    }
  }

  /** An execution that has not returned can always go on. */
  lemma NeverStuck(work: Work, x: Execution) returns (e: Event)
    requires Sane(work, x) && !Returned(x)
    ensures Can(work, x, e)
  {
    hide Trusted, DistinctPending, ReadyNow, Accounted, Explained;
    if x.dispatching {
      if x.turn.Some? {
        e := if InHand(x, Taken) then WaitFails else TurnsAway;
      } else if x.pending == [] {
        e := Stops;
      } else if x.cancelled {
        e := Notices;
      } else {
        var at := SomeNext(work.planned, x.pending, 0) by {
          assert forall p :: 0 <= p < |x.pending| ==> x.pending[p] in x.pending;
        }
        assert forall p :: 0 <= p < |x.pending| ==> x.pending[p] in x.pending;
        e := Takes(at, 0);
      }
    } else {
      var i :| 0 <= i < |x.queries| && x.queries[i].state == Running;
      e := Fails(i);
    }
  }

  // ---------- Cancellation ----------

  /** A failure, or the caller's leaving, tells the rest to stop. */
  lemma FailureCancels(work: Work, x: Execution, e: Event)
    requires |x.queries| == |work.planned| && Can(work, x, e)
    ensures (e.Fails? || e.CallerLeaves? || e.WaitFails? || e.AcquireFails? || e.TurnsAway?) ==> Apply(work, x, e).cancelled
    ensures x.cancelled ==> Apply(work, x, e).cancelled
  {
    hide IsNext, Trusted;
  }

  /** Once an execution has been told to stop no query is sent any more. */
  lemma {:induction false} NothingSentAfter(work: Work, x: Execution, events: seq<Event>, i: nat)
    requires |x.queries| == |work.planned| && Possible(work, x, events) && x.cancelled && i < |x.queries|
    ensures After(work, x, events).queries[i].started == x.queries[i].started
    decreases |events|
  {
    hide Can, Apply;
    if events != [] {
      StopsSending(work, x, events[0], i);
      FailureCancels(work, x, events[0]);
      NothingSentAfter(work, Apply(work, x, events[0]), events[1..], i);
    }
  }

  lemma StopsSending(work: Work, x: Execution, e: Event, i: nat)
    requires |x.queries| == |work.planned| && Can(work, x, e) && x.cancelled && i < |x.queries|
    ensures Apply(work, x, e).queries[i].started == x.queries[i].started
  {
    hide IsNext, Trusted;
  }

  // ---------- An execution that meets no failure ----------

  /** An event by which an execution gets on, with nothing failing and nobody leaving. */
  predicate Forward(e: Event) {
    e.Takes? || e.Skips? || e.Acquires? || e.Starts? || e.Finishes? || e.Stops?
  }

  predicate Healthy(x: Execution) {
    !x.cancelled && !x.dispatchFailed && !x.queryFailed
  }

  /** A provider that answers each query for that query. */
  predicate Answering(work: Work) {
    |work.answers| == |work.planned| && forall i :: 0 <= i < |work.planned| ==> Trusted(work.planned[i].spec.digest, work.answers[i])
  }

  /** While nothing has failed an execution can get on, from every state it comes to. */
  lemma GetsOn(work: Work, x: Execution) returns (e: Event)
    requires Sane(work, x) && Healthy(x) && Answering(work) && !Returned(x)
    ensures Forward(e) && Can(work, x, e)
    ensures |x.queries| == |work.planned| && Healthy(Apply(work, x, e))
  {
    hide Trusted, DistinctPending, ReadyNow, Accounted, Explained;
    if x.dispatching {
      if x.turn.Some? {
        var nobody := work.planned[x.turn.value].requirements == [];
        e := if InHand(x, Holding) then Starts else if nobody then Skips else Acquires;
      } else if x.pending == [] {
        e := Stops;
      } else {
        var at := SomeNext(work.planned, x.pending, 0) by {
          assert forall p :: 0 <= p < |x.pending| ==> x.pending[p] in x.pending;
        }
        assert forall p :: 0 <= p < |x.pending| ==> x.pending[p] in x.pending;
        e := Takes(at, 0);
      }
    } else {
      var i :| 0 <= i < |x.queries| && x.queries[i].state == Running;
      e := Finishes(i);
    }
  }

  /** And so it can come to succeed, by such events alone. */
  lemma {:induction false} CanSucceed(work: Work, x: Execution) returns (events: seq<Event>)
    requires Sane(work, x) && Healthy(x) && Answering(work)
    ensures |x.queries| == |work.planned| && Possible(work, x, events) && Succeeded(After(work, x, events))
    ensures forall e <- events :: Forward(e)
    decreases StepsLeft(x)
  {
    hide Sane, Can, Apply, Forward, Answering, StepsLeft;
    SaneLength(work, x);
    if Returned(x) {
      events := [];
    } else {
      var e := GetsOn(work, x);
      StepSane(work, x, e);
      StepsRunOut(work, x, e);
      var more := CanSucceed(work, Apply(work, x, e));
      events := [e] + more;
    }
  }

  predicate Failing(e: Event) {
    e.WaitFails? || e.AcquireFails? || e.TurnsAway? || e.Notices? || e.Fails?
  }

  /** An execution that returns has succeeded exactly when it met no failure, though its caller may have left or its budget run out. */
  lemma {:induction false} OnlyFailuresFail(work: Work, x: Execution, events: seq<Event>)
    requires |x.queries| == |work.planned| && Possible(work, x, events) && !x.dispatchFailed && !x.queryFailed
    requires Returned(After(work, x, events))
    ensures Succeeded(After(work, x, events)) <==> forall e <- events :: !Failing(e)
    decreases |events|
  {
    hide Returned;
    if events != [] {
      var e, y := events[0], Apply(work, x, events[0]);
      assert e in events && forall f :: f in events <==> f == e || f in events[1..];
      if Failing(e) {
        FailedStays(work, y, events[1..]);
      } else {
        OnlyFailuresFail(work, y, events[1..]);
      }
    }
  }

  lemma {:induction false} FailedStays(work: Work, x: Execution, events: seq<Event>)
    requires |x.queries| == |work.planned| && Possible(work, x, events) && (x.dispatchFailed || x.queryFailed)
    ensures !Succeeded(After(work, x, events))
    decreases |events|
  {
    if events != [] {
      FailedStays(work, Apply(work, x, events[0]), events[1..]);
    }
  }

  /** There is always a next query while any is pending. */
  lemma {:induction false} SomeNext(queries: seq<PlannedQuery>, pending: seq<nat>, now: int) returns (at: nat)
    requires InRange(queries, pending) && pending != []
    ensures IsNext(queries, pending, now, at)
    decreases |pending|
  {
    hide ReadyNow;
    var n := |pending| - 1;
    if n == 0 {
      at := 0;
    } else {
      at := SomeNext(queries, pending[..n], now);
      if !ReadyNow(queries[pending[at]], now) && (ReadyNow(queries[pending[n]], now) || queries[pending[n]].readyAt < queries[pending[at]].readyAt) {
        assert forall p :: 0 <= p < n ==> pending[..n][p] == pending[p];
        at := n;
      }
    }
  }
}
