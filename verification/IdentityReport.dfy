/** Reports of records turned away for their object identity: at most one a plan, a reason and a window, and no rejection lost. */
module IdentityReport {
  import opened Bytes

  datatype PlanKey = PlanKey(tenant: Bytes, business: Bytes, strategy: Bytes)

  datatype Reason = IdentityMissing | IdentityUnmatched

  /** When a reason was last reported for a plan, and how many rejections have come since. */
  datatype ReasonWindow = ReasonWindow(lastReported: Option<int>, pending: nat)

  datatype PlanState = PlanState(lastSeen: int, lastAdmitted: Option<int>, missing: ReasonWindow, unmatched: ReasonWindow)

  const UNSEEN := PlanState(0, None, ReasonWindow(None, 0), ReasonWindow(None, 0))

  type Plans = map<PlanKey, PlanState>

  datatype Reporting = Reporting(plans: Plans, lastSweep: Option<int>)

  const NEW := Reporting(map[], None)

  datatype Report = Report(plan: PlanKey, reason: Reason, count: nat)

  /** How long a window is, and whether anything listens. */
  datatype Setup = Setup(window: int, listening: bool)

  /** A record admitted through its object identity, or rejected for a reason. */
  datatype Event =
    | Admits(plan: PlanKey, now: int)
    | Rejects(plan: PlanKey, now: int, reason: Reason)

  function WindowOf(state: PlanState, reason: Reason): ReasonWindow {
    if reason == IdentityMissing then state.missing else state.unmatched
  }

  function WithWindow(state: PlanState, reason: Reason, w: ReasonWindow): PlanState {
    if reason == IdentityMissing then state.(missing := w) else state.(unmatched := w)
  }

  predicate Due(w: ReasonWindow, now: int, span: int) {
    w.lastReported.None? || now - w.lastReported.value >= span
  }

  predicate AdmittedRecently(state: PlanState, now: int, window: int) {
    state.lastAdmitted.Some? && now - state.lastAdmitted.value < window
  }

  function StateOf(plans: Plans, plan: PlanKey): PlanState {
    if plan in plans then plans[plan] else UNSEEN
  }

  predicate SweepsAt(s: Setup, r: Reporting, now: int) {
    s.window > 0 && (r.lastSweep.None? || now - r.lastSweep.value >= s.window)
  }

  /** The plans seen within ten windows. */
  function Fresh(plans: Plans, horizon: int): Plans {
    map k | k in plans && plans[k].lastSeen >= horizon :: plans[k]
  }

  function Sweep(s: Setup, r: Reporting, now: int): Reporting {
    if SweepsAt(s, r, now) then Reporting(Fresh(r.plans, now - 10 * s.window), Some(now)) else r
  }

  /** Whether a rejection is reported now. */
  predicate Emits(s: Setup, state: PlanState, reason: Reason, now: int) {
    && s.listening && s.window > 0 && Due(WindowOf(state, reason), now, s.window)
    && (reason == IdentityUnmatched ==> !AdmittedRecently(state, now, s.window))
  }

  /** The reporting after an event, before it is swept. */
  function Touch(s: Setup, r: Reporting, e: Event): Reporting {
    var state := StateOf(r.plans, e.plan).(lastSeen := e.now);
    match e
    case Admits(plan, now) => r.(plans := r.plans[plan := state.(lastAdmitted := Some(now))])
    case Rejects(plan, now, reason) =>
      var w := WindowOf(state, reason);
      var counted := w.(pending := w.pending + 1);
      r.(plans := r.plans[plan := WithWindow(state, reason, if Emits(s, state, reason, now) then ReasonWindow(Some(now), 0) else counted)])
  }

  function ReportOf(s: Setup, r: Reporting, e: Event): Option<Report> {
    match e
    case Admits(_, _) => None
    case Rejects(plan, now, reason) =>
      var state := StateOf(r.plans, plan);
      if Emits(s, state, reason, now) then Some(Report(plan, reason, WindowOf(state, reason).pending + 1)) else None
  }

  function Step(s: Setup, r: Reporting, e: Event): Reporting {
    if e.Admits? then Touch(s, r, e) else Sweep(s, Touch(s, r, e), e.now)
  }

  // ---------- The reporter ----------

  class IdentityReporter {
    const window: int
    const listening: bool
    var plans: Plans
    var lastSweep: Option<int>

    function Now(): Reporting
      reads this
    {
      Reporting(plans, lastSweep)
    }

    function Settings(): Setup {
      Setup(window, listening)
    }

    constructor (window: int, listening: bool)
      ensures Now() == NEW && Settings() == Setup(window, listening)
    {
      this.window, this.listening := window, listening;
      plans, lastSweep := map[], None;
    }

    /** The plan's state, seen now. */
    method State(plan: PlanKey, now: int) returns (state: PlanState)
      modifies this`plans
      ensures state == StateOf(old(plans), plan).(lastSeen := now) && plans == old(plans)[plan := state]
    {
      state := if plan in plans then plans[plan] else UNSEEN;
      state := state.(lastSeen := now);
      plans := plans[plan := state];
    }

    method Admitted(plan: PlanKey, now: int)
      modifies this
      ensures Now() == Step(Settings(), old(Now()), Admits(plan, now))
    {
      var state := State(plan, now);
      plans := plans[plan := state.(lastAdmitted := Some(now))];
    }

    method Missing(plan: PlanKey, now: int) returns (report: Option<Report>)
      modifies this
      ensures Now() == Step(Settings(), old(Now()), Rejects(plan, now, IdentityMissing))
      ensures report == ReportOf(Settings(), old(Now()), Rejects(plan, now, IdentityMissing))
    {
      hide Fresh;
      var state := State(plan, now);
      state := state.(missing := state.missing.(pending := state.missing.pending + 1));
      report := None;
      if listening && window > 0 && Due(state.missing, now, window) {
        report := Some(Report(plan, IdentityMissing, state.missing.pending));
        state := state.(missing := ReasonWindow(Some(now), 0));
      }
      plans := plans[plan := state];
      assert plans == old(plans)[plan := state];
      SweepPlans(now);
    }

    method Unmatched(plan: PlanKey, now: int) returns (report: Option<Report>)
      modifies this
      ensures Now() == Step(Settings(), old(Now()), Rejects(plan, now, IdentityUnmatched))
      ensures report == ReportOf(Settings(), old(Now()), Rejects(plan, now, IdentityUnmatched))
    {
      hide Fresh;
      var state := State(plan, now);
      state := state.(unmatched := state.unmatched.(pending := state.unmatched.pending + 1));
      var admittedRecently := state.lastAdmitted.Some? && now - state.lastAdmitted.value < window;
      report := None;
      if listening && window > 0 && !admittedRecently && Due(state.unmatched, now, window) {
        report := Some(Report(plan, IdentityUnmatched, state.unmatched.pending));
        state := state.(unmatched := ReasonWindow(Some(now), 0));
      }
      plans := plans[plan := state];
      assert plans == old(plans)[plan := state];
      SweepPlans(now);
    }

    /** Drops the plans not seen for ten windows, at most once a window. */
    method SweepPlans(now: int)
      modifies this
      ensures Now() == Sweep(Settings(), old(Now()), now)
    {
      if window <= 0 || (lastSweep.Some? && now - lastSweep.value < window) {
        return;
      }
      lastSweep := Some(now);
      var horizon := now - 10 * window;
      var rest := plans.Keys;
      ghost var was := plans;
      while rest != {}
        invariant rest <= was.Keys && lastSweep == Some(now)
        invariant plans.Keys <= was.Keys && forall k :: k in plans ==> plans[k] == was[k]
        invariant forall k :: k in was ==> (k in plans <==> k in rest || was[k].lastSeen >= horizon)
        decreases |rest|
      {
        var key :| key in rest;
        rest := rest - {key};
        if plans[key].lastSeen < horizon {
          plans := map k | k in plans && k != key :: plans[k];
        }
      }
      assert plans == Fresh(was, horizon);
    }
  }

  // ---------- Runs ----------

  function After(s: Setup, events: seq<Event>): Reporting {
    if events == [] then NEW else Step(s, After(s, events[..|events| - 1]), events[|events| - 1])
  }

  /** What the nth event of a run has reported. */
  function Reported(s: Setup, events: seq<Event>, n: nat): Option<Report>
    requires n < |events|
  {
    ReportOf(s, After(s, events[..n]), events[n])
  }

  /** The clock does not go back. */
  predicate Ticking(events: seq<Event>) {
    forall i, j :: 0 <= i < j < |events| ==> events[i].now <= events[j].now
  }

  /** Whether an event of a run reported a plan for a reason. */
  predicate ReportedAt(s: Setup, events: seq<Event>, n: nat, plan: PlanKey, reason: Reason) {
    n < |events| && Reported(s, events, n).Some? && events[n].plan == plan && events[n].Rejects? && events[n].reason == reason
  }

  predicate AdmittedAt(events: seq<Event>, n: nat, plan: PlanKey) {
    n < |events| && events[n].Admits? && events[n].plan == plan
  }

  /** A time is remembered when a later or equal one is kept, or it is ten windows gone. */
  predicate Remembers(kept: Option<int>, time: int, now: int, window: int) {
    (kept.Some? && time <= kept.value) || time + 10 * window < now
  }

  /** No plan was seen after the last event. */
  predicate SeenBy(plans: Plans, events: seq<Event>) {
    forall k :: k in plans ==> events != [] && plans[k].lastSeen <= events[|events| - 1].now
  }

  ghost predicate Grounded(s: Setup, events: seq<Event>) {
    var plans := After(s, events).plans;
    forall plan :: plan in plans ==> GroundedPlan(s, events, plan, plans[plan])
  }

  ghost predicate GroundedPlan(s: Setup, events: seq<Event>, plan: PlanKey, state: PlanState) {
    && (forall reason :: WindowOf(state, reason).lastReported.Some? ==>
          WindowOf(state, reason).lastReported.value <= state.lastSeen
          && ReportedWhen(s, events, plan, reason, WindowOf(state, reason).lastReported.value))
    && (state.lastAdmitted.Some? ==> state.lastAdmitted.value <= state.lastSeen && AdmittedWhen(events, plan, state.lastAdmitted.value))
  }

  ghost predicate ReportedWhen(s: Setup, events: seq<Event>, plan: PlanKey, reason: Reason, time: int) {
    exists n: nat :: ReportedAt(s, events, n, plan, reason) && events[n].now == time
  }

  ghost predicate AdmittedWhen(events: seq<Event>, plan: PlanKey, time: int) {
    exists n: nat :: AdmittedAt(events, n, plan) && events[n].now == time
  }

  lemma SweptPlans(s: Setup, r: Reporting, now: int, k: PlanKey)
    ensures var plans := Sweep(s, r, now).plans;
            && (k in plans ==> k in r.plans && plans[k] == r.plans[k])
            && (k in r.plans && k !in plans ==> s.window > 0 && r.plans[k].lastSeen < now - 10 * s.window)
  {
  }

  /** A plan is forgotten exactly by a sweep, at least a window after the one before, that finds it unseen for more than ten windows. */
  lemma SweptExactly(s: Setup, r: Reporting, now: int, k: PlanKey)
    requires k in r.plans
    ensures var sweeps := s.window > 0 && (r.lastSweep == None || r.lastSweep.value + s.window <= now);
            && (k !in Sweep(s, r, now).plans <==> sweeps && r.plans[k].lastSeen + 10 * s.window < now)
            && Sweep(s, r, now).lastSweep == if sweeps then Some(now) else r.lastSweep
  {
  }

  /** What an event leaves of a plan: its own touched, or forgotten when long unseen. */
  lemma StepPlan(s: Setup, r: Reporting, e: Event, k: PlanKey)
    ensures var touched, plans := Touch(s, r, e).plans, Step(s, r, e).plans;
            && (k in plans ==> k in touched && plans[k] == touched[k])
            && (k in touched && k !in plans ==> s.window > 0 && touched[k].lastSeen < e.now - 10 * s.window && k != e.plan)
            && (k != e.plan ==> (k in touched <==> k in r.plans) && (k in touched ==> touched[k] == r.plans[k]))
            && e.plan in touched && touched[e.plan].lastSeen == e.now
  {
    hide Fresh, Emits;
    SweptPlans(s, Touch(s, r, e), e.now, k);
  }

  /** What an event makes of its own plan's windows. */
  lemma TouchedPlan(s: Setup, r: Reporting, e: Event, reason: Reason)
    ensures var was, later := StateOf(r.plans, e.plan), Touch(s, r, e).plans[e.plan];
            && later.lastAdmitted == (if e.Admits? then Some(e.now) else was.lastAdmitted)
            && WindowOf(later, reason) ==
               (if e.Rejects? && e.reason == reason then
                  if ReportOf(s, r, e).Some? then ReasonWindow(Some(e.now), 0) else WindowOf(was, reason).(pending := WindowOf(was, reason).pending + 1)
                else WindowOf(was, reason))
            && (ReportOf(s, r, e).Some? ==>
                  e.Rejects? && ReportOf(s, r, e).value == Report(e.plan, e.reason, WindowOf(was, e.reason).pending + 1))
  {
    hide Due;
  }

  lemma ReportedFront(s: Setup, events: seq<Event>, n: nat)
    requires n + 1 < |events|
    ensures Reported(s, events[..|events| - 1], n) == Reported(s, events, n)
  {
    assert events[..|events| - 1][..n] == events[..n];
  }

  lemma {:induction false} GroundedAlways(s: Setup, events: seq<Event>)
    requires Ticking(events)
    ensures Grounded(s, events) && SeenBy(After(s, events).plans, events)
  {
    hide Step, Touch, Reported, WindowOf, ReportOf;
    if events != [] {
      var n := |events| - 1;
      var front, e := events[..n], events[n];
      GroundedAlways(s, front);
      var r := After(s, front);
      var plans := After(s, events).plans;
      forall k | k in plans ensures GroundedPlan(s, events, k, plans[k]) && plans[k].lastSeen <= e.now {
        StepPlan(s, r, e, k);
        GroundedStep(s, events, k);
      }
    }
  }

  lemma GroundedStep(s: Setup, events: seq<Event>, k: PlanKey)
    requires events != [] && Ticking(events)
    requires Grounded(s, events[..|events| - 1])
    requires SeenBy(After(s, events[..|events| - 1]).plans, events[..|events| - 1])
    requires k in After(s, events).plans
    ensures GroundedPlan(s, events, k, After(s, events).plans[k]) && After(s, events).plans[k].lastSeen <= events[|events| - 1].now
  {
    hide Step, Touch, Reported, WindowOf, ReportOf;
    var n := |events| - 1;
    var front, e := events[..n], events[n];
    var r := After(s, front);
    StepPlan(s, r, e, k);
    var state := After(s, events).plans[k];
    forall reason | WindowOf(state, reason).lastReported.Some?
      ensures WindowOf(state, reason).lastReported.value <= state.lastSeen && ReportedWhen(s, events, k, reason, WindowOf(state, reason).lastReported.value)
    {
      TouchedPlan(s, r, e, reason);
      if k == e.plan && e.Rejects? && e.reason == reason && ReportOf(s, r, e).Some? {
        ReportedHere(s, events);
      } else {
        NothingReported(reason);
        assert k in r.plans;
        assert GroundedPlan(s, front, k, r.plans[k]);
        StillReported(s, events, k, reason, WindowOf(state, reason).lastReported.value);
      }
    }
    if state.lastAdmitted.Some? {
      TouchedPlan(s, r, e, IdentityMissing);
      if k == e.plan && e.Admits? {
        assert AdmittedAt(events, n, k);
      } else {
        NothingReported(IdentityMissing);
        assert k in r.plans;
        assert GroundedPlan(s, front, k, r.plans[k]);
        StillAdmitted(events, k, state.lastAdmitted.value);
      }
    }
  }

  lemma NothingReported(reason: Reason)
    ensures WindowOf(UNSEEN, reason) == ReasonWindow(None, 0)
  {
  }

  lemma ReportedHere(s: Setup, events: seq<Event>)
    requires events != [] && events[|events| - 1].Rejects? && ReportOf(s, After(s, events[..|events| - 1]), events[|events| - 1]).Some?
    ensures ReportedWhen(s, events, events[|events| - 1].plan, events[|events| - 1].reason, events[|events| - 1].now)
  {
    hide ReportOf;
    assert ReportedAt(s, events, |events| - 1, events[|events| - 1].plan, events[|events| - 1].reason);
  }

  lemma StillReported(s: Setup, events: seq<Event>, plan: PlanKey, reason: Reason, time: int)
    requires events != [] && ReportedWhen(s, events[..|events| - 1], plan, reason, time)
    ensures ReportedWhen(s, events, plan, reason, time)
  {
    hide Reported;
    var front := events[..|events| - 1];
    var n: nat :| ReportedAt(s, front, n, plan, reason) && front[n].now == time;
    ReportedFront(s, events, n);
    assert ReportedAt(s, events, n, plan, reason);
  }

  lemma StillAdmitted(events: seq<Event>, plan: PlanKey, time: int)
    requires events != [] && AdmittedWhen(events[..|events| - 1], plan, time)
    ensures AdmittedWhen(events, plan, time)
  {
    var n: nat :| AdmittedAt(events[..|events| - 1], n, plan) && events[..|events| - 1][n].now == time;
    assert AdmittedAt(events, n, plan);
  }

  /** A report or an admission stays remembered until its plan has gone unseen for ten windows. */
  lemma StepRemembers(s: Setup, events: seq<Event>, plan: PlanKey, reason: Reason, time: int)
    requires events != [] && Ticking(events) && time <= events[|events| - 1].now && Grounded(s, events[..|events| - 1])
    ensures var r, e := After(s, events[..|events| - 1]), events[|events| - 1];
            var was, later := StateOf(r.plans, plan), StateOf(After(s, events).plans, plan);
            && (Remembers(WindowOf(was, reason).lastReported, time, e.now, s.window) ==>
                  Remembers(WindowOf(later, reason).lastReported, time, e.now, s.window))
            && (Remembers(was.lastAdmitted, time, e.now, s.window) ==> Remembers(later.lastAdmitted, time, e.now, s.window))
  {
    hide Step, Touch, ReportOf, Grounded, ReportedWhen, AdmittedWhen;
    var r, e := After(s, events[..|events| - 1]), events[|events| - 1];
    StepPlan(s, r, e, plan);
    TouchedPlan(s, r, e, reason);
    NothingReported(reason);
    if plan in r.plans {
      KeptIsSeen(s, events[..|events| - 1], plan, reason);
    }
  }

  lemma KeptIsSeen(s: Setup, events: seq<Event>, plan: PlanKey, reason: Reason)
    requires Grounded(s, events) && plan in After(s, events).plans
    ensures var state := After(s, events).plans[plan];
            && (WindowOf(state, reason).lastReported.Some? ==> WindowOf(state, reason).lastReported.value <= state.lastSeen)
            && (state.lastAdmitted.Some? ==> state.lastAdmitted.value <= state.lastSeen)
  {
    hide After, ReportedWhen, AdmittedWhen;
    assert GroundedPlan(s, events, plan, After(s, events).plans[plan]);
  }

  lemma RemembersLater(kept: Option<int>, time: int, was: int, now: int, window: int)
    requires Remembers(kept, time, was, window) && was <= now
    ensures Remembers(kept, time, now, window)
  {
  }

  lemma {:induction false} ReportRemembered(s: Setup, events: seq<Event>, n: nat, plan: PlanKey, reason: Reason)
    requires Ticking(events) && ReportedAt(s, events, n, plan, reason)
    ensures Remembers(WindowOf(StateOf(After(s, events).plans, plan), reason).lastReported, events[n].now, events[|events| - 1].now, s.window)
    decreases |events|
  {
    hide After, Step, Touch, ReportOf, Remembers, WindowOf;
    var last := |events| - 1;
    if n < last {
      ReportedFront(s, events, n);
      ReportRemembered(s, events[..last], n, plan, reason);
      GroundedAlways(s, events[..last]);
      RemembersLater(WindowOf(StateOf(After(s, events[..last]).plans, plan), reason).lastReported, events[n].now, events[last - 1].now, events[last].now, s.window);
      StepRemembers(s, events, plan, reason, events[n].now);
    } else {
      JustReported(s, events);
    }
  }

  lemma JustReported(s: Setup, events: seq<Event>)
    requires events != [] && events[|events| - 1].Rejects? && Reported(s, events, |events| - 1).Some?
    ensures var e := events[|events| - 1];
            Remembers(WindowOf(StateOf(After(s, events).plans, e.plan), e.reason).lastReported, e.now, e.now, s.window)
  {
    hide Step, Touch, ReportOf;
    var e := events[|events| - 1];
    StepPlan(s, After(s, events[..|events| - 1]), e, e.plan);
    TouchedPlan(s, After(s, events[..|events| - 1]), e, e.reason);
  }

  lemma {:induction false} AdmissionRemembered(s: Setup, events: seq<Event>, n: nat, plan: PlanKey)
    requires Ticking(events) && AdmittedAt(events, n, plan)
    ensures Remembers(StateOf(After(s, events).plans, plan).lastAdmitted, events[n].now, events[|events| - 1].now, s.window)
    decreases |events|
  {
    hide After, Step, Touch, ReportOf, Remembers, WindowOf;
    var last := |events| - 1;
    if n < last {
      AdmissionRemembered(s, events[..last], n, plan);
      GroundedAlways(s, events[..last]);
      RemembersLater(StateOf(After(s, events[..last]).plans, plan).lastAdmitted, events[n].now, events[last - 1].now, events[last].now, s.window);
      StepRemembers(s, events, plan, IdentityMissing, events[n].now);
    } else {
      JustAdmitted(s, events);
    }
  }

  lemma JustAdmitted(s: Setup, events: seq<Event>)
    requires events != [] && events[|events| - 1].Admits?
    ensures var e := events[|events| - 1]; Remembers(StateOf(After(s, events).plans, e.plan).lastAdmitted, e.now, e.now, s.window)
  {
    hide Step, Touch, ReportOf;
    var e := events[|events| - 1];
    StepPlan(s, After(s, events[..|events| - 1]), e, e.plan);
    TouchedPlan(s, After(s, events[..|events| - 1]), e, IdentityMissing);
  }

  // ---------- When a rejection is reported ----------

  /** No report of the plan for the reason is within a window before. */
  ghost predicate NoneSince(s: Setup, events: seq<Event>, n: nat, plan: PlanKey, reason: Reason)
    requires n < |events|
  {
    forall m: nat :: m < n && ReportedAt(s, events, m, plan, reason) ==> events[n].now - events[m].now >= s.window
  }

  ghost predicate NoAdmissionSince(s: Setup, events: seq<Event>, n: nat, plan: PlanKey)
    requires n < |events|
  {
    forall m: nat :: m < n && AdmittedAt(events, m, plan) ==> events[n].now - events[m].now >= s.window
  }

  lemma FrontReported(s: Setup, events: seq<Event>, n: nat, m: nat, plan: PlanKey, reason: Reason)
    requires m < n < |events|
    ensures ReportedAt(s, events[..n], m, plan, reason) <==> ReportedAt(s, events, m, plan, reason)
    ensures AdmittedAt(events[..n], m, plan) <==> AdmittedAt(events, m, plan)
  {
    assert events[..n][..m] == events[..m];
  }

  lemma ReportAt(s: Setup, events: seq<Event>, plan: PlanKey, reason: Reason, time: int) returns (m: nat)
    requires ReportedWhen(s, events, plan, reason, time)
    ensures m < |events| && ReportedAt(s, events, m, plan, reason) && events[m].now == time
  {
    m :| ReportedAt(s, events, m, plan, reason) && events[m].now == time;
  }

  lemma AdmissionAt(events: seq<Event>, plan: PlanKey, time: int) returns (m: nat)
    requires AdmittedWhen(events, plan, time)
    ensures m < |events| && AdmittedAt(events, m, plan) && events[m].now == time
  {
    m :| AdmittedAt(events, m, plan) && events[m].now == time;
  }

  /** What is due is what has not been reported within a window, whatever has been swept. */
  lemma DueExactly(s: Setup, events: seq<Event>, n: nat, plan: PlanKey, reason: Reason)
    requires Ticking(events) && n < |events| && s.window > 0
    ensures Due(WindowOf(StateOf(After(s, events[..n]).plans, plan), reason), events[n].now, s.window) <==> NoneSince(s, events, n, plan, reason)
  {
    hide After, WindowOf, ReportedAt, ReportedWhen, AdmittedWhen;
    var front, now := events[..n], events[n].now;
    var state := StateOf(After(s, front).plans, plan);
    GroundedAlways(s, front);
    NothingReported(reason);
    forall m: nat | m < n && ReportedAt(s, events, m, plan, reason)
      ensures (WindowOf(state, reason).lastReported.Some? && events[m].now <= WindowOf(state, reason).lastReported.value) || now - events[m].now >= s.window
    {
      FrontReported(s, events, n, m, plan, reason);
      ReportRemembered(s, front, m, plan, reason);
    }
    if WindowOf(state, reason).lastReported.Some? {
      assert GroundedPlan(s, front, plan, state);
      var m := ReportAt(s, front, plan, reason, WindowOf(state, reason).lastReported.value);
      FrontReported(s, events, n, m, plan, reason);
    }
  }

  /** An admission is recent when there has been one within a window, whatever has been swept. */
  lemma RecentExactly(s: Setup, events: seq<Event>, n: nat, plan: PlanKey)
    requires Ticking(events) && n < |events| && s.window > 0
    ensures !AdmittedRecently(StateOf(After(s, events[..n]).plans, plan), events[n].now, s.window) <==> NoAdmissionSince(s, events, n, plan)
  {
    hide After, WindowOf, AdmittedAt, ReportedWhen, AdmittedWhen;
    var front, now := events[..n], events[n].now;
    var state := StateOf(After(s, front).plans, plan);
    GroundedAlways(s, front);
    forall m: nat | m < n && AdmittedAt(events, m, plan)
      ensures (state.lastAdmitted.Some? && events[m].now <= state.lastAdmitted.value) || now - events[m].now >= s.window
    {
      FrontReported(s, events, n, m, plan, IdentityMissing);
      AdmissionRemembered(s, front, m, plan);
    }
    if state.lastAdmitted.Some? {
      assert GroundedPlan(s, front, plan, state);
      var m := AdmissionAt(front, plan, state.lastAdmitted.value);
      FrontReported(s, events, n, m, plan, IdentityMissing);
    }
  }

  /**
   * A rejection is reported exactly when something listens and no report of the same plan and reason,
   * nor for an unmatched identity an admission of the plan, is within a window before it. What has
   * been swept in between makes no difference.
   */
  lemma ReportedExactly(s: Setup, events: seq<Event>, n: nat)
    requires Ticking(events) && n < |events| && events[n].Rejects?
    ensures var e := events[n];
            Reported(s, events, n).Some? <==>
              && s.listening && s.window > 0 && NoneSince(s, events, n, e.plan, e.reason)
              && (e.reason == IdentityUnmatched ==> NoAdmissionSince(s, events, n, e.plan))
  {
    hide After, WindowOf, ReportedAt, AdmittedAt, Due, AdmittedRecently, NoneSince, NoAdmissionSince;
    if s.window > 0 {
      DueExactly(s, events, n, events[n].plan, events[n].reason);
      RecentExactly(s, events, n, events[n].plan);
    }
  }

  // ---------- No rejection is lost ----------

  function Rejections(events: seq<Event>, plan: PlanKey, reason: Reason): nat {
    if events == [] then 0
    else
      var e := events[|events| - 1];
      Rejections(events[..|events| - 1], plan, reason) + if e.Rejects? && e.plan == plan && e.reason == reason then 1 else 0
  }

  /** How many rejections the reports of a run stand for. */
  function ReportedCount(s: Setup, events: seq<Event>, plan: PlanKey, reason: Reason): nat {
    if events == [] then 0
    else
      var report := ReportOf(s, After(s, events[..|events| - 1]), events[|events| - 1]);
      ReportedCount(s, events[..|events| - 1], plan, reason)
      + if report.Some? && report.value.plan == plan && report.value.reason == reason then report.value.count else 0
  }

  /** How many were forgotten with plans long unseen. */
  function SweptCount(s: Setup, events: seq<Event>, plan: PlanKey, reason: Reason): nat {
    if events == [] then 0
    else
      var touched := Touch(s, After(s, events[..|events| - 1]), events[|events| - 1]).plans;
      SweptCount(s, events[..|events| - 1], plan, reason)
      + if plan in touched && plan !in After(s, events).plans then WindowOf(touched[plan], reason).pending else 0
  }

  /** Every rejection has been reported, is pending, or was swept with its plan. */
  lemma {:induction false} RejectionsConserved(s: Setup, events: seq<Event>, plan: PlanKey, reason: Reason)
    ensures Rejections(events, plan, reason) ==
            ReportedCount(s, events, plan, reason) + WindowOf(StateOf(After(s, events).plans, plan), reason).pending + SweptCount(s, events, plan, reason)
  {
    hide Step, Touch, ReportOf, WindowOf;
    NothingReported(reason);
    if events != [] {
      var front, e := events[..|events| - 1], events[|events| - 1];
      RejectionsConserved(s, front, plan, reason);
      StepPlan(s, After(s, front), e, plan);
      TouchedPlan(s, After(s, front), e, reason);
    }
  }
}
