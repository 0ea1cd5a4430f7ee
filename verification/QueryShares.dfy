/** What each binding of a completion says, and whether anyone may take it for an answer. */
module QueryShares {
  import opened Bytes
  import opened Framing
  import opened QueryPlanning
  import opened SeriesDelivery
  import opened QueryCompletion
  import opened QueryDispatch

  // ---------- What a binding may say ----------

  /** A pair is of this query, this requirement and this consumer. */
  predicate NamesPair(p: Pair, q: PlannedQuery, r: Requirement, c: Consumer) {
    && p.digest == q.spec.digest && p.requirement == r.id && p.dataset == r.dataset && p.role == r.role && p.consumer == c.ref
  }

  predicate PlannedIn(q: PlannedQuery, p: Pair) {
    exists r <- q.requirements, c <- r.consumers :: NamesPair(p, q, r, c)
  }

  predicate AsideIn(q: PlannedQuery, p: Pair) {
    exists r <- q.readinessInvalid, c <- r.consumers :: NamesPair(p, q, r, c)
  }

  /** A consumer that nothing was read for, and why. */
  predicate Unread(share: Share, reason: ReasonCode) {
    share.completeness == Unavailable && share.dataState == Unknown && share.disposition == NotAvailable && share.reason == reason
  }

  /** An answer's share: as complete as the answer, with no data of its own, and unknown where the answer is. */
  predicate SharesAnswer(share: Share, c: ProviderCompletion) {
    && share.ref == c.ref && share.completeness == c.completeness
    && match c.completeness
       case Full => share.disposition == Available && share.reason == NoReason && share.dataState == Streamed(c.dataState)
       case Partial => share.disposition == Degraded && share.reason == QueryPartial && share.dataState == Streamed(c.dataState)
       case Unavailable => Unread(share, AttributedTo(c.route))
  }

  /** What is left to say of data that reached its consumers as series. */
  function Streamed(state: DataState): DataState {
    match state
    case Data => Empty
    case Empty => Empty
    case Unknown => Unknown
  }

  /** A planned pair's share, by how its query ended. */
  predicate PlannedSays(q: PlannedQuery, outcome: Outcome, attempt: nat, share: Share) {
    && share.attempt == attempt
    && match outcome
       case Answered(c) => SharesAnswer(share, c)
       case BudgetExhausted => Unread(share, ExecutionBudgetExhausted) && share.ref == q.spec.digest + Ascii(":budget:") + Decimal(attempt)
       case SetAsideAll => false
  }

  /** The share of a pair that was set aside. */
  predicate AsideSays(q: PlannedQuery, outcome: Outcome, attempt: nat, share: Share) {
    && share.attempt == attempt && Unread(share, ReadinessBudgetInvalid)
    && match outcome
       case Answered(c) => share.ref == c.ref
       case BudgetExhausted => false
       case SetAsideAll => share.ref == q.spec.digest + Ascii(":readiness:") + Decimal(attempt)
  }

  predicate Says(q: PlannedQuery, outcome: Outcome, attempt: nat, b: Binding) {
    || (PlannedIn(q, b.pair) && PlannedSays(q, outcome, attempt, b.share))
    || (AsideIn(q, b.pair) && AsideSays(q, outcome, attempt, b.share))
  }

  // ---------- What bindings do say ----------

  lemma {:induction false} OneBindings(digest: Bytes, r: Requirement, share: Share, b: Binding)
    ensures b in BindOne(digest, r, share) <==> exists c <- r.consumers :: b == Binding(PairOf(digest, r, c), share)
    decreases |r.consumers|
  {
    if r.consumers != [] {
      var last := |r.consumers| - 1;
      var front := r.(consumers := r.consumers[..last]);
      OneBindings(digest, front, share, b);
      assert forall c :: c in r.consumers <==> c in front.consumers || c == r.consumers[last];
      assert forall c :: PairOf(digest, front, c) == PairOf(digest, r, c);
    }
  }

  lemma {:induction false} AllBindings(digest: Bytes, rs: seq<Requirement>, share: Share, b: Binding)
    ensures b in BindAll(digest, rs, share) <==> exists r <- rs, c <- r.consumers :: b == Binding(PairOf(digest, r, c), share)
  {
    hide BindOne;
    if rs != [] {
      var n := |rs| - 1;
      AllBindings(digest, rs[..n], share, b);
      OneBindings(digest, rs[n], share, b);
      assert forall r :: r in rs <==> r in rs[..n] || r == rs[n];
    }
  }

  lemma PairNames(q: PlannedQuery, r: Requirement, c: Consumer, p: Pair)
    ensures p == PairOf(q.spec.digest, r, c) <==> NamesPair(p, q, r, c)
  {
  }

  /** The bindings of some requirements are those whose pair is one of theirs, all with one share. */
  lemma BindingsOfAll(q: PlannedQuery, rs: seq<Requirement>, share: Share, b: Binding)
    ensures b in BindAll(q.spec.digest, rs, share) <==> b.share == share && exists r <- rs, c <- r.consumers :: NamesPair(b.pair, q, r, c)
  {
    hide BindAll;
    AllBindings(q.spec.digest, rs, share, b);
    forall r: Requirement, c: Consumer ensures b.pair == PairOf(q.spec.digest, r, c) <==> NamesPair(b.pair, q, r, c) {
      PairNames(q, r, c, b.pair);
    }
  }

  /** What a query's planned and set-aside pairs are told is what they may be, and only that. */
  lemma BindingsSay(q: PlannedQuery, outcome: Outcome, attempt: nat, b: Binding)
    requires b in BindingsOf(q, outcome, attempt)
    ensures Says(q, outcome, attempt, b)
  {
    hide BindAll, Decimal;
    match outcome {
      case SetAsideAll => BindingsOfAll(q, q.readinessInvalid, InvalidShare(ReadinessRef(q, attempt), attempt), b);
      case BudgetExhausted => BindingsOfAll(q, q.requirements, BudgetShare(q, attempt), b);
      case Answered(c) =>
        BindingsOfAll(q, q.requirements, AnswerShare(c, attempt), b);
        BindingsOfAll(q, q.readinessInvalid, InvalidShare(c.ref, attempt), b);
    }
  }

  /** Every binding of a whole completion is told by the end of some query its pair is in. */
  lemma {:induction false} CompletionSays(queries: seq<PlannedQuery>, outcomes: seq<Outcome>, attempt: nat, b: Binding)
    requires |queries| == |outcomes| && b in Assembled(queries, outcomes, attempt).bindings
    ensures exists i :: 0 <= i < |queries| && Says(queries[i], outcomes[i], attempt, b)
  {
    hide BindingsOf, Physical, Says;
    if queries != [] {
      var n := |queries| - 1;
      if b in BindingsOf(queries[n], outcomes[n], attempt) {
        BindingsSay(queries[n], outcomes[n], attempt, b);
      } else {
        CompletionSays(queries[..n], outcomes[..n], attempt, b);
        var i :| 0 <= i < n && Says(queries[..n][i], outcomes[..n][i], attempt, b);
        assert Says(queries[i], outcomes[i], attempt, b);
      }
    }
  }

  predicate AnsweredInFull(q: PlannedQuery, outcome: Outcome, p: Pair) {
    outcome.Answered? && outcome.completion.completeness == Full && PlannedIn(q, p)
  }

  /** A binding is full, or available, only where its pair was planned and its query's own answer was full. */
  lemma FullOnlyWhenAnswered(queries: seq<PlannedQuery>, outcomes: seq<Outcome>, attempt: nat, b: Binding)
    requires |queries| == |outcomes| && b in Assembled(queries, outcomes, attempt).bindings
    requires b.share.completeness == Full || b.share.disposition == Available
    ensures exists i :: 0 <= i < |queries| && AnsweredInFull(queries[i], outcomes[i], b.pair)
  {
    hide Assembled, PlannedIn, AsideIn, Decimal;
    CompletionSays(queries, outcomes, attempt, b);
    var i :| 0 <= i < |queries| && Says(queries[i], outcomes[i], attempt, b);
    assert AnsweredInFull(queries[i], outcomes[i], b.pair);
  }

  /** Only one query of a plan can tell a pair anything: the one of its digest. */
  lemma ToldByItsOwn(queries: seq<PlannedQuery>, i: nat, j: nat, outcomes: seq<Outcome>, attempt: nat, b: Binding)
    requires DistinctDigests(queries) && i < |queries| == |outcomes| && j < |queries|
    requires Says(queries[i], outcomes[i], attempt, b) && queries[j].spec.digest == b.pair.digest
    ensures i == j
  {
    hide PlannedSays, AsideSays;
  }

  /**
   * A binding of a plan's completion is told by the query of its digest: a pair of it that was set aside
   * is never told of an answer, and one of a query that ended without an answer is told why.
   */
  lemma NobodyUnreadIsAnswered(queries: seq<PlannedQuery>, outcomes: seq<Outcome>, attempt: nat, b: Binding, i: nat)
    requires |queries| == |outcomes| && DistinctDigests(queries) && b in Assembled(queries, outcomes, attempt).bindings
    requires i < |queries| && queries[i].spec.digest == b.pair.digest
    ensures !PlannedIn(queries[i], b.pair) ==> AsideIn(queries[i], b.pair) && Unread(b.share, ReadinessBudgetInvalid)
    ensures outcomes[i] == BudgetExhausted ==> Unread(b.share, ExecutionBudgetExhausted)
    ensures outcomes[i] == SetAsideAll ==> Unread(b.share, ReadinessBudgetInvalid)
    ensures outcomes[i].Answered? && outcomes[i].completion.completeness == Unavailable ==>
              Unread(b.share, ReadinessBudgetInvalid) || Unread(b.share, AttributedTo(outcomes[i].completion.route))
    ensures outcomes[i].Answered? && !AsideIn(queries[i], b.pair) ==> SharesAnswer(b.share, outcomes[i].completion)
  {
    hide Assembled, PlannedIn, AsideIn, Decimal, DistinctDigests;
    CompletionSays(queries, outcomes, attempt, b);
    var j :| 0 <= j < |queries| && Says(queries[j], outcomes[j], attempt, b);
    ToldByItsOwn(queries, j, i, outcomes, attempt, b);
  }

  // ---------- Completions of queries ----------

  /** A completion that says nothing was read. */
  predicate NothingRead(p: PhysicalCompletion, q: PlannedQuery) {
    && p.query == q.spec.digest && p.completeness == Unavailable && p.dataState == Unknown
    && p.delivery == NO_DELIVERY && p.withheld == 0 && p.withheldOutside == 0
  }

  predicate CopiesAnswer(p: PhysicalCompletion, c: ProviderCompletion) {
    && p.ref == c.ref && p.query == c.query && p.completeness == c.completeness && p.dataState == c.dataState
    && p.delivery == c.delivery && p.withheld == c.withheld && p.withheldOutside == c.withheldOutside
  }

  /** A query's own completion copies its answer, or says that there is none. */
  lemma PhysicalIs(q: PlannedQuery, outcome: Outcome, attempt: nat)
    ensures var p := Physical(q, outcome, attempt);
            && p.revision == q.spec.revision
            && match outcome
               case Answered(c) => CopiesAnswer(p, c)
               case BudgetExhausted => NothingRead(p, q) && p.ref == q.spec.digest + Ascii(":budget:") + Decimal(attempt)
               case SetAsideAll => NothingRead(p, q) && p.ref == q.spec.digest + Ascii(":readiness:") + Decimal(attempt)
  {
    hide Decimal;
  }

  /** An answer is trusted when it names its query and a result, and is full or partial only of data or of none. */
  lemma TrustedExactly(digest: Bytes, c: ProviderCompletion)
    ensures Trusted(digest, c) <==>
              c.query == digest && c.ref != [] && match c.completeness
                                                  case Full => c.dataState == Data || c.dataState == Empty
                                                  case Partial => c.dataState == Data || c.dataState == Empty
                                                  case Unavailable => true
  {
  }

  /** On every path that succeeds an answered query was trusted: no query of a successful execution ends on an answer that is not its own. */
  lemma EndsAreTrusted(planned: seq<PlannedQuery>, recovery: bool, spent: bool, s: Surroundings, i: nat)
    requires (recovery && spent) || EndsWell(WorkOf(planned, recovery, s), s.schedule(WorkOf(planned, recovery, s)))
    requires i < |planned| && (recovery ==> planned[i].readinessInvalid == [])
    ensures var end := EndsOf(planned, recovery, spent, s)[i];
            && (end.Answered? ==> Trusted(planned[i].spec.digest, end.completion) && planned[i].requirements != [])
            && (end == BudgetExhausted ==> recovery) && (end == SetAsideAll ==> planned[i].requirements == [])
  {
    hide Trusted, Possible, Begin, After, Sane;
    if !(recovery && spent) {
      var work := WorkOf(planned, recovery, s);
      var events := s.schedule(work);
      BeginSane(work);
      RunSane(work, Begin(work), events);
      SettledEnds(work, After(work, Begin(work), events), i);
    }
  }

  lemma SettledEnds(work: Work, x: Execution, i: nat)
    requires Sane(work, x) && Succeeded(x) && |work.answers| == |work.planned| && i < |work.planned|
    requires work.recovery ==> work.planned[i].readinessInvalid == []
    ensures |x.queries| == |work.planned|
    ensures var end := OutcomeOf(work, x, i);
            && (end.Answered? ==> Trusted(work.planned[i].spec.digest, end.completion) && work.planned[i].requirements != [])
            && (end == BudgetExhausted ==> work.recovery) && (end == SetAsideAll ==> work.planned[i].requirements == [])
  {
    hide DistinctPending, Trusted;
    assert Explained(work, x, i) && Accounted(x.queries[i]);
    assert x.queries[i].state == Pending ==> i in x.pending;
  }
}
