/** What a Slot's execution answers: one completion a query, and one binding a pair, on every path that succeeds. */
module QueryCompletion {
  import opened Bytes
  import opened Framing
  import opened QueryPlanning
  import opened SeriesDelivery

  datatype Disposition = Available | Degraded | NotAvailable

  datatype ReasonCode = NoReason | QueryPartial | AttributedTo(route: Bytes) | ReadinessBudgetInvalid | ExecutionBudgetExhausted

  /** What a binding says of its query, the same for every pair the query answers that way. */
  datatype Share = Share(ref: Bytes, completeness: Completeness, dataState: DataState, disposition: Disposition, reason: ReasonCode, attempt: nat)

  datatype Binding = Binding(pair: Pair, share: Share)

  datatype PhysicalCompletion = PhysicalCompletion(
    ref: Bytes,
    query: Bytes,
    revision: Bytes,
    completeness: Completeness,
    dataState: DataState,
    delivery: Delivery,
    withheld: nat,
    withheldOutside: nat)

  datatype Completion = Completion(queries: seq<PhysicalCompletion>, bindings: seq<Binding>, allRequired: bool)

  const NOTHING := Completion([], [], false)

  // ---------- Bindings ----------

  function BindOne(digest: Bytes, r: Requirement, share: Share): seq<Binding>
    decreases |r.consumers|
  {
    if r.consumers == [] then []
    else
      var last := |r.consumers| - 1;
      BindOne(digest, r.(consumers := r.consumers[..last]), share) + [Binding(PairOf(digest, r, r.consumers[last]), share)]
  }

  function BindAll(digest: Bytes, rs: seq<Requirement>, share: Share): seq<Binding> {
    if rs == [] then [] else BindAll(digest, rs[..|rs| - 1], share) + BindOne(digest, rs[|rs| - 1], share)
  }

  /** Which pairs some bindings answer, and how often. */
  function Bound(bindings: seq<Binding>): multiset<Pair> {
    if bindings == [] then multiset{} else Bound(bindings[..|bindings| - 1]) + multiset{bindings[|bindings| - 1].pair}
  }

  lemma {:induction false} BoundJoins(a: seq<Binding>, b: seq<Binding>)
    ensures Bound(a + b) == Bound(a) + Bound(b)
  {
    if b == [] {
      assert a + b == a;
    } else {
      assert (a + b)[..|a + b| - 1] == a + b[..|b| - 1];
      BoundJoins(a, b[..|b| - 1]);
    }
  }

  lemma {:induction false} BindOneBinds(digest: Bytes, r: Requirement, share: Share)
    ensures Bound(BindOne(digest, r, share)) == PairsOf(digest, r)
    decreases |r.consumers|
  {
    if r.consumers != [] {
      var last := |r.consumers| - 1;
      var front := BindOne(digest, r.(consumers := r.consumers[..last]), share);
      var binding := Binding(PairOf(digest, r, r.consumers[last]), share);
      BindOneBinds(digest, r.(consumers := r.consumers[..last]), share);
      BoundJoins(front, [binding]);
      assert Bound([binding]) == multiset{binding.pair} by {
        assert [binding][..0] == [];
      }
    }
  }

  /** Binding some requirements binds exactly their pairs. */
  lemma {:induction false} BindAllBinds(digest: Bytes, rs: seq<Requirement>, share: Share)
    ensures Bound(BindAll(digest, rs, share)) == PairsOfAll(digest, rs)
  {
    hide BindOne, PairsOf;
    if rs != [] {
      var n := |rs| - 1;
      BindAllBinds(digest, rs[..n], share);
      BindOneBinds(digest, rs[n], share);
      BoundJoins(BindAll(digest, rs[..n], share), BindOne(digest, rs[n], share));
    }
  }

  method BindEach(digest: Bytes, rs: seq<Requirement>, share: Share) returns (bindings: seq<Binding>)
    ensures bindings == BindAll(digest, rs, share)
  {
    hide BindOne;
    bindings := [];
    var n := 0;
    assert rs[..0] == [];
    while n < |rs|
      invariant 0 <= n <= |rs|
      invariant bindings == BindAll(digest, rs[..n], share)
    {
      var more := BindConsumers(digest, rs[n], share);
      assert rs[..n + 1][..n] == rs[..n];
      bindings := bindings + more;
      n := n + 1;
    }
    assert rs[..n] == rs;
  }

  method BindConsumers(digest: Bytes, r: Requirement, share: Share) returns (bindings: seq<Binding>)
    ensures bindings == BindOne(digest, r, share)
  {
    bindings := [];
    var i := 0;
    assert r.consumers[..0] == [];
    while i < |r.consumers|
      invariant 0 <= i <= |r.consumers|
      invariant bindings == BindOne(digest, r.(consumers := r.consumers[..i]), share)
    {
      assert r.consumers[..i + 1][..i] == r.consumers[..i];
      bindings := bindings + [Binding(PairOf(digest, r, r.consumers[i]), share)];
      i := i + 1;
    }
    assert r.(consumers := r.consumers[..i]) == r;
  }

  // ---------- One query ----------

  /** How a query of a successful execution ended. */
  datatype Outcome = SetAsideAll | BudgetExhausted | Answered(completion: ProviderCompletion)

  function BudgetRef(q: PlannedQuery, attempt: nat): Bytes {
    q.spec.digest + Ascii(":budget:") + Decimal(attempt)
  }

  function ReadinessRef(q: PlannedQuery, attempt: nat): Bytes {
    q.spec.digest + Ascii(":readiness:") + Decimal(attempt)
  }

  /** What a pair's binding says of a query that was answered: its share of the series is what was streamed, so here it is empty or unknown. */
  function AnswerShare(completion: ProviderCompletion, attempt: nat): Share {
    var state := if completion.dataState == Data then Empty else completion.dataState;
    match completion.completeness
    case Full => Share(completion.ref, Full, state, Available, NoReason, attempt)
    case Partial => Share(completion.ref, Partial, state, Degraded, QueryPartial, attempt)
    case Unavailable => Share(completion.ref, Unavailable, Unknown, NotAvailable, AttributedTo(completion.route), attempt)
  }

  function InvalidShare(ref: Bytes, attempt: nat): Share {
    Share(ref, Unavailable, Unknown, NotAvailable, ReadinessBudgetInvalid, attempt)
  }

  function BudgetShare(q: PlannedQuery, attempt: nat): Share {
    Share(BudgetRef(q, attempt), Unavailable, Unknown, NotAvailable, ExecutionBudgetExhausted, attempt)
  }

  function Physical(q: PlannedQuery, outcome: Outcome, attempt: nat): PhysicalCompletion {
    match outcome
    case SetAsideAll => PhysicalCompletion(ReadinessRef(q, attempt), q.spec.digest, q.spec.revision, Unavailable, Unknown, NO_DELIVERY, 0, 0)
    case BudgetExhausted => PhysicalCompletion(BudgetRef(q, attempt), q.spec.digest, q.spec.revision, Unavailable, Unknown, NO_DELIVERY, 0, 0)
    case Answered(c) => PhysicalCompletion(c.ref, c.query, q.spec.revision, c.completeness, c.dataState, c.delivery, c.withheld, c.withheldOutside)
  }

  function BindingsOf(q: PlannedQuery, outcome: Outcome, attempt: nat): seq<Binding> {
    match outcome
    case SetAsideAll => BindAll(q.spec.digest, q.readinessInvalid, InvalidShare(ReadinessRef(q, attempt), attempt))
    case BudgetExhausted => BindAll(q.spec.digest, q.requirements, BudgetShare(q, attempt))
    case Answered(c) =>
      BindAll(q.spec.digest, q.requirements, AnswerShare(c, attempt))
      + BindAll(q.spec.digest, q.readinessInvalid, InvalidShare(c.ref, attempt))
  }

  /** Whether an ending leaves nobody out: only a query with nobody planned is set aside, and a budget ends only where nobody was. */
  predicate Fits(q: PlannedQuery, outcome: Outcome) {
    match outcome
    case SetAsideAll => q.requirements == []
    case BudgetExhausted => q.readinessInvalid == []
    case Answered(c) => c.query == q.spec.digest
  }

  /** A query's bindings are its pairs, each once. */
  lemma OneQueryConserves(q: PlannedQuery, outcome: Outcome, attempt: nat)
    requires Fits(q, outcome)
    ensures Bound(BindingsOf(q, outcome, attempt)) == QueryPairs(q)
    ensures Physical(q, outcome, attempt).query == q.spec.digest
  {
    hide BindAll, Bound, PairsOfAll, Decimal;
    var digest := q.spec.digest;
    NoRequirements(digest);
    match outcome {
      case SetAsideAll => BindAllBinds(digest, q.readinessInvalid, InvalidShare(ReadinessRef(q, attempt), attempt));
      case BudgetExhausted => BindAllBinds(digest, q.requirements, BudgetShare(q, attempt));
      case Answered(c) =>
        BindAllBinds(digest, q.requirements, AnswerShare(c, attempt));
        BindAllBinds(digest, q.readinessInvalid, InvalidShare(c.ref, attempt));
        BoundJoins(BindAll(digest, q.requirements, AnswerShare(c, attempt)), BindAll(digest, q.readinessInvalid, InvalidShare(c.ref, attempt)));
    }
  }

  /** Ending a query with its budget keeps every pair exactly when none of its consumers was set aside. */
  lemma BudgetConservesExactly(q: PlannedQuery, attempt: nat)
    ensures Bound(BindingsOf(q, BudgetExhausted, attempt)) == QueryPairs(q) <==> PairsOfAll(q.spec.digest, q.readinessInvalid) == multiset{}
  {
    hide BindAll, Bound, PairsOfAll, Decimal;
    BindAllBinds(q.spec.digest, q.requirements, BudgetShare(q, attempt));
    var planned, aside := PairsOfAll(q.spec.digest, q.requirements), PairsOfAll(q.spec.digest, q.readinessInvalid);
    assert |planned + aside| == |planned| + |aside|;
    assert |aside| == 0 <==> aside == multiset{};
  }

  lemma NoRequirements(digest: Bytes)
    ensures PairsOfAll(digest, []) == multiset{}
  {
  }

  method CompleteOne(q: PlannedQuery, outcome: Outcome, attempt: nat, completion: Completion) returns (longer: Completion)
    ensures longer == Completion(completion.queries + [Physical(q, outcome, attempt)], completion.bindings + BindingsOf(q, outcome, attempt), completion.allRequired)
  {
    hide BindAll, Decimal;
    match outcome {
      case SetAsideAll => longer := CompleteReadinessInvalidQuery(completion, q, attempt);
      case BudgetExhausted => longer := CompleteBudgetExhaustedQuery(completion, q, attempt);
      case Answered(c) => longer := AppendQueryCompletion(completion, q, c, attempt);
    }
  }

  method CompleteReadinessInvalidQuery(completion: Completion, q: PlannedQuery, attempt: nat) returns (longer: Completion)
    ensures longer == Completion(completion.queries + [Physical(q, SetAsideAll, attempt)], completion.bindings + BindingsOf(q, SetAsideAll, attempt), completion.allRequired)
  {
    hide BindAll, Decimal;
    var ref := q.spec.digest + Ascii(":readiness:") + Decimal(attempt);
    var physical := PhysicalCompletion(ref, q.spec.digest, q.spec.revision, Unavailable, Unknown, NO_DELIVERY, 0, 0);
    var bindings := BindEach(q.spec.digest, q.readinessInvalid, InvalidShare(ref, attempt));
    longer := completion.(queries := completion.queries + [physical], bindings := completion.bindings + bindings);
  }

  method CompleteBudgetExhaustedQuery(completion: Completion, q: PlannedQuery, attempt: nat) returns (longer: Completion)
    ensures longer == Completion(completion.queries + [Physical(q, BudgetExhausted, attempt)], completion.bindings + BindingsOf(q, BudgetExhausted, attempt), completion.allRequired)
  {
    hide BindAll, Decimal;
    var ref := q.spec.digest + Ascii(":budget:") + Decimal(attempt);
    var physical := PhysicalCompletion(ref, q.spec.digest, q.spec.revision, Unavailable, Unknown, NO_DELIVERY, 0, 0);
    var bindings := BindEach(q.spec.digest, q.requirements, Share(ref, Unavailable, Unknown, NotAvailable, ExecutionBudgetExhausted, attempt));
    longer := completion.(queries := completion.queries + [physical], bindings := completion.bindings + bindings);
  }

  method AppendQueryCompletion(completion: Completion, q: PlannedQuery, c: ProviderCompletion, attempt: nat) returns (longer: Completion)
    ensures longer == Completion(completion.queries + [Physical(q, Answered(c), attempt)], completion.bindings + BindingsOf(q, Answered(c), attempt), completion.allRequired)
  {
    hide BindAll;
    var physical := PhysicalCompletion(c.ref, c.query, q.spec.revision, c.completeness, c.dataState, c.delivery, c.withheld, c.withheldOutside);
    var state := if c.dataState == Data then Empty else c.dataState;
    var disposition, reason := Available, NoReason;
    match c.completeness {
      case Full =>
      case Partial => disposition, reason := Degraded, QueryPartial;
      case Unavailable => state, disposition, reason := Unknown, NotAvailable, AttributedTo(c.route);
    }
    var valid := BindEach(q.spec.digest, q.requirements, Share(c.ref, c.completeness, state, disposition, reason, attempt));
    var invalid := BindEach(q.spec.digest, q.readinessInvalid, InvalidShare(c.ref, attempt));
    longer := completion.(queries := completion.queries + [physical], bindings := completion.bindings + valid);
    longer := longer.(bindings := longer.bindings + invalid);
    assert completion.bindings + valid + invalid == completion.bindings + (valid + invalid);
  }

  // ---------- A whole execution ----------

  /** The completion of queries that ended so. */
  function Assembled(queries: seq<PlannedQuery>, outcomes: seq<Outcome>, attempt: nat): Completion
    requires |queries| == |outcomes|
  {
    if queries == [] then NOTHING.(allRequired := true)
    else
      var n := |queries| - 1;
      var front := Assembled(queries[..n], outcomes[..n], attempt);
      Completion(front.queries + [Physical(queries[n], outcomes[n], attempt)], front.bindings + BindingsOf(queries[n], outcomes[n], attempt), true)
  }

  /** However the queries ended, as long as it fits them: one completion a query in their order, and every pair bound exactly once. */
  lemma {:induction false} AssembledConserves(queries: seq<PlannedQuery>, outcomes: seq<Outcome>, attempt: nat)
    requires |queries| == |outcomes| && forall i :: 0 <= i < |queries| ==> Fits(queries[i], outcomes[i])
    ensures var completion := Assembled(queries, outcomes, attempt);
            && Bound(completion.bindings) == AllPairs(queries)
            && |completion.queries| == |queries|
            && (forall i :: 0 <= i < |queries| ==> completion.queries[i].query == queries[i].spec.digest)
            && completion.allRequired
  {
    hide BindingsOf, Physical, QueryPairs, Fits, Assembled, Bound, AllPairs;
    if queries == [] {
      AssembledNone(attempt);
      NothingBound();
    } else {
      var n := |queries| - 1;
      var front, q, outcome := queries[..n], queries[n], outcomes[n];
      assert queries == front + [q] && outcomes == outcomes[..n] + [outcome];
      AssembledConserves(front, outcomes[..n], attempt);
      AssembledMore(front, outcomes[..n], q, outcome, attempt);
      AllSnoc(front, q);
      OneQueryConserves(q, outcome, attempt);
      BoundJoins(Assembled(front, outcomes[..n], attempt).bindings, BindingsOf(q, outcome, attempt));
    }
  }

  lemma NothingBound()
    ensures Bound([]) == multiset{} && AllPairs([]) == multiset{}
  {
  }

  method Assemble(queries: seq<PlannedQuery>, outcomes: seq<Outcome>, attempt: nat) returns (completion: Completion)
    requires |queries| == |outcomes|
    ensures completion == Assembled(queries, outcomes, attempt)
  {
    hide BindingsOf, Physical;
    completion := NOTHING.(allRequired := true);
    var n := 0;
    assert queries[..0] == [];
    while n < |queries|
      invariant 0 <= n <= |queries|
      invariant completion == Assembled(queries[..n], outcomes[..n], attempt)
    {
      assert queries[..n + 1][..n] == queries[..n] && outcomes[..n + 1][..n] == outcomes[..n];
      completion := CompleteOne(queries[n], outcomes[n], attempt, completion);
      n := n + 1;
    }
    assert queries[..n] == queries && outcomes[..n] == outcomes;
  }

  /** What a trusted completion may say, and so what a binding may. */
  predicate Trusted(digest: Bytes, c: ProviderCompletion) {
    && c.query == digest && c.ref != []
    && (c.completeness != Unavailable ==> c.dataState == Data || c.dataState == Empty)
  }

  /** A binding of a trusted completion never claims data: it is the empty share of an answer, or unknown. */
  lemma SharesClaimNothing(digest: Bytes, c: ProviderCompletion, attempt: nat)
    requires Trusted(digest, c)
    ensures var share := AnswerShare(c, attempt);
            && share.completeness == c.completeness
            && share.dataState == (if c.completeness == Unavailable then Unknown else Empty)
            && (share.disposition == Available <==> c.completeness == Full)
  {
  }

  // ---------- The paths that run no query ----------

  /**
   * A recovery whose budget is spent before any query: every query of the plan completes as unread, and
   * every frozen pair is bound once, because a recovery sets nobody aside.
   */
  method CompleteBudgetExhausted(facts: Facts, requirements: seq<Requirement>, attempt: nat) returns (planned: seq<PlannedQuery>, completion: Option<Completion>)
    ensures completion.Some? <==> CanPlan(facts, requirements) && facts.header(planned)
    ensures CanPlan(facts, requirements) ==> AllPairs(planned) == FrozenPairs(requirements, facts) && DistinctDigests(planned)
    ensures completion.Some? ==>
              && Bound(completion.value.bindings) == FrozenPairs(requirements, facts) && completion.value.allRequired
              && |completion.value.queries| == |planned|
              && (forall i :: 0 <= i < |planned| ==> completion.value.queries[i].query == planned[i].spec.digest)
              && completion.value == Assembled(planned, seq(|planned|, _ => BudgetExhausted), attempt)
  {
    hide Assembled, Bound, AllPairs, FrozenPairs, Fits, Physical, Sound, Ordered, DistinctDigests;
    var ok;
    planned, ok := Prepare(facts, requirements, true);
    if !ok {
      return planned, None;
    }
    var outcomes := seq(|planned|, _ => BudgetExhausted);
    forall i | 0 <= i < |planned| ensures Fits(planned[i], outcomes[i]) {
      NobodySetAside(planned[i]) by {
        assert planned[i] in planned;
      }
    }
    AssembledConserves(planned, outcomes, attempt);
    var assembled := Assemble(planned, outcomes, attempt);
    completion := Some(assembled);
  }

  lemma NobodySetAside(q: PlannedQuery)
    requires q.readinessInvalid == []
    ensures Fits(q, BudgetExhausted)
  {
  }

  /** A later read kept for a supplement: the series of each query and the completion restated for them. */
  type KeptRead = Spec -> Option<(seq<Batch>, ProviderCompletion)>

  /** Whether a query is given what it can take of these series: each well formed, and each that some plan wants taken in its turn. */
  predicate TakesAll(q: PlannedQuery, screen: Screen, hash: Hash, accepts: Batch -> bool, batches: seq<Batch>) {
    forall i :: 0 <= i < |batches| ==> TakesOne(q, screen, hash, accepts, batches[..i], batches[i])
  }

  predicate TakesOne(q: PlannedQuery, screen: Screen, hash: Hash, accepts: Batch -> bool, before: seq<Batch>, b: Batch) {
    && b.query == q.spec.digest && b.ref != [] && b.points > 0
    && (Inputs(screen, b, q) != [] ==>
          var sofar := Fold(hash, Taken(screen, q, before));
          accepts(b) && sofar.Some? && Accumulate(hash, sofar.value, b.delivery).Some?)
  }

  predicate CanReplay(q: PlannedQuery, read: KeptRead, screen: Screen, hash: Hash, accepts: Batch -> bool) {
    && read(q.spec).Some? && Trusted(q.spec.digest, read(q.spec).value.1)
    && TakesAll(q, screen, hash, accepts, read(q.spec).value.0)
  }

  /** What a replayed query answers: what its kept read said, restated for the series some plan takes. */
  predicate ReplaysAs(q: PlannedQuery, read: KeptRead, screen: Screen, hash: Hash, answer: ProviderCompletion) {
    && read(q.spec).Some?
    && var (batches, completion) := read(q.spec).value;
       var taken := Taken(screen, q, batches);
       && Fold(hash, taken).Some?
       && answer == Reconciled(completion, Fold(hash, taken).value, |batches| - |taken|, OutsideCount(screen, q, batches))
  }

  /** A replayed answer is trusted as its kept read was: restating it for fewer series keeps its query and reference. */
  lemma ReplayKeeps(q: PlannedQuery, read: KeptRead, screen: Screen, hash: Hash, accepts: Batch -> bool, answer: ProviderCompletion)
    requires CanReplay(q, read, screen, hash, accepts) && ReplaysAs(q, read, screen, hash, answer)
    ensures Trusted(q.spec.digest, answer)
  {
    hide Fold, Taken, OutsideCount, TakesAll;
  }

  /** Runs one query on the kept read, through the same admission as a first read. */
  method Replay(q: PlannedQuery, read: KeptRead, screen: Screen, hash: Hash, accepts: Batch -> bool) returns (answer: Option<ProviderCompletion>)
    ensures answer.Some? <==> CanReplay(q, read, screen, hash, accepts)
    ensures answer.Some? ==> ReplaysAs(q, read, screen, hash, answer.value)
  {
    hide Taken, Fold, OutsideCount, Inputs;
    var kept := read(q.spec);
    if kept.None? {
      return None;
    }
    var (batches, completion) := kept.value;
    var adapter := new SeriesAdapter(q, screen, hash);
    var n := 0;
    while n < |batches|
      invariant 0 <= n <= |batches|
      invariant adapter.Valid() && adapter.seen == batches[..n] && adapter.query == q && adapter.screen == screen && adapter.hash == hash
      invariant forall i :: 0 <= i < n ==> TakesOne(q, screen, hash, accepts, batches[..i], batches[i])
      modifies adapter
    {
      var ok := adapter.ConsumeProviderSeries(batches[n], accepts(batches[n]));
      if !ok {
        return None;
      }
      n := n + 1;
    }
    assert batches[..n] == batches;
    if !Trusted(q.spec.digest, completion) {
      return None;
    }
    var restated := adapter.ReconcileCompletion(completion);
    answer := Some(restated);
  }

  /**
   * A supplement, which runs on a kept read and waits for nothing: what it answers binds every frozen
   * pair exactly once, those the Slot itself had set aside included.
   */
  method ExecuteSupplement(facts: Facts, requirements: seq<Requirement>, read: KeptRead, screen: Screen, hash: Hash, accepts: Batch -> bool, attempt: nat)
    returns (planned: seq<PlannedQuery>, completion: Option<Completion>, ghost ends: seq<Outcome>)
    ensures completion.Some? <==>
              CanPlan(facts, requirements) && facts.header(planned) && forall q <- planned :: q.requirements != [] ==> CanReplay(q, read, screen, hash, accepts)
    ensures CanPlan(facts, requirements) ==> AllPairs(planned) == FrozenPairs(requirements, facts) && DistinctDigests(planned)
    ensures completion.Some? ==>
              && Bound(completion.value.bindings) == FrozenPairs(requirements, facts) && completion.value.allRequired
              && |completion.value.queries| == |planned|
              && forall i :: 0 <= i < |planned| ==> completion.value.queries[i].query == planned[i].spec.digest
    ensures completion.Some? ==>
              && |ends| == |planned| && completion.value == Assembled(planned, ends, attempt)
              && forall i :: 0 <= i < |planned| ==>
                   if planned[i].requirements == [] then ends[i] == SetAsideAll
                   else ends[i].Answered? && ReplaysAs(planned[i], read, screen, hash, ends[i].completion)
  {
    hide Assembled, Bound, AllPairs, FrozenPairs, Physical, BindingsOf, Sound, Ordered, Fold, Taken, OutsideCount, TakesAll, DistinctDigests, ReplaysAs;
    var ok;
    planned, ok := Prepare(facts, requirements, false);
    ends := [];
    if !ok {
      return planned, None, ends;
    }
    var assembled := NOTHING.(allRequired := true);
    AssembledNone(attempt);
    var n := 0;
    assert planned[..0] == [];
    while n < |planned|
      invariant 0 <= n <= |planned| && |ends| == n
      invariant forall i :: 0 <= i < n ==> Fits(planned[i], ends[i])
      invariant forall i :: 0 <= i < n ==> planned[i].requirements != [] ==> CanReplay(planned[i], read, screen, hash, accepts)
      invariant forall i :: 0 <= i < n ==>
                  if planned[i].requirements == [] then ends[i] == SetAsideAll
                  else ends[i].Answered? && ReplaysAs(planned[i], read, screen, hash, ends[i].completion)
      invariant assembled == Assembled(planned[..n], ends, attempt)
    {
      var q := planned[n];
      var outcome := SetAsideAll;
      if |q.requirements| != 0 {
        var answer := Replay(q, read, screen, hash, accepts);
        if answer.None? {
          assert q in planned;
          return planned, None, ends;
        }
        ReplayKeeps(q, read, screen, hash, accepts, answer.value);
        outcome := Answered(answer.value);
      }
      AssembledMore(planned[..n], ends, q, outcome, attempt);
      assert planned[..n + 1] == planned[..n] + [q];
      assembled := CompleteOne(q, outcome, attempt, assembled);
      ends := ends + [outcome];
      n := n + 1;
    }
    assert planned[..n] == planned;
    AssembledConserves(planned, ends, attempt);
    completion := Some(assembled);
  }

  lemma AssembledNone(attempt: nat)
    ensures Assembled([], [], attempt) == NOTHING.(allRequired := true)
  {
  }

  lemma AssembledMore(queries: seq<PlannedQuery>, outcomes: seq<Outcome>, q: PlannedQuery, outcome: Outcome, attempt: nat)
    requires |queries| == |outcomes|
    ensures var front := Assembled(queries, outcomes, attempt);
            Assembled(queries + [q], outcomes + [outcome], attempt) ==
            Completion(front.queries + [Physical(q, outcome, attempt)], front.bindings + BindingsOf(q, outcome, attempt), true)
    ensures Assembled(queries, outcomes, attempt).allRequired
  {
    hide Physical, BindingsOf;
    assert (queries + [q])[..|queries|] == queries && (outcomes + [outcome])[..|outcomes|] == outcomes;
  }
}
