/** How a Slot's frozen requirements become physical queries: one query a digest, every consumer in exactly one of them. */
module QueryPlanning {
  import opened Bytes

  datatype Role = Primary | Dependency

  datatype ConsumerRef = ConsumerRef(plan: Bytes, level: Bytes)

  /** A plan's level that reads a requirement: when its result is due, and what it keeps back of that. Times are milliseconds. */
  datatype Consumer = Consumer(ref: ConsumerRef, deadline: int, reserve: int)

  datatype Requirement = Requirement(id: Bytes, dataset: Bytes, role: Role, consumers: seq<Consumer>)

  datatype Spec = Spec(digest: Bytes, revision: Bytes)

  datatype PlannedQuery = PlannedQuery(
    spec: Spec,
    requirements: seq<Requirement>,
    readinessInvalid: seq<Requirement>,
    readyAt: int,
    deadline: int)

  /** A requirement by itself, whoever reads it. */
  function Head(r: Requirement): Requirement {
    r.(consumers := [])
  }

  /**
   * What is known of a Slot: whether its contract, due plans and schedules are valid; of a requirement, the
   * physical query that answers it, whether its readiness class is one there is, and when each consumer
   * of it may read; and which plans make a header that is valid.
   */
  datatype Facts = Facts(
    valid: bool,
    spec: Requirement -> Option<Spec>,
    classed: Requirement -> bool,
    readyAt: (Requirement, Consumer) -> Option<int>,
    header: seq<PlannedQuery> -> bool)

  // ---------- Pairs ----------

  /** One requirement of one consumer, and the query that is to answer it. */
  datatype Pair = Pair(digest: Bytes, requirement: Bytes, dataset: Bytes, role: Role, consumer: ConsumerRef)

  function PairOf(digest: Bytes, r: Requirement, c: Consumer): Pair {
    Pair(digest, r.id, r.dataset, r.role, c.ref)
  }

  function PairsOf(digest: Bytes, r: Requirement): multiset<Pair>
    decreases |r.consumers|
  {
    if r.consumers == [] then multiset{}
    else
      var last := |r.consumers| - 1;
      PairsOf(digest, r.(consumers := r.consumers[..last])) + multiset{PairOf(digest, r, r.consumers[last])}
  }

  function PairsOfAll(digest: Bytes, rs: seq<Requirement>): multiset<Pair> {
    if rs == [] then multiset{} else PairsOfAll(digest, rs[..|rs| - 1]) + PairsOf(digest, rs[|rs| - 1])
  }

  function QueryPairs(q: PlannedQuery): multiset<Pair> {
    PairsOfAll(q.spec.digest, q.requirements) + PairsOfAll(q.spec.digest, q.readinessInvalid)
  }

  function AllPairs(queries: seq<PlannedQuery>): multiset<Pair> {
    if queries == [] then multiset{} else AllPairs(queries[..|queries| - 1]) + QueryPairs(queries[|queries| - 1])
  }

  /** Every pair of the frozen requirements, under the query its requirement is answered by. */
  function FrozenPairs(requirements: seq<Requirement>, facts: Facts): multiset<Pair>
    requires forall r <- requirements :: facts.spec(Head(r)).Some?
  {
    if requirements == [] then multiset{}
    else
      var last := requirements[|requirements| - 1];
      assert last in requirements;
      FrozenPairs(requirements[..|requirements| - 1], facts) + PairsOf(facts.spec(Head(last)).value.digest, last)
  }

  lemma PairsSnoc(digest: Bytes, rs: seq<Requirement>, r: Requirement)
    ensures PairsOfAll(digest, rs + [r]) == PairsOfAll(digest, rs) + PairsOf(digest, r)
  {
    assert (rs + [r])[..|rs|] == rs;
  }

  lemma ConsumerSnoc(digest: Bytes, r: Requirement, consumers: seq<Consumer>, c: Consumer)
    ensures PairsOf(digest, r.(consumers := consumers + [c])) == PairsOf(digest, r.(consumers := consumers)) + multiset{PairOf(digest, r, c)}
  {
    assert (consumers + [c])[..|consumers|] == consumers;
  }

  // ---------- Queries by digest ----------

  type Queries = map<Bytes, PlannedQuery>

  ghost function SumOver(queries: Queries, keys: set<Bytes>): multiset<Pair>
    requires keys <= queries.Keys
    decreases |keys|
  {
    if keys == {} then multiset{}
    else
      var k :| k in keys;
      QueryPairs(queries[k]) + SumOver(queries, keys - {k})
  }

  /** The sum is the same whichever query it starts with. */
  lemma {:induction false} SumAny(queries: Queries, keys: set<Bytes>, k: Bytes)
    requires keys <= queries.Keys && k in keys
    ensures SumOver(queries, keys) == QueryPairs(queries[k]) + SumOver(queries, keys - {k})
    decreases |keys|
  {
    hide QueryPairs;
    var l :| l in keys && SumOver(queries, keys) == QueryPairs(queries[l]) + SumOver(queries, keys - {l});
    if l != k {
      SumAny(queries, keys - {l}, k);
      SumAny(queries, keys - {k}, l);
      assert keys - {l} - {k} == keys - {k} - {l};
    }
  }

  lemma {:induction false} SumSame(a: Queries, b: Queries, keys: set<Bytes>)
    requires keys <= a.Keys && keys <= b.Keys && forall k :: k in keys ==> a[k] == b[k]
    ensures SumOver(a, keys) == SumOver(b, keys)
    decreases |keys|
  {
    hide QueryPairs;
    if keys != {} {
      var k :| k in keys;
      SumAny(a, keys, k);
      SumAny(b, keys, k);
      SumSame(a, b, keys - {k});
    }
  }

  /** What replacing one query by one with more pairs adds. */
  lemma SumPut(queries: Queries, k: Bytes, q: PlannedQuery, more: multiset<Pair>)
    requires QueryPairs(q) == (if k in queries then QueryPairs(queries[k]) else multiset{}) + more
    ensures SumOver(queries[k := q], queries[k := q].Keys) == SumOver(queries, queries.Keys) + more
  {
    hide QueryPairs, SumOver;
    var after := queries[k := q];
    SumAny(after, after.Keys, k);
    if k in queries {
      SumAny(queries, queries.Keys, k);
      assert after.Keys == queries.Keys;
      SumSame(after, queries, queries.Keys - {k});
    } else {
      assert after.Keys - {k} == queries.Keys;
      SumSame(after, queries, queries.Keys);
    }
  }

  lemma NoPairs(queries: Queries)
    requires queries == map[]
    ensures SumOver(queries, queries.Keys) == multiset{}
  {
  }

  // ---------- Which consumers a query waits for ----------

  /** The last moment the consumer's query may end. */
  function Candidate(c: Consumer): int {
    c.deadline - c.reserve
  }

  /** Whether a consumer is planned: its data is ready before its query must end, or a recovery asks for it. */
  predicate Plannable(facts: Facts, r: Requirement, c: Consumer, recovery: bool) {
    facts.readyAt(Head(r), c).Some? && (recovery || Candidate(c) > facts.readyAt(Head(r), c).value)
  }

  predicate SetAside(facts: Facts, r: Requirement, c: Consumer, recovery: bool) {
    facts.readyAt(Head(r), c).Some? && !recovery && Candidate(c) <= facts.readyAt(Head(r), c).value
  }

  predicate AllPlannable(facts: Facts, r: Requirement, recovery: bool) {
    forall c <- r.consumers :: Plannable(facts, r, c, recovery)
  }

  predicate AllSetAside(facts: Facts, r: Requirement, recovery: bool) {
    forall c <- r.consumers :: SetAside(facts, r, c, recovery)
  }

  /** Keeps the earlier of two times, zero being none yet. */
  function Earlier(sofar: int, time: int): int {
    if sofar == 0 || time < sofar then time else sofar
  }

  /** The earliest ready time of a requirement's consumers, after what came before. */
  function EarliestReady(facts: Facts, sofar: int, r: Requirement): int
    decreases |r.consumers|
  {
    if r.consumers == [] then sofar
    else
      var last := |r.consumers| - 1;
      var before := EarliestReady(facts, sofar, r.(consumers := r.consumers[..last]));
      var time := facts.readyAt(Head(r), r.consumers[last]);
      if time.None? then before else Earlier(before, time.value)
  }

  function EarliestDeadline(sofar: int, consumers: seq<Consumer>): int {
    if consumers == [] then sofar
    else Earlier(EarliestDeadline(sofar, consumers[..|consumers| - 1]), Candidate(consumers[|consumers| - 1]))
  }

  /** The earliest ready time and deadline of all the consumers a query has planned. */
  function Times(facts: Facts, rs: seq<Requirement>): (int, int) {
    if rs == [] then (0, 0)
    else
      var (ready, deadline) := Times(facts, rs[..|rs| - 1]);
      (EarliestReady(facts, ready, rs[|rs| - 1]), EarliestDeadline(deadline, rs[|rs| - 1].consumers))
  }

  predicate Answers(facts: Facts, r: Requirement, digest: Bytes) {
    facts.spec(Head(r)).Some? && facts.spec(Head(r)).value.digest == digest && r.consumers != []
  }

  /** Whether a query answers what it holds, plans whom it may, and waits for the earliest of them. */
  predicate Sound(q: PlannedQuery, facts: Facts, recovery: bool) {
    && (forall r <- q.requirements :: Answers(facts, r, q.spec.digest) && AllPlannable(facts, r, recovery))
    && (forall r <- q.readinessInvalid :: Answers(facts, r, q.spec.digest) && AllSetAside(facts, r, recovery))
    && (q.readyAt, q.deadline) == Times(facts, q.requirements)
  }

  lemma TimesSnoc(facts: Facts, rs: seq<Requirement>, r: Requirement)
    ensures Times(facts, rs + [r]) == (EarliestReady(facts, Times(facts, rs).0, r), EarliestDeadline(Times(facts, rs).1, r.consumers))
  {
    assert (rs + [r])[..|rs|] == rs;
  }

  lemma ReadySnoc(facts: Facts, sofar: int, r: Requirement, consumers: seq<Consumer>, c: Consumer)
    requires facts.readyAt(Head(r), c).Some?
    ensures EarliestReady(facts, sofar, r.(consumers := consumers + [c])) ==
            Earlier(EarliestReady(facts, sofar, r.(consumers := consumers)), facts.readyAt(Head(r), c).value)
    ensures EarliestDeadline(sofar, consumers + [c]) == Earlier(EarliestDeadline(sofar, consumers), Candidate(c))
  {
    assert (consumers + [c])[..|consumers|] == consumers;
  }

  /** With no time at zero, the earliest is one no consumer's is before. */
  lemma {:induction false} EarliestIsLeast(facts: Facts, r: Requirement, sofar: int)
    requires sofar >= 0 && forall c <- r.consumers :: facts.readyAt(Head(r), c).Some? && facts.readyAt(Head(r), c).value > 0
    ensures var e := EarliestReady(facts, sofar, r);
            && e >= 0 && (e == 0 ==> r.consumers == [] && sofar == 0) && (sofar > 0 ==> e <= sofar)
            && forall c <- r.consumers :: e <= facts.readyAt(Head(r), c).value
    decreases |r.consumers|
  {
    if r.consumers != [] {
      var last := |r.consumers| - 1;
      assert r.consumers == r.consumers[..last] + [r.consumers[last]];
      assert forall c <- r.consumers[..last] :: c in r.consumers;
      assert r.consumers[last] in r.consumers;
      EarliestIsLeast(facts, r.(consumers := r.consumers[..last]), sofar);
    }
  }

  // ---------- Splitting a requirement ----------

  /** A requirement's consumers, those planned apart from those set aside, and the query's times with theirs. */
  method SplitConsumers(facts: Facts, r: Requirement, recovery: bool, digest: Bytes, ready: int, deadline: int)
    returns (valid: seq<Consumer>, invalid: seq<Consumer>, earliest: int, last: int, ok: bool)
    ensures ok <==> forall c <- r.consumers :: facts.readyAt(Head(r), c).Some?
    ensures ok ==> PairsOf(digest, r.(consumers := valid)) + PairsOf(digest, r.(consumers := invalid)) == PairsOf(digest, r)
    ensures ok ==> AllPlannable(facts, r.(consumers := valid), recovery) && AllSetAside(facts, r.(consumers := invalid), recovery)
    ensures ok ==> earliest == EarliestReady(facts, ready, r.(consumers := valid)) && last == EarliestDeadline(deadline, valid)
    ensures ok && recovery ==> invalid == []
  {
    hide PairsOf, EarliestReady, EarliestDeadline;
    valid, invalid, earliest, last := [], [], ready, deadline;
    NoConsumers(facts, digest, r, ready, deadline);
    var n := 0;
    assert r.consumers[..0] == [];
    while n < |r.consumers|
      invariant 0 <= n <= |r.consumers|
      invariant forall i :: 0 <= i < n ==> facts.readyAt(Head(r), r.consumers[i]).Some?
      invariant PairsOf(digest, r.(consumers := valid)) + PairsOf(digest, r.(consumers := invalid)) == PairsOf(digest, r.(consumers := r.consumers[..n]))
      invariant forall c <- valid :: Plannable(facts, r, c, recovery)
      invariant forall c <- invalid :: SetAside(facts, r, c, recovery)
      invariant earliest == EarliestReady(facts, ready, r.(consumers := valid)) && last == EarliestDeadline(deadline, valid)
      invariant recovery ==> invalid == []
    {
      var c := r.consumers[n];
      var readyAt := facts.readyAt(Head(r), c);
      if readyAt.None? {
        assert c in r.consumers;
        return [], [], 0, 0, false;
      }
      assert r.consumers[..n + 1] == r.consumers[..n] + [c];
      ConsumerSnoc(digest, r, r.consumers[..n], c);
      n := n + 1;
      var candidate := c.deadline - c.reserve;
      if candidate <= readyAt.value && !recovery {
        ConsumerSnoc(digest, r, invalid, c);
        invalid := invalid + [c];
        continue;
      }
      ConsumerSnoc(digest, r, valid, c);
      ReadySnoc(facts, ready, r, valid, c);
      ReadySnoc(facts, deadline, r, valid, c);
      valid := valid + [c];
      if earliest == 0 || readyAt.value < earliest {
        earliest := readyAt.value;
      }
      if last == 0 || candidate < last {
        last := candidate;
      }
    }
    assert r.consumers[..n] == r.consumers;
    assert r.(consumers := r.consumers) == r;
    ok := true;
  }

  lemma NoConsumers(facts: Facts, digest: Bytes, r: Requirement, ready: int, deadline: int)
    ensures PairsOf(digest, r.(consumers := [])) == multiset{}
    ensures EarliestReady(facts, ready, r.(consumers := [])) == ready && EarliestDeadline(deadline, []) == deadline
  {
  }

  // ---------- Ordering ----------

  /** Queries with a deadline first, by deadline and then by digest; those with none are not ordered among themselves. */
  predicate Before(a: PlannedQuery, b: PlannedQuery) {
    if a.deadline == 0 || b.deadline == 0 then b.deadline == 0 && a.deadline != 0
    else if a.deadline == b.deadline then Less(a.spec.digest, b.spec.digest)
    else a.deadline < b.deadline
  }

  lemma BeforeTransitive(a: PlannedQuery, b: PlannedQuery, c: PlannedQuery)
    requires !Before(b, a) && !Before(c, b)
    ensures !Before(c, a)
  {
    LessTotal(a.spec.digest, b.spec.digest);
    LessTotal(b.spec.digest, c.spec.digest);
    LessTotal(a.spec.digest, c.spec.digest);
    if Less(a.spec.digest, b.spec.digest) && Less(b.spec.digest, c.spec.digest) {
      LessTransitive(a.spec.digest, b.spec.digest, c.spec.digest);
    }
  }

  lemma BeforeAsymmetric(a: PlannedQuery, b: PlannedQuery)
    ensures !(Before(a, b) && Before(b, a)) && !Before(a, a)
  {
    LessTotal(a.spec.digest, b.spec.digest);
    LessTotal(a.spec.digest, a.spec.digest);
  }

  predicate Ordered(queries: seq<PlannedQuery>) {
    forall i, j :: 0 <= i < j < |queries| ==> !Before(queries[j], queries[i])
  }

  predicate DistinctDigests(queries: seq<PlannedQuery>) {
    forall i, j :: 0 <= i < j < |queries| ==> queries[i].spec.digest != queries[j].spec.digest
  }

  lemma AllSnoc(queries: seq<PlannedQuery>, q: PlannedQuery)
    ensures AllPairs(queries + [q]) == AllPairs(queries) + QueryPairs(q)
  {
    assert (queries + [q])[..|queries|] == queries;
  }

  lemma {:induction false} AllInsert(front: seq<PlannedQuery>, q: PlannedQuery, rest: seq<PlannedQuery>)
    ensures AllPairs(front + [q] + rest) == AllPairs(front + rest) + QueryPairs(q)
  {
    hide QueryPairs;
    if rest == [] {
      assert front + [q] + rest == front + [q] && front + rest == front;
      AllSnoc(front, q);
    } else {
      var less, last := rest[..|rest| - 1], rest[|rest| - 1];
      assert rest == less + [last];
      AllInsert(front, q, less);
      assert front + [q] + rest == (front + [q] + less) + [last];
      assert front + rest == (front + less) + [last];
      AllSnoc(front + [q] + less, last);
      AllSnoc(front + less, last);
    }
  }

  /** Puts a query in its place among ordered ones. */
  method Place(ordered: seq<PlannedQuery>, q: PlannedQuery) returns (more: seq<PlannedQuery>)
    requires Ordered(ordered) && DistinctDigests(ordered) && forall o <- ordered :: o.spec.digest != q.spec.digest
    ensures Ordered(more) && DistinctDigests(more)
    ensures AllPairs(more) == AllPairs(ordered) + QueryPairs(q)
    ensures forall o :: o in more <==> o == q || o in ordered
  {
    hide Before, QueryPairs, Ordered, DistinctDigests;
    var at := |ordered|;
    while at > 0 && Before(q, ordered[at - 1])
      invariant 0 <= at <= |ordered|
      invariant forall i :: at <= i < |ordered| ==> Before(q, ordered[i])
    {
      at := at - 1;
    }
    more := ordered[..at] + [q] + ordered[at..];
    AllInsert(ordered[..at], q, ordered[at..]);
    assert ordered[..at] + ordered[at..] == ordered;
    PlacedOrdered(ordered, q, at);
    PlacedDistinct(ordered, q, at);
    forall o ensures o in more <==> o == q || o in ordered {
      assert o in ordered <==> o in ordered[..at] || o in ordered[at..];
    }
  }

  lemma PlacedOrdered(ordered: seq<PlannedQuery>, q: PlannedQuery, at: nat)
    requires Ordered(ordered) && at <= |ordered|
    requires forall i :: at <= i < |ordered| ==> Before(q, ordered[i])
    requires at > 0 ==> !Before(q, ordered[at - 1])
    ensures Ordered(ordered[..at] + [q] + ordered[at..])
  {
    hide Before;
    forall i | 0 <= i < at ensures !Before(q, ordered[i]) {
      if i < at - 1 {
        BeforeTransitive(ordered[i], ordered[at - 1], q);
      }
    }
    forall i | at <= i < |ordered| ensures !Before(ordered[i], q) {
      BeforeAsymmetric(q, ordered[i]);
    }
  }

  lemma PlacedDistinct(ordered: seq<PlannedQuery>, q: PlannedQuery, at: nat)
    requires DistinctDigests(ordered) && at <= |ordered| && forall o <- ordered :: o.spec.digest != q.spec.digest
    ensures DistinctDigests(ordered[..at] + [q] + ordered[at..])
  {
    assert forall i :: 0 <= i < |ordered| ==> ordered[i] in ordered;
  }

  // ---------- Planning ----------

  /** One requirement's part in the queries so far. */
  method PlanRequirement(facts: Facts, r: Requirement, recovery: bool, queries: Queries) returns (more: Queries, ok: bool)
    requires forall k :: k in queries ==> queries[k].spec.digest == k && Sound(queries[k], facts, recovery)
    requires recovery ==> forall k :: k in queries ==> queries[k].readinessInvalid == []
    ensures ok <==> Known(facts, r)
    ensures ok ==> forall k :: k in more ==> more[k].spec.digest == k && Sound(more[k], facts, recovery)
    ensures ok ==> SumOver(more, more.Keys) == SumOver(queries, queries.Keys) + PairsOf(facts.spec(Head(r)).value.digest, r)
    ensures ok && recovery ==> forall k :: k in more ==> more[k].readinessInvalid == []
  {
    hide SumOver, PairsOf, Sound, QueryPairs, EarliestReady, EarliestDeadline, AllPlannable, AllSetAside;
    var spec := facts.spec(Head(r));
    if spec.None? || !facts.classed(Head(r)) {
      return queries, false;
    }
    var digest := spec.value.digest;
    var planned := if digest in queries then queries[digest] else PlannedQuery(spec.value, [], [], 0, 0);
    NothingPlanned(facts, spec.value, recovery);
    var valid, invalid, ready, deadline, split := SplitConsumers(facts, r, recovery, digest, planned.readyAt, planned.deadline);
    if !split {
      return queries, false;
    }
    var added := AddParts(facts, r, recovery, planned, valid, invalid, ready, deadline);
    SumPut(queries, digest, added, PairsOf(digest, r));
    more, ok := queries[digest := added], true;
  }

  /** A query with one more requirement's planned consumers and those set aside. */
  method AddParts(facts: Facts, r: Requirement, recovery: bool, planned: PlannedQuery, valid: seq<Consumer>, invalid: seq<Consumer>, ready: int, deadline: int)
    returns (added: PlannedQuery)
    requires Sound(planned, facts, recovery) && facts.spec(Head(r)).Some? && facts.spec(Head(r)).value.digest == planned.spec.digest
    requires AllPlannable(facts, r.(consumers := valid), recovery) && AllSetAside(facts, r.(consumers := invalid), recovery)
    requires ready == EarliestReady(facts, planned.readyAt, r.(consumers := valid)) && deadline == EarliestDeadline(planned.deadline, valid)
    ensures Sound(added, facts, recovery) && added.spec == planned.spec
    ensures QueryPairs(added) ==
            QueryPairs(planned) + (PairsOf(planned.spec.digest, r.(consumers := valid)) + PairsOf(planned.spec.digest, r.(consumers := invalid)))
    ensures invalid == [] ==> added.readinessInvalid == planned.readinessInvalid
  {
    hide PairsOf, EarliestReady, EarliestDeadline, AllPlannable, AllSetAside, PairsOfAll, Times;
    var digest := planned.spec.digest;
    var validRequirement, invalidRequirement := r.(consumers := valid), r.(consumers := invalid);
    NoConsumers(facts, digest, r, planned.readyAt, planned.deadline);
    PairsSnoc(digest, planned.requirements, validRequirement);
    TimesSnoc(facts, planned.requirements, validRequirement);
    PairsSnoc(digest, planned.readinessInvalid, invalidRequirement);
    added := planned.(readyAt := ready, deadline := deadline);
    if |valid| != 0 {
      added := added.(requirements := planned.requirements + [validRequirement]);
    }
    if |invalid| != 0 {
      added := added.(readinessInvalid := planned.readinessInvalid + [invalidRequirement]);
    }
  }

  lemma NothingPlanned(facts: Facts, spec: Spec, recovery: bool)
    ensures Sound(PlannedQuery(spec, [], [], 0, 0), facts, recovery) && QueryPairs(PlannedQuery(spec, [], [], 0, 0)) == multiset{}
  {
  }

  /**
   * The queries of a Slot, in the order they are to be sent: each digest once, and every frozen pair of
   * a requirement and a consumer in the query of its digest exactly once, planned or set aside. A
   * recovery sets nobody aside.
   */
  method Prepare(facts: Facts, requirements: seq<Requirement>, recovery: bool) returns (planned: seq<PlannedQuery>, ok: bool)
    ensures ok <==> CanPlan(facts, requirements) && facts.header(planned)
    ensures CanPlan(facts, requirements) ==>
              && AllPairs(planned) == FrozenPairs(requirements, facts)
              && DistinctDigests(planned) && Ordered(planned)
              && forall q <- planned :: Sound(q, facts, recovery) && (recovery ==> q.readinessInvalid == [])
  {
    hide SumOver, PairsOf, Sound, Ordered, DistinctDigests;
    if !facts.valid || |requirements| == 0 {
      return [], false;
    }
    var queries: Queries := map[];
    NoPairs(queries);
    var n := 0;
    assert requirements[..0] == [];
    while n < |requirements|
      invariant 0 <= n <= |requirements|
      invariant forall i :: 0 <= i < n ==> Known(facts, requirements[i])
      invariant forall k :: k in queries ==> queries[k].spec.digest == k && Sound(queries[k], facts, recovery)
      invariant recovery ==> forall k :: k in queries ==> queries[k].readinessInvalid == []
      invariant SumOver(queries, queries.Keys) == FrozenPairs(requirements[..n], facts)
    {
      var r := requirements[n];
      assert r in requirements;
      var more, known := PlanRequirement(facts, r, recovery, queries);
      if !known {
        return [], false;
      }
      assert requirements[..n + 1][..n] == requirements[..n];
      queries := more;
      n := n + 1;
    }
    assert requirements[..n] == requirements;
    forall r <- requirements ensures Known(facts, r) {
      var i :| 0 <= i < n && requirements[i] == r;
    }
    planned := OrderAll(queries);
    ok := facts.header(planned);
  }

  predicate Known(facts: Facts, r: Requirement) {
    facts.spec(Head(r)).Some? && facts.classed(Head(r)) && forall c <- r.consumers :: facts.readyAt(Head(r), c).Some?
  }

  /** There is something valid to plan, every requirement has its query and class, and every consumer its readiness. */
  predicate CanPlan(facts: Facts, requirements: seq<Requirement>) {
    facts.valid && requirements != [] && forall r <- requirements :: Known(facts, r)
  }

  /** The queries of a map, in whatever order it gives them, put in the order they are to be sent. */
  method OrderAll(queries: Queries) returns (ordered: seq<PlannedQuery>)
    requires forall k :: k in queries ==> queries[k].spec.digest == k
    ensures Ordered(ordered) && DistinctDigests(ordered)
    ensures AllPairs(ordered) == SumOver(queries, queries.Keys)
    ensures forall q :: q in ordered <==> exists k :: k in queries && queries[k] == q
  {
    hide SumOver, QueryPairs, Before;
    ordered := [];
    var rest := queries.Keys;
    NoneLeft(queries);
    while rest != {}
      invariant rest <= queries.Keys
      invariant Ordered(ordered) && DistinctDigests(ordered)
      invariant forall q :: q in ordered <==> exists k :: k in queries.Keys - rest && queries[k] == q
      invariant AllPairs(ordered) + SumOver(queries, rest) == SumOver(queries, queries.Keys)
      decreases |rest|
    {
      var k :| k in rest;
      SumAny(queries, rest, k);
      var q := queries[k];
      ordered := Place(ordered, q);
      rest := rest - {k};
      forall o ensures o in ordered <==> exists l :: l in queries.Keys - rest && queries[l] == o {
        assert k in queries.Keys - rest;
      }
    }
  }

  lemma NoneLeft(queries: Queries)
    ensures SumOver(queries, {}) == multiset{}
  {
  }
}
