/** What reaches the consumers of one physical query when a series may be outside every plan's target, and how its completion says so. */
module SeriesDelivery {
  import opened Bytes
  import opened QueryPlanning

  // ---------- Deliveries ----------

  type Sum32 = b: Bytes | |b| == 32 witness [0, 0, 0, 0, 0, 0, 0, 0, 0, 0, 0, 0, 0, 0, 0, 0, 0, 0, 0, 0, 0, 0, 0, 0, 0, 0, 0, 0, 0, 0, 0, 0]

  type Hash = Bytes -> Sum32

  const HEX_DIGITS := Ascii("0123456789abcdef")

  /** Two lowercase digits a byte. */
  function Hex(b: Bytes): (text: Bytes)
    ensures |text| == 2 * |b|
  {
    if b == [] then [] else [HEX_DIGITS[b[0] / 16], HEX_DIGITS[b[0] % 16]] + Hex(b[1..])
  }

  /** The proof of what was delivered: counts, and a digest chained over the series in order. */
  datatype Delivery = Delivery(query: Bytes, revision: Bytes, series: nat, records: nat, bytes: nat, digest: Bytes)

  const NO_DELIVERY := Delivery([], [], 0, 0, 0, [])

  const CHAIN_VERSION := Ascii("alarmd-series-delivery-v1") + [0]

  function Accumulate(hash: Hash, current: Delivery, next: Delivery): Option<Delivery> {
    if next.query == [] || next.revision == [] || next.series == 0 || next.digest == [] then None
    else if current.query == [] then Some(next)
    else if current.query != next.query || current.revision != next.revision || current.digest == [] then None
    else Some(Delivery(current.query, current.revision, current.series + next.series, current.records + next.records, current.bytes + next.bytes,
                       Hex(hash(CHAIN_VERSION + current.digest + [0] + next.digest))))
  }

  /** One series as the provider delivered it. */
  datatype Batch = Batch(query: Bytes, ref: Bytes, points: nat, delivery: Delivery, dimensions: map<Bytes, Bytes>)

  /** The proof of a whole stream, unless two of its deliveries do not belong together. */
  function Fold(hash: Hash, batches: seq<Batch>): Option<Delivery> {
    if batches == [] then Some(NO_DELIVERY)
    else
      match Fold(hash, batches[..|batches| - 1])
      case None => None
      case Some(sofar) => Accumulate(hash, sofar, batches[|batches| - 1].delivery)
  }

  lemma FoldSnoc(hash: Hash, batches: seq<Batch>, b: Batch)
    ensures Fold(hash, batches + [b]) ==
            match Fold(hash, batches)
            case None => None
            case Some(sofar) => Accumulate(hash, sofar, b.delivery)
  {
    assert (batches + [b])[..|batches|] == batches;
  }

  /** A proof names its query exactly when something was delivered. */
  lemma {:induction false} FoldNames(hash: Hash, batches: seq<Batch>)
    requires Fold(hash, batches).Some?
    ensures Fold(hash, batches).value.query == [] <==> batches == []
    ensures batches != [] ==> Fold(hash, batches).value.digest != []
  {
    if batches != [] {
      FoldNames(hash, batches[..|batches| - 1]);
    }
  }

  // ---------- Admission ----------

  /** A target's answer about a series: whether the plan takes it, and whether its refusal is the target's own verdict. */
  datatype Verdict = Verdict(admit: bool, definitelyOutside: bool)

  /** How each plan answers each series; none when no filter is installed. */
  type Screen = Option<(Batch, Bytes) -> Verdict>

  predicate Admitted(screen: Screen, b: Batch, plan: Bytes) {
    screen.None? || screen.value(b, plan).admit
  }

  /** The pairs of one requirement whose plans take a series. */
  function RequirementInputs(screen: Screen, b: Batch, digest: Bytes, r: Requirement): seq<Pair>
    decreases |r.consumers|
  {
    if r.consumers == [] then []
    else
      var last := |r.consumers| - 1;
      RequirementInputs(screen, b, digest, r.(consumers := r.consumers[..last]))
      + if Admitted(screen, b, r.consumers[last].ref.plan) then [PairOf(digest, r, r.consumers[last])] else []
  }

  function InputsOf(screen: Screen, b: Batch, digest: Bytes, rs: seq<Requirement>): seq<Pair> {
    if rs == [] then [] else InputsOf(screen, b, digest, rs[..|rs| - 1]) + RequirementInputs(screen, b, digest, rs[|rs| - 1])
  }

  /** What the consumers get of a series. */
  function Inputs(screen: Screen, b: Batch, q: PlannedQuery): seq<Pair> {
    InputsOf(screen, b, q.spec.digest, q.requirements)
  }

  /** Whether a plan of the query reads it. */
  predicate Reads(q: PlannedQuery, plan: Bytes) {
    exists r <- q.requirements, c <- r.consumers :: c.ref.plan == plan
  }

  /** Whether every plan refused a series as outside its target, on facts that were all there. */
  predicate OutsideAll(screen: Screen, b: Batch, q: PlannedQuery) {
    && screen.Some? && (exists r <- q.requirements :: r.consumers != [])
    && forall r <- q.requirements, c <- r.consumers ::
         !screen.value(b, c.ref.plan).admit && screen.value(b, c.ref.plan).definitelyOutside
  }

  /** The series some plan takes, in the order they came. */
  function Taken(screen: Screen, q: PlannedQuery, batches: seq<Batch>): (taken: seq<Batch>)
    ensures |taken| <= |batches|
  {
    if batches == [] then []
    else
      Taken(screen, q, batches[..|batches| - 1])
      + if Inputs(screen, batches[|batches| - 1], q) == [] then [] else [batches[|batches| - 1]]
  }

  function OutsideCount(screen: Screen, q: PlannedQuery, batches: seq<Batch>): nat {
    if batches == [] then 0
    else
      var b := batches[|batches| - 1];
      OutsideCount(screen, q, batches[..|batches| - 1]) + if Inputs(screen, b, q) == [] && OutsideAll(screen, b, q) then 1 else 0
  }

  lemma {:induction false} AllTaken(screen: Screen, q: PlannedQuery, batches: seq<Batch>)
    ensures |Taken(screen, q, batches)| == |batches| ==> Taken(screen, q, batches) == batches
  {
    hide Inputs;
    if batches != [] {
      AllTaken(screen, q, batches[..|batches| - 1]);
      assert batches == batches[..|batches| - 1] + [batches[|batches| - 1]];
    }
  }

  // ---------- Completions ----------

  datatype Completeness = Full | Partial | Unavailable

  datatype DataState = Data | Empty | Unknown

  /** A provider's account of a query; its route stands for all it says of how it was answered. */
  datatype ProviderCompletion = ProviderCompletion(
    ref: Bytes,
    query: Bytes,
    completeness: Completeness,
    dataState: DataState,
    delivery: Delivery,
    route: Bytes,
    withheld: nat,
    withheldOutside: nat)

  /** What the provider would have said had it returned these series and no others. */
  function ProviderFor(hash: Hash, base: ProviderCompletion, batches: seq<Batch>): ProviderCompletion
    requires Fold(hash, batches).Some?
  {
    base.(dataState := if batches == [] then Empty else Data, delivery := Fold(hash, batches).value)
  }

  /** One query's series on their way to its consumers. */
  class SeriesAdapter {
    const query: PlannedQuery
    const screen: Screen
    const hash: Hash
    var forwarded: Delivery
    var withheld: nat
    var withheldOutside: nat
    /** Every series that has come, and what its consumers were given. */
    ghost var seen: seq<Batch>
    ghost var given: seq<seq<Pair>>

    ghost predicate Valid()
      reads this
    {
      && Fold(hash, Taken(screen, query, seen)) == Some(forwarded)
      && withheld == |seen| - |Taken(screen, query, seen)|
      && withheldOutside == OutsideCount(screen, query, seen)
      && |given| == |seen| && forall i :: 0 <= i < |seen| ==> given[i] == Inputs(screen, seen[i], query)
    }

    constructor (query: PlannedQuery, screen: Screen, hash: Hash)
      ensures Valid() && seen == [] && this.query == query && this.screen == screen && this.hash == hash
    {
      this.query, this.screen, this.hash := query, screen, hash;
      forwarded, withheld, withheldOutside, seen, given := NO_DELIVERY, 0, 0, [], [];
    }

    /** Each plan's answer, given once, and whether every one of them refused the series as outside its target. */
    method AdmittedPlans(batch: Batch) returns (decisions: map<Bytes, bool>, outside: bool)
      requires screen.Some?
      ensures forall plan :: plan in decisions <==> Reads(query, plan)
      ensures forall plan :: plan in decisions ==> decisions[plan] == screen.value(batch, plan).admit
      ensures outside == OutsideAll(screen, batch, query)
    {
      decisions, outside := map[], true;
      var n := 0;
      while n < |query.requirements|
        invariant 0 <= n <= |query.requirements|
        invariant forall plan :: plan in decisions <==> ReadsIn(query.requirements[..n], plan)
        invariant forall plan :: plan in decisions ==> decisions[plan] == screen.value(batch, plan).admit
        invariant outside <==> forall plan :: plan in decisions ==> RefusedOutside(batch, plan)
      {
        var r := query.requirements[n];
        var i := 0;
        ghost var before := decisions;
        while i < |r.consumers|
          invariant 0 <= i <= |r.consumers|
          invariant forall plan :: plan in decisions <==> plan in before || PlanIn(r.consumers[..i], plan)
          invariant forall plan :: plan in decisions ==> decisions[plan] == screen.value(batch, plan).admit
          invariant outside <==> forall plan :: plan in decisions ==> RefusedOutside(batch, plan)
        {
          var plan := r.consumers[i].ref.plan;
          assert r.consumers[..i + 1] == r.consumers[..i] + [r.consumers[i]];
          i := i + 1;
          if plan in decisions {
            continue;
          }
          var verdict := screen.value(batch, plan);
          decisions := decisions[plan := verdict.admit];
          outside := outside && !verdict.admit && verdict.definitelyOutside;
          assert RefusedOutside(batch, plan) <==> !verdict.admit && verdict.definitelyOutside;
        }
        assert r.consumers[..i] == r.consumers;
        assert query.requirements[..n + 1] == query.requirements[..n] + [r];
        n := n + 1;
      }
      assert query.requirements[..n] == query.requirements;
      OutsideIs(batch, decisions, outside);
      outside := outside && |decisions| > 0;
    }

    /** The inputs of a series for the plans that take it. */
    method DataBindings(batch: Batch, decisions: map<Bytes, bool>) returns (bindings: seq<Pair>)
      requires forall plan :: Reads(query, plan) ==> (screen.Some? ==> plan in decisions && decisions[plan] == Admitted(screen, batch, plan))
      ensures bindings == Inputs(screen, batch, query)
    {
      hide RequirementInputs;
      bindings := [];
      var n := 0;
      assert query.requirements[..0] == [];
      while n < |query.requirements|
        invariant 0 <= n <= |query.requirements|
        invariant bindings == InputsOf(screen, batch, query.spec.digest, query.requirements[..n])
      {
        var r := query.requirements[n];
        assert r in query.requirements;
        assert forall c <- r.consumers :: Reads(query, c.ref.plan);
        var more := RequirementBindings(batch, decisions, r);
        assert query.requirements[..n + 1][..n] == query.requirements[..n];
        bindings := bindings + more;
        n := n + 1;
      }
      assert query.requirements[..n] == query.requirements;
    }

    method RequirementBindings(batch: Batch, decisions: map<Bytes, bool>, r: Requirement) returns (bindings: seq<Pair>)
      requires forall c <- r.consumers :: screen.Some? ==> c.ref.plan in decisions && decisions[c.ref.plan] == Admitted(screen, batch, c.ref.plan)
      ensures bindings == RequirementInputs(screen, batch, query.spec.digest, r)
    {
      bindings := [];
      var i := 0;
      assert r.consumers[..0] == [];
      while i < |r.consumers|
        invariant 0 <= i <= |r.consumers|
        invariant bindings == RequirementInputs(screen, batch, query.spec.digest, r.(consumers := r.consumers[..i]))
      {
        var c := r.consumers[i];
        assert c in r.consumers;
        assert r.consumers[..i + 1][..i] == r.consumers[..i];
        i := i + 1;
        if screen.Some? && !decisions[c.ref.plan] {
          continue;
        }
        bindings := bindings + [PairOf(query.spec.digest, r, c)];
      }
      assert r.(consumers := r.consumers[..i]) == r;
    }

    /**
     * Takes one series from the provider and gives it to the plans that take it. One that none takes goes
     * no further; a failure of the consumer, or of the proof, ends the query.
     */
    method ConsumeProviderSeries(batch: Batch, accepted: bool) returns (ok: bool)
      requires Valid()
      modifies this
      ensures ok ==> Valid() && seen == old(seen) + [batch]
      ensures ok <==>
                && batch.query == query.spec.digest && batch.ref != [] && batch.points > 0
                && (Inputs(screen, batch, query) != [] ==> accepted && Accumulate(hash, old(forwarded), batch.delivery).Some?)
    {
      hide Inputs, OutsideAll, Fold, Taken, OutsideCount, Accumulate;
      if batch.query != query.spec.digest || batch.ref == [] || batch.points == 0 {
        return false;
      }
      var decisions, outside := map[], false;
      if screen.Some? {
        decisions, outside := AdmittedPlans(batch);
      } else {
        NoScreenOutside(screen, batch, query);
      }
      var bindings := DataBindings(batch, decisions);
      TakenSnoc(screen, query, seen, batch);
      FoldSnoc(hash, Taken(screen, query, seen), batch);
      if |bindings| == 0 {
        withheld := withheld + 1;
        if outside {
          withheldOutside := withheldOutside + 1;
        }
      } else {
        if !accepted {
          return false;
        }
        var proof := Accumulate(hash, forwarded, batch.delivery);
        if proof.None? {
          return false;
        }
        forwarded := proof.value;
      }
      seen, given := seen + [batch], given + [bindings];
      ok := true;
    }

    /** The provider's completion restated for what was forwarded. */
    method ReconcileCompletion(completion: ProviderCompletion) returns (restated: ProviderCompletion)
      ensures restated == Reconciled(completion, forwarded, withheld, withheldOutside)
    {
      restated := completion.(withheld := withheld, withheldOutside := withheldOutside);
      if withheld == 0 || restated.dataState != Data {
        return;
      }
      if forwarded.query == [] {
        restated := restated.(dataState := Empty);
        restated := restated.(delivery := NO_DELIVERY);
        return;
      }
      restated := restated.(delivery := forwarded);
    }

    predicate RefusedOutside(batch: Batch, plan: Bytes)
      requires screen.Some?
    {
      !screen.value(batch, plan).admit && screen.value(batch, plan).definitelyOutside
    }

    lemma OutsideIs(batch: Batch, decisions: map<Bytes, bool>, outside: bool)
      requires screen.Some?
      requires forall plan :: plan in decisions <==> ReadsIn(query.requirements, plan)
      requires outside <==> forall plan :: plan in decisions ==> RefusedOutside(batch, plan)
      ensures OutsideAll(screen, batch, query) <==> outside && |decisions| > 0
      ensures forall plan :: ReadsIn(query.requirements, plan) <==> Reads(query, plan)
    {
      if exists r <- query.requirements :: r.consumers != [] {
        var r :| r in query.requirements && r.consumers != [];
        assert ReadsIn(query.requirements, r.consumers[0].ref.plan);
        assert r.consumers[0].ref.plan in decisions;
      }
      if |decisions| > 0 {
        var plan :| plan in decisions.Keys;
        assert ReadsIn(query.requirements, plan);
      }
      if outside {
        forall r <- query.requirements, c <- r.consumers ensures RefusedOutside(batch, c.ref.plan) {
          assert ReadsIn(query.requirements, c.ref.plan);
        }
      }
    }
  }

  predicate PlanIn(consumers: seq<Consumer>, plan: Bytes) {
    exists c <- consumers :: c.ref.plan == plan
  }

  predicate ReadsIn(rs: seq<Requirement>, plan: Bytes) {
    exists r <- rs :: PlanIn(r.consumers, plan)
  }

  lemma NoScreenOutside(screen: Screen, b: Batch, q: PlannedQuery)
    ensures screen.None? ==> !OutsideAll(screen, b, q)
  {
  }

  lemma TakenSnoc(screen: Screen, q: PlannedQuery, batches: seq<Batch>, b: Batch)
    ensures Taken(screen, q, batches + [b]) == (if Inputs(screen, b, q) == [] then Taken(screen, q, batches) else Taken(screen, q, batches) + [b])
    ensures OutsideCount(screen, q, batches + [b]) ==
            OutsideCount(screen, q, batches) + if Inputs(screen, b, q) == [] && OutsideAll(screen, b, q) then 1 else 0
  {
    hide Inputs, OutsideAll;
    assert (batches + [b])[..|batches|] == batches;
    assert Taken(screen, q, batches) + [] == Taken(screen, q, batches);
  }

  function Reconciled(completion: ProviderCompletion, forwarded: Delivery, withheld: nat, withheldOutside: nat): ProviderCompletion {
    var counted := completion.(withheld := withheld, withheldOutside := withheldOutside);
    if withheld == 0 || completion.dataState != Data then counted
    else if forwarded.query == [] then counted.(dataState := Empty, delivery := NO_DELIVERY)
    else counted.(delivery := forwarded)
  }

  /**
   * Whatever series came and whichever of them some plan took, the restated completion of a query that
   * returned them is the provider's own for the taken ones alone, with the rest counted; it is empty
   * exactly when none was taken.
   */
  lemma ReconciledIsProviders(screen: Screen, q: PlannedQuery, hash: Hash, base: ProviderCompletion, batches: seq<Batch>)
    requires Fold(hash, batches).Some?
    ensures Fold(hash, Taken(screen, q, batches)).Some?
    ensures var taken := Taken(screen, q, batches);
            var withheld, outside := |batches| - |taken|, OutsideCount(screen, q, batches);
            var restated := Reconciled(ProviderFor(hash, base, batches), Fold(hash, taken).value, withheld, outside);
            && restated == ProviderFor(hash, base, taken).(withheld := withheld, withheldOutside := outside)
            && (restated.dataState == Empty <==> taken == [])
  {
    hide Taken, Fold, OutsideCount;
    var taken := Taken(screen, q, batches);
    FoldsStill(screen, q, hash, batches);
    AllTaken(screen, q, batches);
    FoldNames(hash, taken);
    NothingFolds(hash);
  }

  lemma NothingFolds(hash: Hash)
    ensures Fold(hash, []) == Some(NO_DELIVERY)
  {
  }

  /** Series that fold together fold together still when some are left out. */
  lemma {:induction false} FoldsStill(screen: Screen, q: PlannedQuery, hash: Hash, batches: seq<Batch>)
    requires Fold(hash, batches).Some?
    ensures var taken := Taken(screen, q, batches);
            && Fold(hash, taken).Some?
            && (taken != [] ==> Fold(hash, taken).value.query == Fold(hash, batches).value.query
                                && Fold(hash, taken).value.revision == Fold(hash, batches).value.revision)
  {
    hide Inputs, Fold, Taken, Accumulate;
    NothingFolds(hash);
    NothingTaken(screen, q, batches);
    if batches != [] {
      var front, last := batches[..|batches| - 1], batches[|batches| - 1];
      assert batches == front + [last];
      FoldSnoc(hash, front, last);
      FoldsStill(screen, q, hash, front);
      var taken := Taken(screen, q, front);
      TakenSnoc(screen, q, front, last);
      FoldSnoc(hash, taken, last);
      FoldNames(hash, taken);
      FoldNames(hash, front);
      AccumulatesWhen(hash, Fold(hash, front).value, last.delivery);
      AccumulatesWhen(hash, Fold(hash, taken).value, last.delivery);
    }
  }

  /** A delivery joins a proof when it is whole and of the same query and revision as what came before, if anything did. */
  lemma AccumulatesWhen(hash: Hash, current: Delivery, next: Delivery)
    ensures Accumulate(hash, current, next).Some? <==>
              && next.query != [] && next.revision != [] && next.series != 0 && next.digest != []
              && (current.query != [] ==> current.query == next.query && current.revision == next.revision && current.digest != [])
    ensures Accumulate(hash, current, next).Some? ==>
              Accumulate(hash, current, next).value.query == next.query && Accumulate(hash, current, next).value.revision == next.revision
  {
    hide Hex;
  }

  lemma NothingTaken(screen: Screen, q: PlannedQuery, batches: seq<Batch>)
    ensures batches == [] ==> Taken(screen, q, batches) == []
  {
  }
}
