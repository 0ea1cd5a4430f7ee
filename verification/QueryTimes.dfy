/** Who is planned and for when, in what order queries are sent, and who is given a series. */
module QueryTimes {
  import opened Bytes
  import opened QueryPlanning
  import opened SeriesDelivery

  // ---------- Planned or set aside ----------

  /** A consumer's data is ready while its query may still end in time to keep its reserve. */
  predicate InTime(facts: Facts, r: Requirement, c: Consumer) {
    facts.readyAt(Head(r), c).Some? && facts.readyAt(Head(r), c).value + c.reserve < c.deadline
  }

  predicate TooLate(facts: Facts, r: Requirement, c: Consumer) {
    facts.readyAt(Head(r), c).Some? && facts.readyAt(Head(r), c).value + c.reserve >= c.deadline
  }

  /** A query plans whom it can read in time, or anyone in a recovery, and sets aside exactly those it cannot. */
  lemma PlannedExactly(q: PlannedQuery, facts: Facts, recovery: bool, r: Requirement, c: Consumer)
    requires Sound(q, facts, recovery) && c in r.consumers
    ensures r in q.requirements && !recovery ==> InTime(facts, r, c)
    ensures r in q.readinessInvalid ==> !recovery && TooLate(facts, r, c)
    ensures r in q.requirements || r in q.readinessInvalid ==> facts.spec(Head(r)).Some? && facts.spec(Head(r)).value.digest == q.spec.digest
  {
    hide Times;
  }

  // ---------- When ----------

  predicate SomeTimes(facts: Facts, rs: seq<Requirement>) {
    forall r <- rs :: SomeTime(facts, r)
  }

  predicate SomeTime(facts: Facts, r: Requirement) {
    forall c <- r.consumers :: facts.readyAt(Head(r), c).Some? && facts.readyAt(Head(r), c).value > 0 && c.deadline > c.reserve
  }

  /** A query waits for the first of its consumers to be ready, and is due for the first that is due, its reserve kept back. */
  lemma {:induction false} TimesAre(facts: Facts, rs: seq<Requirement>)
    requires SomeTimes(facts, rs)
    ensures var (ready, due) := Times(facts, rs);
            && ready >= 0 && due >= 0
            && (forall r <- rs, c <- r.consumers :: NoLater(ready, facts.readyAt(Head(r), c)) && 0 < due <= c.deadline - c.reserve)
            && (ready > 0 ==> exists r <- rs, c <- r.consumers :: facts.readyAt(Head(r), c) == Some(ready))
            && (due > 0 ==> exists r <- rs, c <- r.consumers :: c.deadline - c.reserve == due)
  {
    hide EarliestReady, EarliestDeadline;
    if rs != [] {
      var n := |rs| - 1;
      var front, last := rs[..n], rs[n];
      assert forall r :: r in rs <==> r in front || r == last;
      assert SomeTimes(facts, front) && SomeTime(facts, last);
      TimesAre(facts, front);
      var (ready, due) := Times(facts, front);
      ReadyIs(facts, ready, last);
      DueIs(due, last.consumers);
    }
  }

  /** A time there is, and no later than another. */
  predicate NoLater(time: int, other: Option<int>) {
    other.Some? && 0 < time <= other.value
  }

  lemma {:induction false} ReadyIs(facts: Facts, sofar: int, r: Requirement)
    requires sofar >= 0 && forall c <- r.consumers :: facts.readyAt(Head(r), c).Some? && facts.readyAt(Head(r), c).value > 0
    ensures var e := EarliestReady(facts, sofar, r);
            && e >= 0 && (sofar > 0 ==> 0 < e <= sofar) && (forall c <- r.consumers :: NoLater(e, facts.readyAt(Head(r), c)))
            && (e == sofar || exists c <- r.consumers :: facts.readyAt(Head(r), c) == Some(e))
    decreases |r.consumers|
  {
    if r.consumers != [] {
      var last := |r.consumers| - 1;
      var front := r.(consumers := r.consumers[..last]);
      assert forall c :: c in r.consumers <==> c in front.consumers || c == r.consumers[last];
      assert Head(front) == Head(r);
      ReadyIs(facts, sofar, front);
    }
  }

  lemma {:induction false} DueIs(sofar: int, consumers: seq<Consumer>)
    requires sofar >= 0 && forall c <- consumers :: c.deadline > c.reserve
    ensures var e := EarliestDeadline(sofar, consumers);
            && e >= 0 && (sofar > 0 ==> 0 < e <= sofar) && (forall c <- consumers :: 0 < e <= c.deadline - c.reserve)
            && (e == sofar || exists c <- consumers :: c.deadline - c.reserve == e)
  {
    if consumers != [] {
      var front, last := consumers[..|consumers| - 1], consumers[|consumers| - 1];
      assert forall c :: c in consumers <==> c in front || c == last;
      DueIs(sofar, front);
    }
  }

  // ---------- In what order ----------

  /** Queries with a deadline come before those with none, earlier ones first, and those due together by digest. */
  lemma OrderedExactly(queries: seq<PlannedQuery>)
    ensures Ordered(queries) <==>
              forall i, j :: 0 <= i < j < |queries| ==>
                && (queries[j].deadline != 0 ==> queries[i].deadline != 0 && queries[i].deadline <= queries[j].deadline)
                && (queries[j].deadline != 0 && queries[i].deadline == queries[j].deadline ==> !Less(queries[j].spec.digest, queries[i].spec.digest))
  {
    hide Less;
  }

  // ---------- To whom ----------

  /** A consumer of the query whose plan takes the series. */
  predicate Takes(screen: Screen, b: Batch, q: PlannedQuery, r: Requirement, c: Consumer) {
    r in q.requirements && c in r.consumers && match screen
                                               case None => true
                                               case Some(answer) => answer(b, c.ref.plan).admit
  }

  lemma {:induction false} RequirementGives(screen: Screen, b: Batch, digest: Bytes, r: Requirement, p: Pair)
    ensures p in RequirementInputs(screen, b, digest, r) <==> exists c <- r.consumers :: Admitted(screen, b, c.ref.plan) && p == PairOf(digest, r, c)
    decreases |r.consumers|
  {
    hide Admitted;
    if r.consumers != [] {
      var last := |r.consumers| - 1;
      var front := r.(consumers := r.consumers[..last]);
      RequirementGives(screen, b, digest, front, p);
      assert forall c :: c in r.consumers <==> c in front.consumers || c == r.consumers[last];
      assert forall c :: PairOf(digest, front, c) == PairOf(digest, r, c);
    }
  }

  lemma {:induction false} AllGive(screen: Screen, b: Batch, digest: Bytes, rs: seq<Requirement>, p: Pair)
    ensures p in InputsOf(screen, b, digest, rs) <==>
              exists r <- rs, c <- r.consumers :: Admitted(screen, b, c.ref.plan) && p == PairOf(digest, r, c)
  {
    hide RequirementInputs, Admitted;
    if rs != [] {
      var n := |rs| - 1;
      AllGive(screen, b, digest, rs[..n], p);
      RequirementGives(screen, b, digest, rs[n], p);
      assert forall r :: r in rs <==> r in rs[..n] || r == rs[n];
    }
  }

  /** A series is given to exactly the planned consumers whose plan takes it, every one when there is no filter. */
  lemma GivenExactly(screen: Screen, b: Batch, q: PlannedQuery, p: Pair)
    ensures p in Inputs(screen, b, q) <==>
              exists r, c :: Takes(screen, b, q, r, c)
                             && p.digest == q.spec.digest && p.requirement == r.id && p.dataset == r.dataset && p.role == r.role && p.consumer == c.ref
  {
    hide InputsOf;
    AllGive(screen, b, q.spec.digest, q.requirements, p);
    if r, c :| r in q.requirements && c in r.consumers && Admitted(screen, b, c.ref.plan) && p == PairOf(q.spec.digest, r, c) {
      assert Takes(screen, b, q, r, c);
    }
    if r, c :| Takes(screen, b, q, r, c)
                && p.digest == q.spec.digest && p.requirement == r.id && p.dataset == r.dataset && p.role == r.role && p.consumer == c.ref {
      assert p == PairOf(q.spec.digest, r, c) && Admitted(screen, b, c.ref.plan);
    }
  }

  /** A series goes no further exactly when no consumer's plan takes it. */
  lemma WithheldExactly(screen: Screen, b: Batch, q: PlannedQuery)
    ensures Inputs(screen, b, q) == [] <==> forall r, c :: !Takes(screen, b, q, r, c)
  {
    hide Inputs;
    var inputs := Inputs(screen, b, q);
    if inputs != [] {
      GivenExactly(screen, b, q, inputs[0]);
      assert inputs[0] in inputs;
    }
    if r, c :| Takes(screen, b, q, r, c) {
      GivenExactly(screen, b, q, PairOf(q.spec.digest, r, c));
    }
  }

  /** A series counts as outside when there is someone to read it and every one of them refused it as outside its target. */
  lemma OutsideExactly(screen: Screen, b: Batch, q: PlannedQuery)
    ensures OutsideAll(screen, b, q) <==>
              && screen.Some? && (exists plan :: Reads(q, plan))
              && forall plan :: Reads(q, plan) ==> !screen.value(b, plan).admit && screen.value(b, plan).definitelyOutside
  {
    if OutsideAll(screen, b, q) {
      var r :| r in q.requirements && r.consumers != [];
      assert Reads(q, r.consumers[0].ref.plan);
    }
    if plan :| Reads(q, plan) {
      var r, c :| r in q.requirements && c in r.consumers && c.ref.plan == plan;
      assert r.consumers != [];
    }
    if screen.Some? && forall plan :: Reads(q, plan) ==> !screen.value(b, plan).admit && screen.value(b, plan).definitelyOutside {
      forall r, c | r in q.requirements && c in r.consumers ensures !screen.value(b, c.ref.plan).admit && screen.value(b, c.ref.plan).definitelyOutside {
        assert Reads(q, c.ref.plan);
      }
    }
  }

  /** Restating a completion changes its counts, and its data only when it had some and not all of it was forwarded. */
  lemma ReconciledKeeps(completion: ProviderCompletion, forwarded: Delivery, withheld: nat, withheldOutside: nat)
    ensures var restated := Reconciled(completion, forwarded, withheld, withheldOutside);
            && restated.withheld == withheld && restated.withheldOutside == withheldOutside
            && restated.ref == completion.ref && restated.query == completion.query && restated.completeness == completion.completeness
            && restated.route == completion.route
            && (withheld == 0 || completion.dataState != Data ==> restated.dataState == completion.dataState && restated.delivery == completion.delivery)
            && (withheld > 0 && completion.dataState == Data ==>
                  restated.delivery == (if forwarded.query == [] then NO_DELIVERY else forwarded)
                  && restated.dataState == if forwarded.query == [] then Empty else Data)
  {
  }
}
