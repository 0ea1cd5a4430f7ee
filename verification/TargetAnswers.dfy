/** What a target's conditions ask of a record's own facts, and what each refusal is called. */
module TargetAnswers {
  import opened Bytes
  import opened TargetScope
  import HostIndex

  // ---------- Object identities ----------

  /** A dimension of the record that says something. */
  predicate Says(facts: Facts, name: Bytes) {
    name in facts.dimensions && facts.dimensions[name] != []
  }

  /** A pair of dimensions that gives a record this key: its model, a bar, its instance. */
  predicate Gives(facts: Facts, pair: (Bytes, Bytes), key: Bytes) {
    Says(facts, pair.0) && Says(facts, pair.1) && key == facts.dimensions[pair.0] + [0x7C] + facts.dimensions[pair.1]
  }

  /** The record's keys are those that some pair of the condition gives it. */
  lemma {:induction false} ObjectKeysExactly(facts: Facts, pairs: seq<(Bytes, Bytes)>, key: Bytes)
    ensures key in ObjectIdentityKeys(facts, pairs) <==> exists pair <- pairs :: Gives(facts, pair, key)
  {
    hide Gives;
    if pairs != [] {
      var front, last := pairs[..|pairs| - 1], pairs[|pairs| - 1];
      ObjectKeysExactly(facts, front, key);
      LastKey(facts, pairs, key);
      assert forall pair :: pair in pairs <==> pair in front || pair == last;
    }
  }

  lemma LastKey(facts: Facts, pairs: seq<(Bytes, Bytes)>, key: Bytes)
    requires pairs != []
    ensures var before := ObjectIdentityKeys(facts, pairs[..|pairs| - 1]);
            key in ObjectIdentityKeys(facts, pairs) <==> key in before || Gives(facts, pairs[|pairs| - 1], key)
  {
    var (modelField, instanceField) := pairs[|pairs| - 1];
    assert Ascii("|") == [0x7C];
    var before := ObjectIdentityKeys(facts, pairs[..|pairs| - 1]);
    var own := DimensionText(facts, modelField) + Ascii("|") + DimensionText(facts, instanceField);
    assert ObjectIdentityKeys(facts, pairs) == before || ObjectIdentityKeys(facts, pairs) == before + [own];
  }

  predicate Apart(keys: seq<Bytes>) {
    forall i, j :: 0 <= i < j < |keys| ==> keys[i] != keys[j]
  }

  /** And none of them is there twice. */
  lemma {:induction false} ObjectKeysDistinct(facts: Facts, pairs: seq<(Bytes, Bytes)>)
    ensures Apart(ObjectIdentityKeys(facts, pairs))
  {
    if pairs != [] {
      var (modelField, instanceField) := pairs[|pairs| - 1];
      var before := ObjectIdentityKeys(facts, pairs[..|pairs| - 1]);
      var own := DimensionText(facts, modelField) + Ascii("|") + DimensionText(facts, instanceField);
      ObjectKeysDistinct(facts, pairs[..|pairs| - 1]);
      var keys := ObjectIdentityKeys(facts, pairs);
      assert Apart(before);
      assert keys == before || (own !in before && keys == before + [own]);
      forall i, j | 0 <= i < j < |keys| ensures keys[i] != keys[j] {
        assert keys[i] == before[i] && before[i] in before;
        if j < |before| {
          assert keys[j] == before[j] && before[i] != before[j];
        } else {
          assert keys[j] == own;
        }
      }
    }
  }

  predicate HasObject(facts: Facts, c: Condition) {
    exists pair <- c.identityFields :: Says(facts, pair.0) && Says(facts, pair.1)
  }

  predicate NamesObject(facts: Facts, c: Condition, keys: set<Bytes>) {
    exists pair <- c.identityFields, key <- keys :: Gives(facts, pair, key)
  }

  lemma ObjectHits(facts: Facts, c: Condition, keys: set<Bytes>)
    ensures ObjectIdentityKeys(facts, c.identityFields) == [] <==> !HasObject(facts, c)
    ensures Hits(ObjectIdentityKeys(facts, c.identityFields), keys) <==> NamesObject(facts, c, keys)
  {
    hide ObjectIdentityKeys;
    var candidates := ObjectIdentityKeys(facts, c.identityFields);
    if candidates != [] {
      ObjectKeysExactly(facts, c.identityFields, candidates[0]);
    }
    if pair :| pair in c.identityFields && Says(facts, pair.0) && Says(facts, pair.1) {
      ObjectKeysExactly(facts, c.identityFields, facts.dimensions[pair.0] + [0x7C] + facts.dimensions[pair.1]);
    }
    forall key ensures key in candidates <==> exists pair <- c.identityFields :: Gives(facts, pair, key) {
      ObjectKeysExactly(facts, c.identityFields, key);
    }
  }

  // ---------- The plain target, field by field ----------

  function Values(facts: Facts, attribute: Attribute): seq<Bytes> {
    if attribute in facts.attributes then facts.attributes[attribute] else []
  }

  predicate AnyIn(values: seq<Bytes>, keys: set<Bytes>) {
    exists value <- values :: value in keys
  }

  /** A condition asks whether the record is among its keys, or that it is not. */
  predicate Asks(among: bool, sense: Method) {
    if sense == Exclude then !among else among
  }

  predicate InGroups(hosts: seq<Bytes>, c: Condition, filling: Filling) {
    exists host <- hosts, id <- c.groupIds :: host in filling(id)
  }

  /**
   * What each field asks: a host, a service instance and a dynamic group are passed over by a record that
   * has none, a topology node and an object are not, and a field no one knows holds of nothing.
   */
  lemma FieldsAsk(c: Condition, facts: Facts, filling: Filling)
    ensures ConditionHolds(c, facts, filling) <==>
            match c.field
            case Host => Values(facts, HostIdentity) == [] || Asks(AnyIn(Values(facts, HostIdentity), c.keys), c.sense)
            case DynamicGroup => Values(facts, HostIdentity) == [] || Asks(InGroups(Values(facts, HostIdentity), c, filling), c.sense)
            case ServiceInstance => Values(facts, ServiceInstanceID) == [] || Asks(AnyIn(Values(facts, ServiceInstanceID), c.keys), c.sense)
            case TopoNode => Values(facts, HostTopoNode) != [] && Asks(AnyIn(Values(facts, HostTopoNode), c.keys), c.sense)
            case ObjectModelInst => HasObject(facts, c) && Asks(NamesObject(facts, c, c.keys), c.sense)
            case OtherField(_) => false
  {
    hide ObjectIdentityKeys, HasObject, NamesObject;
    if c.field == ObjectModelInst {
      ObjectHits(facts, c, c.keys);
    }
    if c.field == DynamicGroup {
      GroupKeys(Values(facts, HostIdentity), c, filling);
    }
  }

  lemma GroupKeys(hosts: seq<Bytes>, c: Condition, filling: Filling)
    requires c.field == DynamicGroup
    ensures Hits(hosts, KeysUnder(c, filling)) <==> InGroups(hosts, c, filling)
  {
    if Hits(hosts, KeysUnder(c, filling)) {
      var host :| host in hosts && host in KeysUnder(c, filling);
      var id :| id in c.groupIds && host in filling(id);
      assert InGroups(hosts, c, filling);
    }
    if host, id :| host in hosts && id in c.groupIds && host in filling(id) {
      assert host in KeysUnder(c, filling);
    }
  }

  /** The target of one object: the model and instance dimensions it reads, and the pair it names. */
  function OneObject(modelField: Bytes, instanceField: Bytes, model: Bytes, inst: Bytes): Scope {
    [[Condition(ObjectModelInst, Include, {model + [0x7C] + inst}, [(modelField, instanceField)], [], false)]]
  }

  /** A target that names one object admits exactly the records whose own model and instance are that object's, for models with no bar in them. */
  lemma OneObjectAdmits(modelField: Bytes, instanceField: Bytes, model: Bytes, inst: Bytes, facts: Facts)
    requires model != [] && inst != [] && 0x7C !in model && !facts.hostFactsUnavailable
    requires modelField in facts.dimensions ==> 0x7C !in facts.dimensions[modelField]
    ensures Admission(Some(OneObject(modelField, instanceField, model, inst)), Some(facts)).admit <==>
              && modelField in facts.dimensions && facts.dimensions[modelField] == model
              && instanceField in facts.dimensions && facts.dimensions[instanceField] == inst
  {
    hide ObjectIdentityKeys, VerdictOf;
    var scope := OneObject(modelField, instanceField, model, inst);
    var c := scope[0][0];
    var key := model + [0x7C] + inst;
    OneConditionAnswers(c, facts);
    FieldsAsk(c, facts, _ => {});
    assert c.identityFields[0] in c.identityFields;
    if Says(facts, modelField) && Says(facts, instanceField) {
      var m, i := facts.dimensions[modelField], facts.dimensions[instanceField];
      if m + [0x7C] + i == key {
        HostIndex.FirstBar(m, i, model, inst);
      }
      assert m == model && i == inst ==> Gives(facts, c.identityFields[0], key);
    }
  }

  // ---------- Refusals ----------

  /** Every group failed at a condition of this field and sense, for want of a value or for the value it had. */
  predicate AllFailAt(scope: Scope, facts: Facts, field: Field, absent: bool) {
    forall g <- scope, h <- scope ::
      && VerdictOf(g, facts).Failed? && VerdictOf(g, facts).at.field == field && VerdictOf(g, facts).absent == absent
      && VerdictOf(h, facts).Failed? && VerdictOf(g, facts).at.sense == VerdictOf(h, facts).at.sense
  }

  predicate Waits(scope: Scope, facts: Facts) {
    exists g <- scope :: VerdictOf(g, facts).Failed? && VerdictOf(g, facts).undecided
  }

  /**
   * Why a record is refused: a group that was not read before all else, then an object identity it does
   * not have, or has and is not asked for, when every group failed on that alone; out of scope otherwise.
   */
  lemma ReasonsAre(scope: Scope, facts: Facts)
    requires scope != [] && AllFail(scope, facts)
    ensures var reason := RejectionReason(scope, facts);
            && (reason == DynamicGroupUnavailable <==> Waits(scope, facts))
            && (reason == ObjectIdentityMissing <==> !Waits(scope, facts) && AllFailAt(scope, facts, ObjectModelInst, true))
            && (reason == ObjectIdentityUnmatched <==>
                  !Waits(scope, facts) && AllFailAt(scope, facts, ObjectModelInst, false) && VerdictOf(scope[0], facts).at.sense == Include)
            && (reason == DynamicGroupUnavailable || reason == ObjectIdentityMissing || reason == ObjectIdentityUnmatched || reason == OutOfScope)
  {
    hide VerdictOf;
    assert scope[0] in scope;
  }

  lemma OneVerdict(c: Condition, facts: Facts)
    requires !c.membershipUnknown && c.field != DynamicGroup
    ensures var v := VerdictOf([c], facts);
            if ConditionHolds(c, facts, _ => {})
            then v.Matched? && (v.objectIdentity <==> c.field == ObjectModelInst)
            else v.Failed? && v.at == c && !v.undecided
                 && (c.field == ObjectModelInst ==> v.candidates == ObjectIdentityKeys(facts, c.identityFields) && (v.absent <==> v.candidates == []))
  {
    hide ObjectIdentityKeys, Hits;
    assert [c][1..] == [];
    assert MatchFrom([], facts, true) == Matched(true) && MatchFrom([], facts, false) == Matched(false);
  }

  /** A target of one condition admits what it holds of, and names its refusal by the field, with what the reporter is told. */
  lemma OneConditionAnswers(c: Condition, facts: Facts)
    requires !facts.hostFactsUnavailable && !c.membershipUnknown && c.field != DynamicGroup
    ensures var decision := Admission(Some([[c]]), Some(facts));
            && (decision.admit <==> ConditionHolds(c, facts, _ => {}))
            && (c.field == ObjectModelInst && !HasObject(facts, c) ==>
                  decision.reason == ObjectIdentityMissing && decision.report == Missing(c.identityFields))
            && (c.field == ObjectModelInst && HasObject(facts, c) && !decision.admit && c.sense == Include ==>
                  decision.reason == ObjectIdentityUnmatched && decision.report.Unmatched? && decision.report.keys == c.keys
                  && forall key :: key in decision.report.candidates <==> exists pair <- c.identityFields :: Gives(facts, pair, key))
            && (c.field == ObjectModelInst && decision.admit ==> decision.report == Admitted && decision.reason == NoReason)
            && (!decision.admit && (c.field != ObjectModelInst || (HasObject(facts, c) && c.sense != Include)) ==>
                  decision.reason == OutOfScope && decision.report == NoReport)
            && (decision.admit && c.field != ObjectModelInst ==> decision.reason == NoReason && decision.report == NoReport)
  {
    hide ObjectIdentityKeys, HasObject, Hits, VerdictOf;
    var group, scope := [c], [[c]];
    OneVerdict(c, facts);
    FieldsAsk(c, facts, _ => {});
    assert scope[0] in scope && scope[..1] == scope && scope[..0] == [];
    assert forall g <- scope :: g == group;
    ObjectHits(facts, c, c.keys);
    if VerdictOf(group, facts).Matched? {
      FailsBeforeIs(scope, facts, 0);
    } else {
      FailsBeforeIs(scope, facts, 1);
    }
    forall key ensures key in ObjectIdentityKeys(facts, c.identityFields) <==> exists pair <- c.identityFields :: Gives(facts, pair, key) {
      ObjectKeysExactly(facts, c.identityFields, key);
    }
  }

  /** What is answered without trying any group. */
  lemma AnswersUntried(scope: Scope, given: Option<Facts>)
    ensures Admission(None, given) == Decision(true, NoReason, NoReport)
    ensures Admission(Some([]), given) == Decision(false, ScopeEmpty, NoReport)
    ensures scope != [] && given.Some? && given.value.hostFactsUnavailable ==>
              Admission(Some(scope), given) ==
              Decision(true, FactsUnavailable(if given.value.unavailableSource == [] then Ascii("host_facts_unavailable") else given.value.unavailableSource), NoReport)
  {
  }

  // ---------- Standings ----------

  /** The record names a host: by its id, or by an address with its cloud. */
  predicate NamesHost(facts: Facts) {
    facts.idKey != [] || (facts.namedAddress && facts.namedCloud && facts.addressKey != [])
  }

  /** A host the record names has been found, and none was looked for in vain. */
  predicate HostPlaced(facts: Facts) {
    !facts.hostUnresolved && (NamesHost(facts) ==> facts.hostResolved)
  }

  /** A rejection stands as the target's own verdict in just these cases. */
  lemma DefinitelyOutsideExactly(plan: Option<Plan>, given: Option<Facts>, filter: Filter, reason: RejectionReasons)
    ensures DefinitelyOutside(plan, given, filter, reason) <==>
              && given.Some? && !given.value.hostFactsUnavailable
              && match filter
                 case TargetScopeName => reason == ScopeReason(OutOfScope) && HostPlaced(given.value)
                 case TargetPlanName =>
                   && reason == PlanReasons(OutOfTarget) && plan.Some? && plan.value.members == Some(Some(true))
                   && (plan.value.hostIdentity || plan.value.address ==> HostPlaced(given.value))
                 case AnotherFilter(_) => false
  {
  }

  /** The other standings: a filter that is no target's, facts that were missing, and a gap that is no verdict. */
  lemma StandingsAre(plan: Option<Plan>, facts: Facts, filter: Filter, reason: RejectionReasons)
    requires !facts.hostFactsUnavailable
    ensures var standing := RejectionStandingOf(plan, Some(facts), filter, reason);
            && (standing == NotTarget <==> filter.AnotherFilter?)
            && (filter == TargetScopeName ==>
                  && (standing == CacheUnavailable <==>
                        reason == ScopeReason(DynamicGroupUnavailable) || (reason == ScopeReason(OutOfScope) && !HostPlaced(facts)))
                  && (standing == Indefinite <==> reason != ScopeReason(DynamicGroupUnavailable) && reason != ScopeReason(OutOfScope)))
            && (filter == TargetPlanName && plan.Some? && plan.value.members.Some? ==>
                  (standing == Indefinite <==> reason != PlanReasons(SelectorUnavailable) && reason != PlanReasons(OutOfTarget)))
  {
  }
}
