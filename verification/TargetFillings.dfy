/** When a record is outside its target whatever its unread groups hold, and when it is refused for one of them all the same. */
module TargetFillings {
  import opened Bytes
  import opened TargetScope

  /** Whether a group's conditions can hold together, for some way its unread groups are filled. */
  predicate GroupCanHold(group: Group, lookup: Lookup, facts: Facts) {
    forall c <- group :: ConditionCanHold(c, group, lookup, facts)
  }

  /** A dynamic group can still hold the record when it has not been read and the same group does not exclude it. */
  predicate ConditionCanHold(c: Condition, group: Group, lookup: Lookup, facts: Facts) {
    match RowFor(c.field)
    case None => false
    case Some(row) =>
      var candidates := CandidatesOf(facts, c, row.source);
      if candidates == [] then row.absence == SkipCondition
      else if c.field != DynamicGroup then Hits(candidates, c.keys) == (c.sense != Exclude)
      else if c.sense == Exclude then !KnownHit(c, lookup, candidates)
      else KnownHit(c, lookup, candidates) || exists id <- c.groupIds :: Unread(lookup, id) && !Excluded(group, id)
  }

  predicate KnownHit(c: Condition, lookup: Lookup, candidates: seq<Bytes>) {
    exists id <- c.groupIds :: id in lookup && Hits(candidates, HostSet(lookup[id]))
  }

  predicate Excluded(group: Group, id: Bytes) {
    exists c <- group :: c.field == DynamicGroup && c.sense == Exclude && id in c.groupIds
  }

  // ---------- Fillings ----------

  function HostsOf(facts: Facts): seq<Bytes> {
    if HostIdentity in facts.attributes then facts.attributes[HostIdentity] else []
  }

  /** The hosts that were read, and the record in every unread group that this one does not exclude. */
  function Friendly(group: Group, lookup: Lookup, facts: Facts): Filling {
    id => (if id in lookup then HostSet(lookup[id]) else {})
          + (if Unread(lookup, id) && !Excluded(group, id) then set host | host in HostsOf(facts) else {})
  }

  lemma FriendlyFills(group: Group, lookup: Lookup, facts: Facts)
    ensures Fills(lookup, Friendly(group, lookup, facts))
  {
    hide Excluded;
  }

  /** A dynamic condition hits exactly through one of its groups. */
  lemma HitsThroughOne(c: Condition, candidates: seq<Bytes>, filling: Filling)
    requires c.field == DynamicGroup
    ensures Hits(candidates, KeysUnder(c, filling)) <==> exists id <- c.groupIds :: Hits(candidates, filling(id))
  {
    if Hits(candidates, KeysUnder(c, filling)) {
      var host :| host in candidates && host in KeysUnder(c, filling);
      var id :| id in c.groupIds && host in filling(id);
      assert Hits(candidates, filling(id));
    }
    if id :| id in c.groupIds && Hits(candidates, filling(id)) {
      var host :| host in candidates && host in filling(id);
      assert host in KeysUnder(c, filling);
    }
  }

  /** A condition of a group that holds under some filling is one that can hold. */
  lemma HoldsCanHold(c: Condition, group: Group, lookup: Lookup, facts: Facts, filling: Filling)
    requires c in group && Fills(lookup, filling) && GroupHolds(group, facts, filling)
    ensures ConditionCanHold(c, group, lookup, facts)
  {
    hide Hits, HostSet, CandidatesOf, KeysUnder;
    assert ConditionHolds(c, facts, filling);
    if c.field == DynamicGroup {
      var candidates := CandidatesOf(facts, c, FromFacts(HostIdentity));
      HitsThroughOne(c, candidates, filling);
      if KnownHit(c, lookup, candidates) {
        KnownHitStays(c, lookup, candidates, filling);
      } else if c.sense != Exclude && candidates != [] {
        var id :| id in c.groupIds && Hits(candidates, filling(id));
        assert Unread(lookup, id);
        if Excluded(group, id) {
          var other :| other in group && other.field == DynamicGroup && other.sense == Exclude && id in other.groupIds;
          assert ConditionHolds(other, facts, filling);
          HostCandidates(c, facts);
          HostCandidates(other, facts);
          HitsThroughOne(other, candidates, filling);
          assert false;
        }
      }
    } else {
      OwnKeys(c, filling);
    }
  }

  lemma HostCandidates(c: Condition, facts: Facts)
    ensures CandidatesOf(facts, c, FromFacts(HostIdentity)) == HostsOf(facts)
  {
  }

  lemma OwnKeys(c: Condition, filling: Filling)
    requires c.field != DynamicGroup
    ensures KeysUnder(c, filling) == c.keys
  {
  }

  lemma KnownHitStays(c: Condition, lookup: Lookup, candidates: seq<Bytes>, filling: Filling)
    requires c.field == DynamicGroup && Fills(lookup, filling) && KnownHit(c, lookup, candidates)
    ensures Hits(candidates, KeysUnder(c, filling))
  {
    hide Hits, KeysUnder, HostSet;
    var id :| id in c.groupIds && id in lookup && Hits(candidates, HostSet(lookup[id]));
    MoreKeysHit(candidates, HostSet(lookup[id]), filling(id));
    HitsThroughOne(c, candidates, filling);
  }

  /** And the friendly filling makes it hold. */
  lemma CanHoldHolds(c: Condition, group: Group, lookup: Lookup, facts: Facts)
    requires c in group && ConditionCanHold(c, group, lookup, facts)
    ensures ConditionHolds(c, facts, Friendly(group, lookup, facts))
  {
    hide Hits, HostSet, KeysUnder, Excluded, KnownHit;
    if c.field == DynamicGroup {
      var filling := Friendly(group, lookup, facts);
      var candidates := CandidatesOf(facts, c, FromFacts(HostIdentity));
      HitsThroughOne(c, candidates, filling);
      FriendlyFills(group, lookup, facts);
      if candidates != [] {
        FriendlyHits(c, group, lookup, facts);
      }
    } else {
      OwnKeys(c, Friendly(group, lookup, facts));
    }
  }

  lemma FriendlyHits(c: Condition, group: Group, lookup: Lookup, facts: Facts)
    requires c in group && c.field == DynamicGroup && HostsOf(facts) != []
    ensures Hits(HostsOf(facts), KeysUnder(c, Friendly(group, lookup, facts))) <==>
              KnownHit(c, lookup, HostsOf(facts)) || exists id <- c.groupIds :: Unread(lookup, id) && !Excluded(group, id)
    ensures c.sense == Exclude ==> forall id <- c.groupIds :: Excluded(group, id)
  {
    hide Hits, KeysUnder;
    var filling, hosts := Friendly(group, lookup, facts), HostsOf(facts);
    HitsThroughOne(c, hosts, filling);
    forall id | id in c.groupIds
      ensures Hits(hosts, filling(id)) <==> (id in lookup && Hits(hosts, HostSet(lookup[id]))) || (Unread(lookup, id) && !Excluded(group, id))
    {
      FriendlyHitsOne(id, group, lookup, facts);
    }
  }

  lemma FriendlyHitsOne(id: Bytes, group: Group, lookup: Lookup, facts: Facts)
    requires HostsOf(facts) != []
    ensures Hits(HostsOf(facts), Friendly(group, lookup, facts)(id)) <==>
              (id in lookup && Hits(HostsOf(facts), HostSet(lookup[id]))) || (Unread(lookup, id) && !Excluded(group, id))
  {
    hide Excluded, Unread;
    if Unread(lookup, id) && !Excluded(group, id) {
      assert HostsOf(facts)[0] in Friendly(group, lookup, facts)(id);
    }
  }

  /** A group can hold exactly when some filling of its unread groups makes it hold. */
  lemma CanHoldExactly(group: Group, lookup: Lookup, facts: Facts)
    ensures GroupCanHold(group, lookup, facts) <==> exists filling :: Fills(lookup, filling) && GroupHolds(group, facts, filling)
  {
    hide ConditionCanHold, ConditionHolds, Fills;
    if GroupCanHold(group, lookup, facts) {
      FriendlyFills(group, lookup, facts);
      forall c <- group ensures ConditionHolds(c, facts, Friendly(group, lookup, facts)) {
        CanHoldHolds(c, group, lookup, facts);
      }
      assert GroupHolds(group, facts, Friendly(group, lookup, facts));
    }
    if filling :| Fills(lookup, filling) && GroupHolds(group, facts, filling) {
      forall c <- group ensures ConditionCanHold(c, group, lookup, facts) {
        HoldsCanHold(c, group, lookup, facts, filling);
      }
    }
  }

  // ---------- Records outside whatever is read later ----------

  ghost predicate OutsideAlways(scope: Scope, lookup: Lookup, facts: Facts) {
    forall filling :: Fills(lookup, filling) ==> !InScope(scope, facts, filling)
  }

  lemma OutsideExactly(scope: Scope, lookup: Lookup, facts: Facts)
    ensures OutsideAlways(scope, lookup, facts) <==> forall g :: 0 <= g < |scope| ==> !GroupCanHold(scope[g], lookup, facts)
  {
    hide GroupCanHold, GroupHolds, InScope, Fills;
    if g :| 0 <= g < |scope| && GroupCanHold(scope[g], lookup, facts) {
      CanHoldExactly(scope[g], lookup, facts);
      var filling :| Fills(lookup, filling) && GroupHolds(scope[g], facts, filling);
      ScopeHolds(scope, facts, filling);
    }
    if filling :| Fills(lookup, filling) && InScope(scope, facts, filling) {
      ScopeHolds(scope, facts, filling);
      var g :| 0 <= g < |scope| && GroupHolds(scope[g], facts, filling);
      CanHoldExactly(scope[g], lookup, facts);
    }
  }

  /** A group that failed by a condition on a group that was not read. */
  predicate FailsUndecided(group: Group, lookup: Lookup, facts: Facts) {
    var v := VerdictOf(ResolveGroup(group, lookup), facts);
    v.Failed? && v.undecided
  }

  /** The record is refused for a group that was not read. */
  predicate RefusedForGroup(scope: Scope, lookup: Lookup, given: Option<Facts>) {
    var decision := Admission(Some(Resolve(scope, lookup)), given);
    !decision.admit && decision.reason == DynamicGroupUnavailable
  }

  /**
   * A record is outside whatever its unread groups hold and refused for one of them all the same exactly
   * when no alternative can hold and one of them failed at a group that was not read, before it came to
   * what it surely fails on.
   */
  lemma UndecidedExactly(scope: Scope, lookup: Lookup, given: Option<Facts>)
    requires Frozen(scope) && !FactsOf(given).hostFactsUnavailable
    ensures OutsideAlways(scope, lookup, FactsOf(given)) && RefusedForGroup(scope, lookup, given) <==>
              && (exists g :: 0 <= g < |scope| && FailsUndecided(scope[g], lookup, FactsOf(given)))
              && forall g :: 0 <= g < |scope| ==> !GroupCanHold(scope[g], lookup, FactsOf(given))
  {
    hide GroupCanHold, OutsideAlways, Frozen, VerdictOf;
    var facts, read := FactsOf(given), Resolve(scope, lookup);
    OutsideExactly(scope, lookup, facts);
    if OutsideAlways(scope, lookup, facts) {
      OutsideFails(scope, lookup, facts);
      assert read[..|read|] == read;
      if scope != [] {
        FailsBeforeIs(read, facts, |read|);
        RefusedNames(scope, lookup, facts);
      }
    }
  }

  /** No group of a record that is outside whatever is read matches. */
  lemma OutsideFails(scope: Scope, lookup: Lookup, facts: Facts)
    requires Frozen(scope) && OutsideAlways(scope, lookup, facts)
    ensures AllFail(Resolve(scope, lookup), facts)
  {
    hide InScope, GroupHolds, VerdictOf, Frozen, Fills;
    var read, filling := Resolve(scope, lookup), Friendly([], lookup, facts);
    FriendlyFills([], lookup, facts);
    ScopeHolds(scope, facts, filling);
    forall group <- read ensures VerdictOf(group, facts).Failed? {
      var g :| 0 <= g < |read| && read[g] == group;
      GroupSound(scope, g, lookup, facts, filling);
    }
  }

  lemma RefusedNames(scope: Scope, lookup: Lookup, facts: Facts)
    requires scope != [] && AllFail(Resolve(scope, lookup), facts)
    ensures RejectionReason(Resolve(scope, lookup), facts) == DynamicGroupUnavailable <==>
              exists g :: 0 <= g < |scope| && FailsUndecided(scope[g], lookup, facts)
  {
    hide VerdictOf, OwnReason;
    var read := Resolve(scope, lookup);
    forall g | 0 <= g < |scope| ensures read[g] in read && read[g] == ResolveGroup(scope[g], lookup) {
    }
    OwnIsNotGroups(VerdictOf(read[0], facts));
    if AnyUndecided(read, facts) {
      var group :| group in read && VerdictOf(group, facts).undecided;
      var g :| 0 <= g < |read| && read[g] == group;
      assert FailsUndecided(scope[g], lookup, facts);
    }
  }

  // ---------- The two ways to be outside and undecided ----------

  /** Each witness: facts of one host, and a target of one group. */
  predicate OneHost(facts: Facts, host: Bytes) {
    HostIdentity in facts.attributes && facts.attributes[HostIdentity] == [host] && !facts.hostFactsUnavailable
  }

  function ExcludingTarget(known: Bytes, unread: Bytes): Scope {
    [[Condition(DynamicGroup, Exclude, {}, [], [known, unread], true)]]
  }

  function IncludingTarget(unread: Bytes, other: Bytes): Scope {
    [[Condition(DynamicGroup, Include, {}, [], [unread], true), Condition(Host, Include, {other}, [], [], false)]]
  }

  /** A member known to be excluded is outside whatever is read later, and is still refused for the group that was not. */
  lemma ExcludedButUndecided(host: Bytes, known: Bytes, unread: Bytes, facts: Facts)
    requires known != unread && OneHost(facts, host)
    ensures var scope, lookup := ExcludingTarget(known, unread), map[known := Membership([host], true)];
            OutsideAlways(scope, lookup, facts) && RefusedForGroup(scope, lookup, Some(facts))
  {
    var scope, lookup := ExcludingTarget(known, unread), map[known := Membership([host], true)];
    var group, c := scope[0], scope[0][0];
    assert c in group;
    assert !ConditionCanHold(c, group, lookup, facts) by {
      assert known in c.groupIds && host in HostSet(lookup[known]);
      assert HostsOf(facts)[0] in HostSet(lookup[known]);
    }
    FirstUndecided(group, lookup, facts) by {
      assert unread in c.groupIds;
    }
    UndecidedExactly(scope, lookup, Some(facts));
  }

  /** So is a host that some other condition shuts out, when a group asked for before it was not read. */
  lemma IncludedButUndecided(host: Bytes, other: Bytes, unread: Bytes, facts: Facts)
    requires host != other && OneHost(facts, host)
    ensures var scope, lookup := IncludingTarget(unread, other), map[];
            OutsideAlways(scope, lookup, facts) && RefusedForGroup(scope, lookup, Some(facts))
  {
    var scope := IncludingTarget(unread, other);
    var lookup: Lookup := map[];
    var group, c := scope[0], scope[0][1];
    assert c in group;
    assert !ConditionCanHold(c, group, lookup, facts);
    FirstUndecided(group, lookup, facts) by {
      assert unread in group[0].groupIds;
    }
    UndecidedExactly(scope, lookup, Some(facts));
  }

  lemma FirstUndecided(group: Group, lookup: Lookup, facts: Facts)
    requires group != [] && group[0].field == DynamicGroup && HostsOf(facts) != []
    requires exists id <- group[0].groupIds :: Unread(lookup, id)
    requires group[0].sense == Exclude || !KnownHit(group[0], lookup, HostsOf(facts))
    ensures FailsUndecided(group, lookup, facts)
  {
    hide Hits;
    var read := WithMemberships(group[0], lookup);
    assert ResolveGroup(group, lookup)[0] == read;
    KnownHitIs(group[0], lookup, HostsOf(facts));
  }

  /** The hosts that were read are hit exactly through a group that holds one. */
  lemma KnownHitIs(c: Condition, lookup: Lookup, candidates: seq<Bytes>)
    requires c.field == DynamicGroup
    ensures Hits(candidates, WithMemberships(c, lookup).keys) <==> KnownHit(c, lookup, candidates)
  {
    var keys := WithMemberships(c, lookup).keys;
    if Hits(candidates, keys) {
      var host :| host in candidates && host in keys;
      var id :| id in c.groupIds && id in lookup && host in lookup[id].hosts;
      assert host in HostSet(lookup[id]);
    }
    if KnownHit(c, lookup, candidates) {
      var id :| id in c.groupIds && id in lookup && Hits(candidates, HostSet(lookup[id]));
      var host :| host in candidates && host in HostSet(lookup[id]);
      assert host in keys;
    }
  }

  // ---------- Records inside whatever is read later ----------

  ghost predicate InsideAlways(scope: Scope, lookup: Lookup, facts: Facts) {
    forall filling :: Fills(lookup, filling) ==> InScope(scope, facts, filling)
  }

  /** The groups that a target names and that were not read. */
  function Open(scope: Scope, lookup: Lookup): set<Bytes> {
    set group, c, id | group in scope && c in group && id in c.groupIds && Unread(lookup, id) :: id
  }

  /** The hosts that were read, and the record in just these of the groups that were not. */
  function With(joined: set<Bytes>, lookup: Lookup, facts: Facts): Filling {
    id => (if id in lookup then HostSet(lookup[id]) else {})
          + (if Unread(lookup, id) && id in joined then set host | host in HostsOf(facts) else {})
  }

  /** The open groups that hold the record. */
  function Joined(scope: Scope, lookup: Lookup, facts: Facts, filling: Filling): set<Bytes> {
    set id | id in Open(scope, lookup) && Hits(HostsOf(facts), filling(id))
  }

  /** Only which open groups hold the record matters, not what else they hold. */
  lemma OnlyJoined(scope: Scope, lookup: Lookup, facts: Facts, filling: Filling)
    requires Fills(lookup, filling)
    ensures InScope(scope, facts, filling) == InScope(scope, facts, With(Joined(scope, lookup, facts, filling), lookup, facts))
  {
    hide ConditionHolds, Joined;
    var narrow := With(Joined(scope, lookup, facts, filling), lookup, facts);
    forall group, c | group in scope && c in group ensures ConditionHolds(c, facts, filling) == ConditionHolds(c, facts, narrow) {
      ConditionJoined(scope, group, c, lookup, facts, filling);
    }
    forall group | group in scope
      ensures (forall c <- group :: ConditionHolds(c, facts, filling)) <==> (forall c <- group :: ConditionHolds(c, facts, narrow))
    {
    }
  }

  lemma ConditionJoined(scope: Scope, group: Group, c: Condition, lookup: Lookup, facts: Facts, filling: Filling)
    requires group in scope && c in group && Fills(lookup, filling)
    ensures ConditionHolds(c, facts, filling) == ConditionHolds(c, facts, With(Joined(scope, lookup, facts, filling), lookup, facts))
  {
    hide Hits;
    if c.field == DynamicGroup && HostsOf(facts) != [] {
      var narrow := With(Joined(scope, lookup, facts, filling), lookup, facts);
      HitsThroughOne(c, HostsOf(facts), filling);
      HitsThroughOne(c, HostsOf(facts), narrow);
      forall id <- c.groupIds ensures Hits(HostsOf(facts), filling(id)) == Hits(HostsOf(facts), narrow(id)) {
        assert Unread(lookup, id) ==> id in Open(scope, lookup);
        OneJoined(scope, id, lookup, facts, filling);
      }
    }
  }

  lemma OneJoined(scope: Scope, id: Bytes, lookup: Lookup, facts: Facts, filling: Filling)
    requires Fills(lookup, filling) && HostsOf(facts) != [] && (Unread(lookup, id) ==> id in Open(scope, lookup))
    ensures Hits(HostsOf(facts), filling(id)) == Hits(HostsOf(facts), With(Joined(scope, lookup, facts, filling), lookup, facts)(id))
  {
    hide Open;
    var joined := Joined(scope, lookup, facts, filling);
    var narrow := With(joined, lookup, facts);
    if !Unread(lookup, id) {
      assert narrow(id) == filling(id);
    } else if id in joined {
      assert HostsOf(facts)[0] in narrow(id);
    } else {
      assert narrow(id) == if id in lookup then HostSet(lookup[id]) else {};
      if id in lookup && Hits(HostsOf(facts), HostSet(lookup[id])) {
        MoreKeysHit(HostsOf(facts), HostSet(lookup[id]), filling(id));
      }
    }
  }

  /**
   * A record is inside whatever its unread groups hold and refused all the same exactly when no
   * alternative matches on what was read and yet every choice of the open groups puts it in one.
   */
  lemma InsideButRefusedExactly(scope: Scope, lookup: Lookup, given: Option<Facts>)
    requires Frozen(scope) && !FactsOf(given).hostFactsUnavailable
    ensures InsideAlways(scope, lookup, FactsOf(given)) && !Admission(Some(Resolve(scope, lookup)), given).admit <==>
              && (forall g :: 0 <= g < |scope| ==> VerdictOf(Resolve(scope, lookup)[g], FactsOf(given)).Failed?)
              && forall joined :: joined <= Open(scope, lookup) ==> InScope(scope, FactsOf(given), With(joined, lookup, FactsOf(given)))
  {
    hide VerdictOf, InScope, Frozen, Fills, Open, Joined, AnyUndecided, OneKind, OwnReason;
    var facts, read := FactsOf(given), Resolve(scope, lookup);
    InsideExactly(scope, lookup, facts);
    assert read[..|read|] == read;
    if forall g :: 0 <= g < |read| ==> VerdictOf(read[g], facts).Failed? {
      FailsBeforeIs(read, facts, |read|);
    }
  }

  lemma InsideExactly(scope: Scope, lookup: Lookup, facts: Facts)
    ensures InsideAlways(scope, lookup, facts) <==>
              forall joined :: joined <= Open(scope, lookup) ==> InScope(scope, facts, With(joined, lookup, facts))
  {
    hide InScope, Open;
    forall joined: set<Bytes> ensures Fills(lookup, With(joined, lookup, facts)) {
    }
    if forall joined :: joined <= Open(scope, lookup) ==> InScope(scope, facts, With(joined, lookup, facts)) {
      forall filling | Fills(lookup, filling) ensures InScope(scope, facts, filling) {
        OnlyJoined(scope, lookup, facts, filling);
        assert Joined(scope, lookup, facts, filling) <= Open(scope, lookup);
      }
    }
  }

  /** A host in the group or not in it: either alternative holds of it, and neither is known to. */
  lemma CoveredButRefused(host: Bytes, unread: Bytes, facts: Facts)
    requires OneHost(facts, host)
    ensures var scope := [[Condition(DynamicGroup, Include, {}, [], [unread], true)], [Condition(DynamicGroup, Exclude, {}, [], [unread], true)]];
            InsideAlways(scope, map[], facts) && RefusedForGroup(scope, map[], Some(facts))
  {
    hide VerdictOf, Hits, InScope, AnyUndecided, OneKind, OwnReason;
    var asked, shut := Condition(DynamicGroup, Include, {}, [], [unread], true), Condition(DynamicGroup, Exclude, {}, [], [unread], true);
    var scope: Scope, lookup: Lookup := [[asked], [shut]], map[];
    forall filling ensures InScope(scope, facts, filling) {
      assert KeysUnder(asked, filling) == KeysUnder(shut, filling);
      assert GroupHolds(scope[0], facts, filling) || GroupHolds(scope[1], facts, filling);
      ScopeHolds(scope, facts, filling);
    }
    forall g | 0 <= g < 2 ensures FailsUndecided(scope[g], lookup, facts) {
      assert unread in scope[g][0].groupIds && !KnownHit(scope[g][0], lookup, HostsOf(facts));
      FirstUndecided(scope[g], lookup, facts);
    }
    var read := Resolve(scope, lookup);
    assert read == [ResolveGroup(scope[0], lookup), ResolveGroup(scope[1], lookup)];
    assert read[..2] == read;
    FailsBeforeIs(read, facts, 2);
    RefusedNames(scope, lookup, facts);
  }
}
