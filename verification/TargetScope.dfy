/** Whether a record is in a strategy's monitoring target, when the members of its dynamic groups may not all be known. */
module TargetScope {
  import opened Bytes

  // ---------- The attribute table ----------

  datatype Field = TopoNode | Host | DynamicGroup | ServiceInstance | ObjectModelInst | OtherField(name: Bytes)

  datatype Method = Include | Exclude | OtherMethod(name: Bytes)

  datatype Attribute = HostIdentity | ServiceInstanceID | HostTopoNode

  datatype Source = FromFacts(attribute: Attribute) | DimensionPairs

  datatype AbsencePolicy = SkipCondition | FailGroup

  datatype Reason =
    | NoReason
    | ScopeEmpty
    | OutOfScope
    | ObjectIdentityMissing
    | ObjectIdentityUnmatched
    | DynamicGroupUnavailable
    | FactsUnavailable(source: Bytes)

  /** One row: where a field's candidates come from, what their absence does, and what each failure is called. */
  datatype Row = Row(source: Source, absence: AbsencePolicy, absenceReason: Reason, mismatchReason: Reason)

  function RowFor(field: Field): Option<Row> {
    match field
    case Host => Some(Row(FromFacts(HostIdentity), SkipCondition, NoReason, OutOfScope))
    case DynamicGroup => Some(Row(FromFacts(HostIdentity), SkipCondition, NoReason, OutOfScope))
    case ServiceInstance => Some(Row(FromFacts(ServiceInstanceID), SkipCondition, NoReason, OutOfScope))
    case TopoNode => Some(Row(FromFacts(HostTopoNode), FailGroup, OutOfScope, OutOfScope))
    case ObjectModelInst => Some(Row(DimensionPairs, FailGroup, ObjectIdentityMissing, ObjectIdentityUnmatched))
    case OtherField(_) => None
  }

  // ---------- Scopes and facts ----------

  datatype Condition = Condition(
    field: Field,
    sense: Method,
    keys: set<Bytes>,
    identityFields: seq<(Bytes, Bytes)>,
    groupIds: seq<Bytes>,
    membershipUnknown: bool)

  type Group = seq<Condition>

  type Scope = seq<Group>

  /** A dynamic group as it was read: the hosts it holds, and whether that is all of them. */
  datatype Membership = Membership(hosts: seq<Bytes>, known: bool)

  type Lookup = map<Bytes, Membership>

  /** What is known of a record; a dimension that has no text is absent. */
  datatype Facts = Facts(
    attributes: map<Attribute, seq<Bytes>>,
    dimensions: map<Bytes, Bytes>,
    hostFactsUnavailable: bool,
    unavailableSource: Bytes,
    hostUnresolved: bool,
    hostResolved: bool,
    idKey: Bytes,
    namedAddress: bool,
    namedCloud: bool,
    addressKey: Bytes)

  const NO_FACTS := Facts(map[], map[], false, [], false, false, [], false, false, [])

  const HOST_INDEX := Ascii("host_facts_unavailable")

  function DimensionText(facts: Facts, name: Bytes): Bytes {
    if name in facts.dimensions then facts.dimensions[name] else []
  }

  /** "model|instance" for every pair of dimensions the record has both of, each once. */
  function ObjectIdentityKeys(facts: Facts, pairs: seq<(Bytes, Bytes)>): seq<Bytes> {
    if pairs == [] then []
    else
      var before := ObjectIdentityKeys(facts, pairs[..|pairs| - 1]);
      var (modelField, instanceField) := pairs[|pairs| - 1];
      var model, inst := DimensionText(facts, modelField), DimensionText(facts, instanceField);
      if model == [] || inst == [] || model + Ascii("|") + inst in before then before
      else before + [model + Ascii("|") + inst]
  }

  function CandidatesOf(facts: Facts, c: Condition, source: Source): seq<Bytes> {
    match source
    case DimensionPairs => ObjectIdentityKeys(facts, c.identityFields)
    case FromFacts(attribute) => if attribute in facts.attributes then facts.attributes[attribute] else []
  }

  predicate Hits(candidates: seq<Bytes>, keys: set<Bytes>) {
    exists candidate <- candidates :: candidate in keys
  }

  // ---------- What a target means ----------

  /** Which hosts each dynamic group really holds. */
  type Filling = Bytes -> set<Bytes>

  /** Whether the hosts read are the group's own, or at least among them when the group was not read in full. */
  ghost predicate Fills(lookup: Lookup, filling: Filling) {
    forall id :: id in lookup ==>
      if lookup[id].known then filling(id) == HostSet(lookup[id]) else HostSet(lookup[id]) <= filling(id)
  }

  function HostSet(m: Membership): set<Bytes> {
    set host | host in m.hosts
  }

  /** The keys a condition names: for a dynamic group, the hosts its groups hold. */
  function KeysUnder(c: Condition, filling: Filling): set<Bytes> {
    if c.field == DynamicGroup then set id, host | id in c.groupIds && host in filling(id) :: host else c.keys
  }

  /** A condition holds when its attribute is missing and that is passed over, or when it names the record as its method says. */
  predicate ConditionHolds(c: Condition, facts: Facts, filling: Filling) {
    match RowFor(c.field)
    case None => false
    case Some(row) =>
      var candidates := CandidatesOf(facts, c, row.source);
      if candidates == [] then row.absence == SkipCondition
      else Hits(candidates, KeysUnder(c, filling)) == (c.sense != Exclude)
  }

  /** The plain target: some group all of whose conditions hold. */
  predicate InScope(scope: Scope, facts: Facts, filling: Filling) {
    exists group <- scope :: forall c <- group :: ConditionHolds(c, facts, filling)
  }

  // ---------- Reading the groups ----------

  predicate Unread(lookup: Lookup, id: Bytes) {
    id !in lookup || !lookup[id].known
  }

  /** A dynamic group condition with the hosts its groups are known to hold, and whether one of them was not read. */
  function WithMemberships(c: Condition, lookup: Lookup): Condition {
    if c.field != DynamicGroup then c
    else c.(keys := set id, host | id in c.groupIds && id in lookup && host in lookup[id].hosts :: host,
            membershipUnknown := exists id <- c.groupIds :: Unread(lookup, id))
  }

  function Resolve(scope: Scope, lookup: Lookup): (resolved: Scope)
    ensures |resolved| == |scope|
  {
    seq(|scope|, g requires 0 <= g < |scope| => ResolveGroup(scope[g], lookup))
  }

  function ResolveGroup(group: Group, lookup: Lookup): (resolved: Group)
    ensures |resolved| == |group|
  {
    seq(|group|, i requires 0 <= i < |group| => WithMemberships(group[i], lookup))
  }

  /** The scope with each dynamic group condition's keys read from its groups. */
  method WithGroupMemberships(scope: Scope, lookup: Lookup) returns (resolved: Scope)
    ensures resolved == Resolve(scope, lookup)
  {
    resolved := scope;
    var g := 0;
    while g < |scope|
      invariant 0 <= g <= |scope| == |resolved|
      invariant forall h :: 0 <= h < g ==> resolved[h] == ResolveGroup(scope[h], lookup)
      invariant forall h :: g <= h < |scope| ==> resolved[h] == scope[h]
    {
      var i := 0;
      while i < |scope[g]|
        invariant 0 <= i <= |scope[g]| && |resolved| == |scope| && |resolved[g]| == |scope[g]|
        invariant forall h :: 0 <= h < g ==> resolved[h] == ResolveGroup(scope[h], lookup)
        invariant forall h :: g < h < |scope| ==> resolved[h] == scope[h]
        invariant forall j :: 0 <= j < i ==> resolved[g][j] == WithMemberships(scope[g][j], lookup)
        invariant forall j :: i <= j < |scope[g]| ==> resolved[g][j] == scope[g][j]
      {
        var c := scope[g][i];
        if c.field == DynamicGroup {
          var keys, unknown := ReadGroups(c.groupIds, lookup);
          resolved := resolved[g := resolved[g][i := c.(keys := keys, membershipUnknown := unknown)]];
        }
        i := i + 1;
      }
      assert resolved[g] == ResolveGroup(scope[g], lookup);
      g := g + 1;
    }
  }

  method ReadGroups(ids: seq<Bytes>, lookup: Lookup) returns (keys: set<Bytes>, unknown: bool)
    ensures keys == set id, host | id in ids && id in lookup && host in lookup[id].hosts :: host
    ensures unknown <==> exists id <- ids :: Unread(lookup, id)
  {
    keys, unknown := {}, false;
    var n := 0;
    while n < |ids|
      invariant 0 <= n <= |ids|
      invariant keys == set id, host | id in ids[..n] && id in lookup && host in lookup[id].hosts :: host
      invariant unknown <==> exists id <- ids[..n] :: Unread(lookup, id)
    {
      var id := ids[n];
      assert ids[..n + 1] == ids[..n] + [id];
      if Unread(lookup, id) {
        unknown := true;
      }
      if id in lookup {
        keys := keys + HostSet(lookup[id]);
      }
      n := n + 1;
    }
    assert ids[..n] == ids;
  }

  // ---------- Matching ----------

  /** How a group ends: matched, perhaps through an object identity, or failed by its first condition that fails. */
  datatype Verdict =
    | Matched(objectIdentity: bool)
    | Failed(at: Condition, absent: bool, candidates: seq<Bytes>, undecided: bool)

  function MatchFrom(group: Group, facts: Facts, objectIdentity: bool): Verdict {
    if group == [] then Matched(objectIdentity)
    else
      var c := group[0];
      match RowFor(c.field)
      case None => Failed(c, true, [], false)
      case Some(row) =>
        var candidates := CandidatesOf(facts, c, row.source);
        if candidates == [] then
          if row.absence == SkipCondition then MatchFrom(group[1..], facts, objectIdentity) else Failed(c, true, [], false)
        else
          var hit := Hits(candidates, c.keys);
          if c.membershipUnknown then
            if c.sense == Include && hit then MatchFrom(group[1..], facts, objectIdentity) else Failed(c, false, candidates, true)
          else if hit == (c.sense == Exclude) then Failed(c, false, candidates, false)
          else MatchFrom(group[1..], facts, objectIdentity || row.source.DimensionPairs?)
  }

  function VerdictOf(group: Group, facts: Facts): Verdict {
    MatchFrom(group, facts, false)
  }

  /** Two failures are of one kind when they read the same attribute the same way. */
  predicate SameKind(a: Verdict, b: Verdict)
    requires a.Failed? && b.Failed?
  {
    a.at.field == b.at.field && a.at.sense == b.at.sense && a.absent == b.absent
  }

  /** What the groups have failed on so far. */
  predicate AllFail(scope: Scope, facts: Facts) {
    forall g <- scope :: VerdictOf(g, facts).Failed?
  }

  predicate AnyUndecided(scope: Scope, facts: Facts)
    requires AllFail(scope, facts)
  {
    exists g <- scope :: VerdictOf(g, facts).undecided
  }

  predicate OneKind(scope: Scope, facts: Facts)
    requires AllFail(scope, facts)
  {
    forall g <- scope, h <- scope :: SameKind(VerdictOf(g, facts), VerdictOf(h, facts))
  }

  /** The name a failure has of its own: its attribute's, an exclusion that did not match having none. */
  function OwnReason(v: Verdict): Reason
    requires v.Failed?
  {
    match RowFor(v.at.field)
    case None => OutOfScope
    case Some(row) =>
      var own := if v.absent then row.absenceReason else if v.at.sense == Include then row.mismatchReason else NoReason;
      if own == NoReason then OutOfScope else own
  }

  /** The name of a rejection: a group that was not read, else the failures' own when they are all of one kind. */
  function RejectionReason(scope: Scope, facts: Facts): Reason
    requires scope != [] && AllFail(scope, facts)
  {
    if AnyUndecided(scope, facts) then DynamicGroupUnavailable
    else if OneKind(scope, facts) then OwnReason(VerdictOf(scope[0], facts))
    else OutOfScope
  }

  /** Why the alternatives failed, kept while they are tried. */
  class MatchTrace {
    var failed: Option<Condition>
    var absent: bool
    var candidates: seq<Bytes>
    var uniform: bool
    var failures: nat
    var undecided: bool
    var objectIdentityHit: bool

    constructor ()
      ensures failed == None && failures == 0 && !undecided && !uniform && !objectIdentityHit
    {
      failed, absent, candidates, uniform, failures, undecided, objectIdentityHit := None, false, [], false, 0, false, false;
    }

    /** Whether the trace is that of these groups, every one of them failed. */
    ghost predicate Traces(scope: Scope, facts: Facts)
      reads this
    {
      && AllFail(scope, facts) && failures == |scope| && !objectIdentityHit
      && (undecided <==> AnyUndecided(scope, facts))
      && (scope == [] ==> failed == None)
      && (scope != [] ==>
            && uniform == OneKind(scope, facts)
            && var last := VerdictOf(scope[|scope| - 1], facts);
               failed == Some(last.at) && absent == last.absent && candidates == last.candidates)
    }

    method Fail(condition: Condition, absent: bool, candidates: seq<Bytes>)
      modifies this
      ensures unchanged(`undecided) && unchanged(`objectIdentityHit)
      ensures failures == old(failures) + 1 && failed == Some(condition) && this.absent == absent && this.candidates == candidates
      ensures uniform == if old(failures) == 0 then true
                         else old(uniform) && old(failed).Some? && old(failed.value.field) == condition.field
                              && old(failed.value.sense) == condition.sense && old(this.absent) == absent
    {
      if failures == 0 {
        uniform := true;
      } else if failed == None || failed.value.field != condition.field || failed.value.sense != condition.sense || this.absent != absent {
        uniform := false;
      }
      failures := failures + 1;
      failed, this.absent, this.candidates := Some(condition), absent, candidates;
    }

    method Reason() returns (reason: Reason)
      ensures reason == if undecided then DynamicGroupUnavailable
                        else if !uniform || failed == None then OutOfScope
                        else OwnReason(Failed(failed.value, absent, candidates, false))
    {
      if undecided {
        return DynamicGroupUnavailable;
      }
      if !uniform || failed == None {
        return OutOfScope;
      }
      match RowFor(failed.value.field) {
        case None => return OutOfScope;
        case Some(row) =>
          reason := NoReason;
          if absent {
            reason := row.absenceReason;
          } else if failed.value.sense == Include {
            reason := row.mismatchReason;
          }
          if reason == NoReason {
            reason := OutOfScope;
          }
      }
    }
  }

  method AnyHit(candidates: seq<Bytes>, keys: set<Bytes>) returns (hit: bool)
    ensures hit == Hits(candidates, keys)
  {
    hit := false;
    var n := 0;
    while n < |candidates|
      invariant 0 <= n <= |candidates|
      invariant forall i :: 0 <= i < n ==> candidates[i] !in keys
    {
      if candidates[n] in keys {
        return true;
      }
      n := n + 1;
    }
  }

  /** Tries one group, and leaves in the trace why it failed, or whether it matched through an object identity. */
  method Matches(group: Group, facts: Facts, trace: MatchTrace, ghost before: Scope) returns (matched: bool)
    requires trace.Traces(before, facts)
    modifies trace
    ensures matched <==> VerdictOf(group, facts).Matched?
    ensures matched ==> trace.objectIdentityHit == VerdictOf(group, facts).objectIdentity
    ensures !matched ==> trace.Traces(before + [group], facts)
  {
    hide Hits, CandidatesOf, RowFor, AnyUndecided, OneKind;
    var objectIdentity := false;
    var n := 0;
    while n < |group|
      invariant 0 <= n <= |group|
      invariant VerdictOf(group, facts) == MatchFrom(group[n..], facts, objectIdentity)
      invariant trace.Traces(before, facts)
    {
      var c := group[n];
      ghost var rest := group[n..];
      assert rest[0] == c && rest[1..] == group[n + 1..];
      n := n + 1;
      var row := RowFor(c.field);
      if row.None? {
        FailTraced(before, group, facts);
        trace.Fail(c, true, []);
        return false;
      }
      var candidates := CandidatesOf(facts, c, row.value.source);
      if |candidates| == 0 {
        if row.value.absence == SkipCondition {
          continue;
        }
        FailTraced(before, group, facts);
        trace.Fail(c, true, []);
        return false;
      }
      var hit := AnyHit(candidates, c.keys);
      if c.membershipUnknown {
        if c.sense == Include && hit {
          continue;
        }
        FailTraced(before, group, facts);
        trace.undecided := true;
        trace.Fail(c, false, candidates);
        return false;
      }
      if c.sense == Exclude {
        hit := !hit;
      }
      if !hit {
        FailTraced(before, group, facts);
        trace.Fail(c, false, candidates);
        return false;
      }
      if row.value.source.DimensionPairs? {
        objectIdentity := true;
      }
    }
    trace.objectIdentityHit := objectIdentity;
    matched := true;
  }

  /** What one more failing group adds to a trace. */
  lemma FailTraced(before: Scope, group: Group, facts: Facts)
    requires AllFail(before, facts) && VerdictOf(group, facts).Failed?
    ensures var after := before + [group];
            && AllFail(after, facts)
            && (AnyUndecided(after, facts) <==> AnyUndecided(before, facts) || VerdictOf(group, facts).undecided)
            && (before == [] ==> OneKind(after, facts))
            && (before != [] ==>
                  OneKind(after, facts) == (OneKind(before, facts) && SameKind(VerdictOf(before[|before| - 1], facts), VerdictOf(group, facts))))
  {
    hide VerdictOf;
    var after := before + [group];
    assert forall g :: g in after <==> g in before || g == group;
    if before != [] {
      assert before[|before| - 1] in before;
    }
  }

  datatype Report = NoReport | Admitted | Missing(identityFields: seq<(Bytes, Bytes)>) | Unmatched(candidates: seq<Bytes>, keys: set<Bytes>)

  /** A filter's answer, its reason, and what the reporter of object identities hears of it. */
  datatype Decision = Decision(admit: bool, reason: Reason, report: Report)

  function UnavailableReason(facts: Facts): Reason {
    if facts.unavailableSource == [] then FactsUnavailable(HOST_INDEX) else FactsUnavailable(facts.unavailableSource)
  }

  /** How many groups fail before one matches, all of them when none does. */
  function FailsBefore(scope: Scope, facts: Facts): (n: nat)
    ensures n <= |scope| && AllFail(scope[..n], facts) && (n < |scope| ==> VerdictOf(scope[n], facts).Matched?)
  {
    if scope == [] || VerdictOf(scope[0], facts).Matched? then 0
    else
      var n := FailsBefore(scope[1..], facts);
      assert scope[..n + 1] == [scope[0]] + scope[1..][..n];
      n + 1
  }

  function ReportOf(reason: Reason, last: Verdict): Report
    requires last.Failed?
  {
    match reason
    case ObjectIdentityMissing => Missing(last.at.identityFields)
    case ObjectIdentityUnmatched => Unmatched(last.candidates, last.at.keys)
    case _ => NoReport
  }

  /** The target filter's whole answer. */
  function Admission(target: Option<Scope>, given: Option<Facts>): Decision {
    match target
    case None => Decision(true, NoReason, NoReport)
    case Some(scope) =>
      var facts := if given.Some? then given.value else NO_FACTS;
      if scope == [] then Decision(false, ScopeEmpty, NoReport)
      else if facts.hostFactsUnavailable then Decision(true, UnavailableReason(facts), NoReport)
      else
        var n := FailsBefore(scope, facts);
        if n < |scope| then Decision(true, NoReason, if VerdictOf(scope[n], facts).objectIdentity then Admitted else NoReport)
        else
          assert scope[..n] == scope;
          var reason := RejectionReason(scope, facts);
          Decision(false, reason, ReportOf(reason, VerdictOf(scope[|scope| - 1], facts)))
  }

  method Admit(target: Option<Scope>, given: Option<Facts>) returns (decision: Decision)
    ensures decision == Admission(target, given)
  {
    hide VerdictOf, AnyUndecided, OneKind, OwnReason;
    if target.None? {
      return Decision(true, NoReason, NoReport);
    }
    var scope := target.value;
    if |scope| == 0 {
      return Decision(false, ScopeEmpty, NoReport);
    }
    var facts := if given.Some? then given.value else NO_FACTS;
    if facts.hostFactsUnavailable {
      return Decision(true, UnavailableReason(facts), NoReport);
    }
    var trace := new MatchTrace();
    NothingTraced(facts);
    var n := 0;
    while n < |scope|
      invariant 0 <= n <= |scope| && trace.Traces(scope[..n], facts)
      modifies trace
    {
      var matched := Matches(scope[n], facts, trace, scope[..n]);
      if matched {
        FailsBeforeIs(scope, facts, n);
        return Decision(true, NoReason, if trace.objectIdentityHit then Admitted else NoReport);
      }
      assert scope[..n + 1] == scope[..n] + [scope[n]];
      n := n + 1;
    }
    assert scope[..n] == scope;
    FailsBeforeIs(scope, facts, n);
    var reason := trace.Reason();
    OneKindOneName(scope, facts);
    var report := NoReport;
    match reason {
      case ObjectIdentityMissing => report := Missing(trace.failed.value.identityFields);
      case ObjectIdentityUnmatched => report := Unmatched(trace.candidates, trace.failed.value.keys);
      case _ =>
    }
    decision := Decision(false, reason, report);
  }

  lemma NothingTraced(facts: Facts)
    ensures AllFail([], facts) && !AnyUndecided([], facts)
  {
  }

  lemma {:induction false} FailsBeforeIs(scope: Scope, facts: Facts, n: nat)
    requires n <= |scope| && AllFail(scope[..n], facts) && (n < |scope| ==> VerdictOf(scope[n], facts).Matched?)
    ensures FailsBefore(scope, facts) == n
  {
    hide VerdictOf;
    if n > 0 {
      assert scope[0] in scope[..n];
      assert scope[1..][..n - 1] == scope[..n][1..];
      assert forall g <- scope[1..][..n - 1] :: g in scope[..n];
      FailsBeforeIs(scope[1..], facts, n - 1);
    }
  }

  /** Failures of one kind have one name. */
  lemma OneKindOneName(scope: Scope, facts: Facts)
    requires scope != [] && AllFail(scope, facts)
    ensures OneKind(scope, facts) ==> OwnReason(VerdictOf(scope[|scope| - 1], facts)) == OwnReason(VerdictOf(scope[0], facts))
    ensures var v := VerdictOf(scope[|scope| - 1], facts); OwnReason(v) == OwnReason(Failed(v.at, v.absent, v.candidates, false))
  {
    hide VerdictOf;
    assert scope[0] in scope && scope[|scope| - 1] in scope;
  }

  // ---------- What an answer holds of the groups that were not read ----------

  /** A scope as it is frozen: only a dynamic group's members can be unknown. */
  predicate Frozen(scope: Scope) {
    forall group <- scope, c <- group :: c.membershipUnknown ==> c.field == DynamicGroup
  }

  predicate GroupHolds(group: Group, facts: Facts, filling: Filling) {
    forall c <- group :: ConditionHolds(c, facts, filling)
  }

  /** The keys read are keys the condition has, all of them when every group was read. */
  lemma KeysRead(c: Condition, lookup: Lookup, filling: Filling)
    requires Fills(lookup, filling) && (c.membershipUnknown ==> c.field == DynamicGroup)
    ensures var r := WithMemberships(c, lookup);
            && r.keys <= KeysUnder(c, filling)
            && (!r.membershipUnknown ==> r.keys == KeysUnder(c, filling))
            && (r.membershipUnknown ==> r.field == DynamicGroup)
  {
    if c.field == DynamicGroup {
      var r := WithMemberships(c, lookup);
      forall host | host in r.keys ensures host in KeysUnder(c, filling) {
        var id :| id in c.groupIds && id in lookup && host in lookup[id].hosts;
        assert host in HostSet(lookup[id]);
      }
      if !r.membershipUnknown {
        forall host | host in KeysUnder(c, filling) ensures host in r.keys {
          var id :| id in c.groupIds && host in filling(id);
          assert !Unread(lookup, id);
          assert host in HostSet(lookup[id]);
        }
      }
    }
  }

  lemma MoreKeysHit(candidates: seq<Bytes>, keys: set<Bytes>, more: set<Bytes>)
    requires keys <= more && Hits(candidates, keys)
    ensures Hits(candidates, more)
  {
  }

  /** One condition of a group as read against the condition as it really is. */
  lemma ConditionSound(c: Condition, lookup: Lookup, facts: Facts, filling: Filling)
    requires Fills(lookup, filling) && (c.membershipUnknown ==> c.field == DynamicGroup)
    ensures var r := WithMemberships(c, lookup);
            match RowFor(c.field)
            case None => !ConditionHolds(c, facts, filling)
            case Some(row) =>
              var candidates := CandidatesOf(facts, r, row.source);
              && (candidates == [] ==> (ConditionHolds(c, facts, filling) <==> row.absence == SkipCondition))
              && (candidates != [] && !r.membershipUnknown ==> (ConditionHolds(c, facts, filling) <==> Hits(candidates, r.keys) == (r.sense != Exclude)))
              && (candidates != [] && r.sense == Include && Hits(candidates, r.keys) ==> ConditionHolds(c, facts, filling))
  {
    hide Hits, KeysUnder, RowFor, Fills;
    KeysRead(c, lookup, filling);
    var r := WithMemberships(c, lookup);
    if RowFor(c.field).Some? {
      var candidates := CandidatesOf(facts, r, RowFor(c.field).value.source);
      SameCandidates(c, lookup, facts, RowFor(c.field).value.source);
      if Hits(candidates, r.keys) {
        MoreKeysHit(candidates, r.keys, KeysUnder(c, filling));
      }
    }
  }

  lemma SameCandidates(c: Condition, lookup: Lookup, facts: Facts, source: Source)
    ensures CandidatesOf(facts, WithMemberships(c, lookup), source) == CandidatesOf(facts, c, source)
    ensures WithMemberships(c, lookup).field == c.field && WithMemberships(c, lookup).sense == c.sense
  {
    hide ObjectIdentityKeys;
  }

  predicate EveryGroupRead(group: Group, lookup: Lookup) {
    forall c <- group :: c.field == DynamicGroup ==> forall id <- c.groupIds :: !Unread(lookup, id)
  }

  /** What trying a group says of it, whatever its unread groups hold. */
  lemma {:induction false} VerdictSound(group: Group, lookup: Lookup, facts: Facts, filling: Filling, objectIdentity: bool)
    requires Fills(lookup, filling) && forall c <- group :: c.membershipUnknown ==> c.field == DynamicGroup
    ensures var v := MatchFrom(ResolveGroup(group, lookup), facts, objectIdentity);
            && (v.Matched? ==> GroupHolds(group, facts, filling))
            && (v.Failed? && !v.undecided ==> !GroupHolds(group, facts, filling))
            && (v.Failed? && EveryGroupRead(group, lookup) ==> !v.undecided)
    decreases |group|
  {
    hide Hits, CandidatesOf, ConditionHolds, RowFor, Fills, GroupHolds, EveryGroupRead, WithMemberships, ResolveGroup;
    if group == [] {
      NoConditions(lookup, facts, filling);
    } else {
      var rest := group[1..];
      GroupFirst(group, lookup, facts, filling);
      ConditionSound(group[0], lookup, facts, filling);
      SameField(group[0], lookup);
      VerdictSound(rest, lookup, facts, filling, objectIdentity);
      if RowFor(group[0].field).Some? {
        VerdictSound(rest, lookup, facts, filling, objectIdentity || RowFor(group[0].field).value.source.DimensionPairs?);
      }
    }
  }

  lemma NoConditions(lookup: Lookup, facts: Facts, filling: Filling)
    ensures ResolveGroup([], lookup) == [] && GroupHolds([], facts, filling)
  {
  }

  /** A group in its first condition and the rest. */
  lemma GroupFirst(group: Group, lookup: Lookup, facts: Facts, filling: Filling)
    requires group != [] && forall c <- group :: c.membershipUnknown ==> c.field == DynamicGroup
    ensures var read := ResolveGroup(group, lookup);
            && read[0] == WithMemberships(group[0], lookup) && read[1..] == ResolveGroup(group[1..], lookup)
            && (EveryGroupRead(group, lookup) ==> !read[0].membershipUnknown && EveryGroupRead(group[1..], lookup))
    ensures GroupHolds(group, facts, filling) <==> ConditionHolds(group[0], facts, filling) && GroupHolds(group[1..], facts, filling)
    ensures group[0] in group && forall c <- group[1..] :: c in group
  {
    hide ConditionHolds, Unread;
    assert group == [group[0]] + group[1..];
    assert group[0] in group;
    if EveryGroupRead(group, lookup) {
      ReadIsKnown(group, lookup);
    }
  }

  lemma SameField(c: Condition, lookup: Lookup)
    ensures WithMemberships(c, lookup).field == c.field && WithMemberships(c, lookup).sense == c.sense
  {
  }

  lemma ReadIsKnown(group: Group, lookup: Lookup)
    requires group != [] && EveryGroupRead(group, lookup) && (group[0].membershipUnknown ==> group[0].field == DynamicGroup)
    ensures !WithMemberships(group[0], lookup).membershipUnknown
  {
    hide Unread;
    assert group[0] in group;
  }

  function FactsOf(given: Option<Facts>): Facts {
    if given.Some? then given.value else NO_FACTS
  }

  lemma GroupSound(scope: Scope, g: nat, lookup: Lookup, facts: Facts, filling: Filling)
    requires Frozen(scope) && Fills(lookup, filling) && g < |scope|
    ensures var v := VerdictOf(Resolve(scope, lookup)[g], facts);
            && (v.Matched? ==> GroupHolds(scope[g], facts, filling))
            && (v.Failed? && !v.undecided ==> !GroupHolds(scope[g], facts, filling))
            && (v.Failed? && EveryGroupRead(scope[g], lookup) ==> !v.undecided)
  {
    hide GroupHolds, EveryGroupRead, ResolveGroup, Fills;
    assert scope[g] in scope;
    assert Resolve(scope, lookup)[g] == ResolveGroup(scope[g], lookup);
    VerdictSound(scope[g], lookup, facts, filling, false);
  }

  lemma ScopeHolds(scope: Scope, facts: Facts, filling: Filling)
    ensures InScope(scope, facts, filling) <==> exists g :: 0 <= g < |scope| && GroupHolds(scope[g], facts, filling)
  {
    hide ConditionHolds;
    if InScope(scope, facts, filling) {
      var group :| group in scope && forall c <- group :: ConditionHolds(c, facts, filling);
      var g :| 0 <= g < |scope| && scope[g] == group;
      assert GroupHolds(scope[g], facts, filling);
    }
    if exists g :: 0 <= g < |scope| && GroupHolds(scope[g], facts, filling) {
      var g :| 0 <= g < |scope| && GroupHolds(scope[g], facts, filling);
      assert scope[g] in scope;
    }
  }

  /** A record admitted with the members that were read is in the target whatever the rest of them are. */
  lemma AdmittedIsInside(scope: Scope, lookup: Lookup, given: Option<Facts>, filling: Filling)
    requires Frozen(scope) && Fills(lookup, filling) && !FactsOf(given).hostFactsUnavailable
    requires Admission(Some(Resolve(scope, lookup)), given).admit
    ensures InScope(scope, FactsOf(given), filling)
  {
    hide VerdictOf, GroupHolds, EveryGroupRead, Resolve, InScope, Fills;
    var facts, read := FactsOf(given), Resolve(scope, lookup);
    var n := FailsBefore(read, facts);
    GroupSound(scope, n, lookup, facts, filling);
    ScopeHolds(scope, facts, filling);
  }

  /** A record refused for any reason but a group that was not read is outside it whatever the rest of them are. */
  lemma RefusedIsOutside(scope: Scope, lookup: Lookup, given: Option<Facts>, filling: Filling)
    requires Frozen(scope) && Fills(lookup, filling)
    requires var decision := Admission(Some(Resolve(scope, lookup)), given); !decision.admit && decision.reason != DynamicGroupUnavailable
    ensures !InScope(scope, FactsOf(given), filling)
  {
    hide VerdictOf, GroupHolds, EveryGroupRead, Resolve, InScope, Fills, OneKind, OwnReason;
    var facts, read := FactsOf(given), Resolve(scope, lookup);
    ScopeHolds(scope, facts, filling);
    if scope != [] {
      assert read[..|read|] == read;
      forall g | 0 <= g < |scope| ensures !GroupHolds(scope[g], facts, filling) {
        assert read[g] in read;
        GroupSound(scope, g, lookup, facts, filling);
      }
    }
  }

  /** With every group read, the answer is the plain target's own, and no group is named for it. */
  lemma AllReadIsPlain(scope: Scope, lookup: Lookup, given: Option<Facts>, filling: Filling)
    requires Frozen(scope) && Fills(lookup, filling) && !FactsOf(given).hostFactsUnavailable
    requires forall group <- scope :: EveryGroupRead(group, lookup)
    ensures var decision := Admission(Some(Resolve(scope, lookup)), given);
            && (decision.admit <==> InScope(scope, FactsOf(given), filling))
            && decision.reason != DynamicGroupUnavailable
  {
    hide VerdictOf, GroupHolds, EveryGroupRead, Resolve, InScope, Fills, OneKind;
    var facts, read := FactsOf(given), Resolve(scope, lookup);
    var decision := Admission(Some(read), given);
    if decision.admit {
      AdmittedIsInside(scope, lookup, given, filling);
    } else {
      if scope != [] {
        assert read[..|read|] == read;
        if AnyUndecided(read, facts) {
          var group :| group in read && VerdictOf(group, facts).undecided;
          var g :| 0 <= g < |read| && read[g] == group;
          assert scope[g] in scope;
          GroupSound(scope, g, lookup, facts, filling);
        }
        OwnIsNotGroups(VerdictOf(read[0], facts)) by {
          assert read[0] in read;
        }
      }
      RefusedIsOutside(scope, lookup, given, filling);
    }
  }

  lemma OwnIsNotGroups(v: Verdict)
    requires v.Failed?
    ensures OwnReason(v) != DynamicGroupUnavailable && OwnReason(v) != ScopeEmpty && OwnReason(v) != NoReason && !OwnReason(v).FactsUnavailable?
  {
  }

  // ---------- What a rejection can be acted on as ----------

  datatype Filter = TargetScopeName | TargetPlanName | AnotherFilter(name: Bytes)

  datatype PlanReason = KeyMissing | OutOfTarget | PlanUnresolved | SelectorUnavailable | OtherPlanReason(name: Bytes)

  /** A rejection's reason, of either target filter. */
  datatype RejectionReasons = ScopeReason(scope: Reason) | PlanReasons(plan: PlanReason)

  /** A target resolved to members: whether it says it is definitive, if it says so at all. */
  datatype Plan = Plan(hostIdentity: bool, address: bool, members: Option<Option<bool>>)

  datatype Standing = NotTarget | Definitive | CacheUnavailable | Indefinite

  function LookupKey(facts: Facts): Option<Bytes> {
    if facts.idKey != [] then Some(facts.idKey)
    else if facts.namedAddress && facts.namedCloud && facts.addressKey != [] then Some(facts.addressKey)
    else None
  }

  /** The record names a host that the cache did not place. */
  predicate HostNotPlaced(facts: Facts) {
    facts.hostUnresolved || (LookupKey(facts).Some? && !facts.hostResolved)
  }

  function RejectionStandingOf(plan: Option<Plan>, given: Option<Facts>, filter: Filter, reason: RejectionReasons): Standing {
    match filter
    case TargetScopeName =>
      if given.None? || given.value.hostFactsUnavailable then CacheUnavailable
      else if reason == ScopeReason(DynamicGroupUnavailable) then CacheUnavailable
      else if reason != ScopeReason(OutOfScope) then Indefinite
      else if HostNotPlaced(given.value) then CacheUnavailable
      else Definitive
    case TargetPlanName =>
      if given.None? || given.value.hostFactsUnavailable || plan.None? || plan.value.members.None? then CacheUnavailable
      else if reason == PlanReasons(SelectorUnavailable) then CacheUnavailable
      else if reason != PlanReasons(OutOfTarget) then Indefinite
      else if (plan.value.hostIdentity || plan.value.address) && HostNotPlaced(given.value) then CacheUnavailable
      else if plan.value.members.value != Some(true) then CacheUnavailable
      else Definitive
    case AnotherFilter(_) => NotTarget
  }

  predicate DefinitelyOutside(plan: Option<Plan>, given: Option<Facts>, filter: Filter, reason: RejectionReasons) {
    RejectionStandingOf(plan, given, filter, reason) == Definitive
  }

  /**
   * A rejection that stands as the target's own verdict was decided on facts that were read, about a
   * record whose host, if it names one, was placed, and holds whatever the unread groups hold.
   */
  lemma DefinitiveIsOutside(plan: Option<Plan>, scope: Scope, lookup: Lookup, given: Option<Facts>, filling: Filling)
    requires Frozen(scope) && Fills(lookup, filling)
    requires var decision := Admission(Some(Resolve(scope, lookup)), given);
             !decision.admit && DefinitelyOutside(plan, given, TargetScopeName, ScopeReason(decision.reason))
    ensures given.Some? && !given.value.hostFactsUnavailable && !HostNotPlaced(given.value)
    ensures !InScope(scope, given.value, filling)
  {
    hide Admission, InScope, Fills, Resolve;
    RefusedIsOutside(scope, lookup, given, filling);
  }

  /** Facts that could not be consulted admit every record and never stand as a verdict. */
  lemma UnreadFactsDecideNothing(plan: Option<Plan>, scope: Scope, facts: Facts, filter: Filter, reason: RejectionReasons)
    requires facts.hostFactsUnavailable
    ensures scope != [] ==> Admission(Some(scope), Some(facts)).admit
    ensures !DefinitelyOutside(plan, Some(facts), filter, reason)
  {
  }
}
