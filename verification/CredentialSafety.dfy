/** What every run of the scripts keeps: the index is exactly the pairings that can still be used. */
module CredentialSafety {
  import opened Bytes
  import opened CredentialStore

  // ---------- Runs ----------

  /** The store, how far its clock has come, and every name drawn so far. */
  datatype World = World(state: State, now: int, names: set<Bytes>)

  const START := World(EMPTY, 0, {})

  /** The names a call makes. */
  function Drawn(op: Op): seq<Bytes> {
    match op
    case Issue(_, _, grant, _) => [grant]
    case Exchange(_, _, _, _, session, sessionId, credential, pairingId) => [session, sessionId, credential, pairingId]
    case Refresh(_, _, _, next, session, sessionId) => [next, session, sessionId]
    case Upgrade(_, _, _, credential, pairingId) => [credential, pairingId]
    case _ => []
  }

  function DrawnSet(op: Op): set<Bytes> {
    set name | name in Drawn(op)
  }

  /** The clock does not go back, and a drawn name is new: non-empty, drawn never before and not twice at once. */
  predicate Admissible(w: World, op: Op) {
    && w.now <= op.now
    && (forall name <- Drawn(op) :: name != [] && name !in w.names)
    && (forall i, j :: 0 <= i < j < |Drawn(op)| ==> Drawn(op)[i] != Drawn(op)[j])
  }

  function Next(w: World, op: Op): World {
    World(Step(w.state, op).0, op.now, w.names + DrawnSet(op))
  }

  predicate AdmissibleRun(w: World, ops: seq<Op>)
    decreases |ops|
  {
    ops == [] || (Admissible(w, ops[0]) && AdmissibleRun(Next(w, ops[0]), ops[1..]))
  }

  function Run(w: World, ops: seq<Op>): World
    decreases |ops|
  {
    if ops == [] then w else Run(Next(w, ops[0]), ops[1..])
  }

  // ---------- The invariant ----------

  /** A grant is gone exactly when it says so; it has been drawn, and is of no epoch to come. */
  predicate GrantsOk(grants: map<Bytes, Kept<Grant>>, epoch: int, names: set<Bytes>) {
    forall k :: k in grants ==>
      grants[k].deadline == grants[k].value.expiresAt && grants[k].value.epoch <= epoch && k in names
  }

  predicate SessionsOk(sessions: map<Bytes, Kept<Session>>, epoch: int, names: set<Bytes>) {
    forall k :: k in sessions ==>
      sessions[k].deadline == sessions[k].value.expiresAt && sessions[k].value.epoch <= epoch && k in names
  }

  /** A spent credential is no credential any more. */
  predicate SpentOk(spent: map<Bytes, Kept<Sealed>>, credentials: set<Bytes>, names: set<Bytes>) {
    forall k :: k in spent ==> k !in credentials && spent[k].value.spent == k && k in names && spent[k].value.access in names
  }

  type Pairings = map<Bytes, Kept<Pairing>>

  type Index = map<Bytes, int>

  predicate PairingOk(kept: Kept<Pairing>, epoch: int, names: set<Bytes>, now: int) {
    && kept.deadline == kept.value.lastUsedAt + PAIRING_IDLE_LIFETIME && kept.value.lastUsedAt <= now
    && kept.value.epoch <= epoch && kept.value.id in names
  }

  predicate PairingsOk(pairings: Pairings, epoch: int, names: set<Bytes>, now: int) {
    forall k :: k in pairings ==> k in names && PairingOk(pairings[k], epoch, names, now)
  }

  predicate OneCredential(pairings: Pairings) {
    forall k, l :: k in pairings && l in pairings && pairings[k].value.id == pairings[l].value.id ==> k == l
  }

  /** Whether a credential can be used: its key has not gone and no revocation has come since. */
  predicate Usable(pairings: Pairings, epoch: int, credential: Bytes, now: int) {
    Live(pairings, credential, now) && pairings[credential].value.epoch == epoch
  }

  predicate At(index: Index, id: Bytes, score: int) {
    id in index && index[id] == score
  }

  /** Every credential that can be used is in the index, at its last use. */
  ghost predicate Listed(pairings: Pairings, index: Index, epoch: int, now: int) {
    forall k :: Usable(pairings, epoch, k, now) ==> At(index, pairings[k].value.id, pairings[k].value.lastUsedAt)
  }

  predicate Holds(pairings: Pairings, epoch: int, id: Bytes, score: int, k: Bytes) {
    k in pairings && pairings[k].value.id == id && pairings[k].value.epoch == epoch && pairings[k].value.lastUsedAt == score
  }

  ghost predicate Held(pairings: Pairings, epoch: int, id: Bytes, score: int) {
    exists k :: Holds(pairings, epoch, id, score, k)
  }

  /** Every place in the index is some credential's, of this epoch and last used then. */
  ghost predicate Backed(pairings: Pairings, index: Index, epoch: int) {
    forall id :: id in index ==> Held(pairings, epoch, id, index[id])
  }

  ghost predicate IndexOk(pairings: Pairings, index: Index, epoch: int, names: set<Bytes>, now: int) {
    && PairingsOk(pairings, epoch, names, now) && OneCredential(pairings)
    && Listed(pairings, index, epoch, now) && Backed(pairings, index, epoch) && |index| <= MAX_PAIRINGS
  }

  ghost predicate Inv(w: World) {
    && GrantsOk(w.state.grants, w.state.epoch, w.names)
    && SessionsOk(w.state.sessions, w.state.epoch, w.names)
    && SpentOk(w.state.spent, w.state.pairings.Keys, w.names)
    && IndexOk(w.state.pairings, w.state.index, w.state.epoch, w.names, w.now)
    && [] !in w.names
  }

  // ---------- Maps ----------

  lemma {:induction false} FewerKeys<K, V>(a: map<K, V>, b: map<K, V>)
    requires a.Keys <= b.Keys
    ensures |a| <= |b|
  {
    SmallerSet(a.Keys, b.Keys);
    assert |a| == |a.Keys| && |b| == |b.Keys|;
  }

  lemma {:induction false} SmallerSet<T>(a: set<T>, b: set<T>)
    requires a <= b
    ensures |a| <= |b|
  {
    assert b == a + (b - a);
  }

  lemma OneMore<K, V>(m: map<K, V>, key: K, value: V)
    ensures |m[key := value]| == if key in m then |m| else |m| + 1
  {
    assert m[key := value].Keys == m.Keys + {key};
    assert |m| == |m.Keys| && |m[key := value]| == |m[key := value].Keys|;
  }

  // ---------- The index and the pairings ----------

  /** Time, new names and a later epoch's absence leave every pairing sound. */
  lemma PairingsLater(pairings: Pairings, epoch: int, later: int, names: set<Bytes>, more: set<Bytes>, was: int, now: int)
    requires PairingsOk(pairings, epoch, names, was) && was <= now && epoch <= later
    ensures PairingsOk(pairings, later, names + more, now)
  {
  }

  lemma ListedLater(pairings: Pairings, index: Index, epoch: int, was: int, now: int)
    requires Listed(pairings, index, epoch, was) && was <= now
    ensures Listed(pairings, index, epoch, now)
  {
    hide At;
    forall k | Usable(pairings, epoch, k, now) ensures Usable(pairings, epoch, k, was) {
    }
  }

  lemma IndexLater(pairings: Pairings, index: Index, epoch: int, names: set<Bytes>, more: set<Bytes>, was: int, now: int)
    requires IndexOk(pairings, index, epoch, names, was) && was <= now
    ensures IndexOk(pairings, index, epoch, names + more, now)
  {
    hide PairingsOk, OneCredential, Listed, Backed;
    PairingsLater(pairings, epoch, epoch, names, more, was, now);
    ListedLater(pairings, index, epoch, was, now);
  }

  /** Forgetting what has gone unused forgets no credential that can be used. */
  lemma RecentOk(pairings: Pairings, index: Index, epoch: int, names: set<Bytes>, now: int)
    requires IndexOk(pairings, index, epoch, names, now)
    ensures IndexOk(pairings, Recent(index, now), epoch, names, now)
  {
    hide OneCredential, Held;
    var recent := Recent(index, now);
    FewerKeys(recent, index);
    forall k | Usable(pairings, epoch, k, now) ensures At(recent, pairings[k].value.id, pairings[k].value.lastUsedAt) {
      assert At(index, pairings[k].value.id, pairings[k].value.lastUsedAt);
      assert PairingOk(pairings[k], epoch, names, now);
    }
    assert Backed(pairings, recent, epoch);
  }

  /** A new pairing takes one place in the index. */
  lemma AddOk(pairings: Pairings, index: Index, epoch: int, names: set<Bytes>, now: int, credential: Bytes, pairing: Pairing)
    requires IndexOk(pairings, index, epoch, names, now) && |index| < MAX_PAIRINGS
    requires credential !in names && pairing.id !in names && pairing.epoch == epoch && pairing.lastUsedAt == now
    ensures IndexOk(pairings[credential := Kept(pairing, now + PAIRING_IDLE_LIFETIME)], index[pairing.id := now], epoch,
                    names + {credential, pairing.id}, now)
  {
    var kept := Kept(pairing, now + PAIRING_IDLE_LIFETIME);
    OneMore(index, pairing.id, now);
    AddPairingsOk(pairings, epoch, names, now, credential, kept);
    PutListed(pairings, index, epoch, now, credential, kept) by {
      hide Held, OneCredential, Backed, Listed;
    }
    PutBacked(pairings, index, epoch, credential, kept) by {
      hide Held, OneCredential, Backed, Listed;
    }
  }

  lemma AddPairingsOk(pairings: Pairings, epoch: int, names: set<Bytes>, now: int, credential: Bytes, kept: Kept<Pairing>)
    requires PairingsOk(pairings, epoch, names, now) && OneCredential(pairings)
    requires credential !in names && kept.value.id !in names
    requires PairingOk(kept, epoch, names + {credential, kept.value.id}, now)
    ensures PairingsOk(pairings[credential := kept], epoch, names + {credential, kept.value.id}, now)
    ensures OneCredential(pairings[credential := kept])
  {
  }

  /** A credential last used now is listed when its id is given that score, if no other credential has the id. */
  lemma PutListed(pairings: Pairings, index: Index, epoch: int, now: int, credential: Bytes, kept: Kept<Pairing>)
    requires Listed(pairings, index, epoch, now)
    requires forall k :: k in pairings && k != credential ==> pairings[k].value.id != kept.value.id
    ensures Listed(pairings[credential := kept], index[kept.value.id := kept.value.lastUsedAt], epoch, now)
  {
    var after, listed := pairings[credential := kept], index[kept.value.id := kept.value.lastUsedAt];
    forall k | Usable(after, epoch, k, now) ensures At(listed, after[k].value.id, after[k].value.lastUsedAt) {
      if k != credential {
        assert Usable(pairings, epoch, k, now);
        assert At(index, pairings[k].value.id, pairings[k].value.lastUsedAt);
      }
    }
  }

  lemma PutBacked(pairings: Pairings, index: Index, epoch: int, credential: Bytes, kept: Kept<Pairing>)
    requires Backed(pairings, index, epoch) && kept.value.epoch == epoch
    requires credential !in pairings
    ensures Backed(pairings[credential := kept], index[kept.value.id := kept.value.lastUsedAt], epoch)
  {
    var after, listed := pairings[credential := kept], index[kept.value.id := kept.value.lastUsedAt];
    forall id | id in listed ensures Held(after, epoch, id, listed[id]) {
      if id == kept.value.id {
        assert Holds(after, epoch, id, listed[id], credential);
      } else {
        assert Held(pairings, epoch, id, index[id]);
        var k :| Holds(pairings, epoch, id, index[id], k);
        assert Holds(after, epoch, id, listed[id], k);
      }
    }
  }

  /** A credential is dropped with its place. */
  lemma DropOk(pairings: Pairings, index: Index, epoch: int, names: set<Bytes>, now: int, credential: Bytes)
    requires IndexOk(pairings, index, epoch, names, now) && credential in pairings
    ensures IndexOk(Without(pairings, credential), Without(index, pairings[credential].value.id), epoch, names, now)
  {
    var id := pairings[credential].value.id;
    var after, listed := Without(pairings, credential), Without(index, id);
    FewerKeys(listed, index);
    forall k | Usable(after, epoch, k, now) ensures At(listed, after[k].value.id, after[k].value.lastUsedAt) {
      assert Usable(pairings, epoch, k, now);
      assert At(index, pairings[k].value.id, pairings[k].value.lastUsedAt);
    }
    forall i | i in listed ensures Held(after, epoch, i, listed[i]) {
      assert Held(pairings, epoch, i, index[i]);
      var k :| Holds(pairings, epoch, i, index[i], k);
      assert Holds(after, epoch, i, listed[i], k);
    }
  }

  /** A used credential gives way to the next, in the place it already had. */
  lemma RollOk(pairings: Pairings, index: Index, epoch: int, names: set<Bytes>, now: int, credential: Bytes, next: Bytes)
    requires IndexOk(pairings, index, epoch, names, now) && Usable(pairings, epoch, credential, now) && next !in names
    ensures var rolled := pairings[credential].value.(lastUsedAt := now);
            && rolled.id in index
            && IndexOk(Without(pairings, credential)[next := Kept(rolled, now + PAIRING_IDLE_LIFETIME)], index[rolled.id := now], epoch,
                       names + {next}, now)
  {
    var id := pairings[credential].value.id;
    var kept := Kept(pairings[credential].value.(lastUsedAt := now), now + PAIRING_IDLE_LIFETIME);
    var rest, listed := Without(pairings, credential), index[id := now];
    var after := rest[next := kept];
    assert At(index, id, pairings[credential].value.lastUsedAt);
    OneMore(index, id, now);
    RollPairingsOk(pairings, epoch, names, now, credential, next, kept);
    assert Listed(rest, index, epoch, now) by {
      forall k | Usable(rest, epoch, k, now) ensures At(index, rest[k].value.id, rest[k].value.lastUsedAt) {
        assert Usable(pairings, epoch, k, now);
      }
    }
    PutListed(rest, index, epoch, now, next, kept);
    forall i | i in listed ensures Held(after, epoch, i, listed[i]) {
      if i == id {
        assert Holds(after, epoch, i, listed[i], next);
      } else {
        assert Held(pairings, epoch, i, index[i]);
        var k :| Holds(pairings, epoch, i, index[i], k);
        assert Holds(after, epoch, i, listed[i], k);
      }
    }
  }

  lemma RollPairingsOk(pairings: Pairings, epoch: int, names: set<Bytes>, now: int, credential: Bytes, next: Bytes, kept: Kept<Pairing>)
    requires PairingsOk(pairings, epoch, names, now) && OneCredential(pairings)
    requires credential in pairings && next !in names && kept.value.id == pairings[credential].value.id && PairingOk(kept, epoch, names, now)
    ensures PairingsOk(Without(pairings, credential)[next := kept], epoch, names + {next}, now)
    ensures OneCredential(Without(pairings, credential)[next := kept])
  {
  }

  /** No credential of an epoch that has passed is usable, and nothing is left in the index. */
  lemma RevokeOk(pairings: Pairings, index: Index, epoch: int, names: set<Bytes>, now: int)
    requires IndexOk(pairings, index, epoch, names, now)
    ensures IndexOk(pairings, map[], epoch + 1, names, now)
  {
    forall k | k in pairings ensures !Usable(pairings, epoch + 1, k, now) {
      assert PairingOk(pairings[k], epoch, names, now);
    }
  }

  // ---------- The other keys ----------

  lemma PutSession(sessions: map<Bytes, Kept<Session>>, epoch: int, names: set<Bytes>, key: Bytes, session: Session)
    requires SessionsOk(sessions, epoch, names) && key in names && session.epoch <= epoch
    ensures SessionsOk(sessions[key := Kept(session, session.expiresAt)], epoch, names)
  {
  }

  lemma OthersLater(s: State, epoch: int, credentials: set<Bytes>, names: set<Bytes>, more: set<Bytes>)
    requires s.epoch <= epoch && credentials * names <= s.pairings.Keys
    requires GrantsOk(s.grants, s.epoch, names) && SessionsOk(s.sessions, s.epoch, names) && SpentOk(s.spent, s.pairings.Keys, names)
    ensures GrantsOk(s.grants, epoch, names + more) && SessionsOk(s.sessions, epoch, names + more) && SpentOk(s.spent, credentials, names + more)
  {
  }

  // ---------- Every step keeps the invariant ----------

  lemma IssueKeeps(w: World, op: Op)
    requires Inv(w) && Admissible(w, op) && op.Issue?
    ensures Inv(Next(w, op))
  {
    hide SessionsOk, SpentOk, IndexOk;
    var s := w.state;
    assert Drawn(op)[0] == op.grant;
    OthersLater(s, s.epoch, s.pairings.Keys, w.names, DrawnSet(op)) by {
      hide GrantsOk;
    }
    IndexLater(s.pairings, s.index, s.epoch, w.names, DrawnSet(op), w.now, op.now);
  }

  /** What an exchange does: open a session and maybe a pairing, or no more than trim the index. */
  lemma ExchangeShape(s: State, op: Op)
    requires op.Exchange?
    ensures var (t, reply) := ExchangeStep(s, op);
            var index := Recent(s.index, op.now);
            && (!reply.Opened? ==> t == s || t == s.(index := index))
            && (reply.Opened? ==>
                  && reply.session.epoch == s.epoch && t.epoch == s.epoch && t.spent == s.spent
                  && t.grants == Without(s.grants, op.grant)
                  && t.sessions == s.sessions[op.session := Kept(reply.session, reply.session.expiresAt)]
                  && (reply.paired <==> |index| < MAX_PAIRINGS)
                  && (!reply.paired ==> t.pairings == s.pairings && t.index == index)
                  && (reply.paired ==>
                        var pairing := Pairing(op.pairingId, op.caller.environment, op.caller.scope, s.epoch, op.caller.admin, op.now, op.now);
                        && t.pairings == s.pairings[op.credential := Kept(pairing, op.now + PAIRING_IDLE_LIFETIME)]
                        && t.index == index[op.pairingId := op.now]))
  {
    hide Recent, GrantStands, Without;
  }

  lemma ExchangeKeeps(w: World, op: Op)
    requires Inv(w) && Admissible(w, op) && op.Exchange?
    ensures Inv(Next(w, op))
  {
    hide GrantsOk, SessionsOk, SpentOk, IndexOk, Recent, GrantStands, ExchangeStep, Without;
    ExchangeShape(w.state, op);
    var s, more := w.state, DrawnSet(op);
    var d := Drawn(op);
    assert d[0] == op.session && d[1] == op.sessionId && d[2] == op.credential && d[3] == op.pairingId;
    var others := w.names + {op.session, op.sessionId};
    assert w.names + more == others + {op.credential, op.pairingId};
    var index := Recent(s.index, op.now);
    var (t, reply) := ExchangeStep(s, op);
    assert t.pairings.Keys <= s.pairings.Keys + {op.credential};
    OthersLater(s, s.epoch, t.pairings.Keys, w.names, more);
    IndexLater(s.pairings, s.index, s.epoch, w.names, {}, w.now, op.now);
    RecentOk(s.pairings, s.index, s.epoch, w.names + {}, op.now);
    assert w.names + {} == w.names;
    IndexLater(s.pairings, s.index, s.epoch, w.names, more, op.now, op.now);
    IndexLater(s.pairings, index, s.epoch, w.names, more, op.now, op.now);
    if reply.Opened? {
      PutSession(s.sessions, s.epoch, w.names + more, op.session, reply.session);
      GrantGone(s.grants, s.epoch, w.names + more, op.grant);
      if reply.paired {
        IndexLater(s.pairings, index, s.epoch, w.names, {op.session, op.sessionId}, op.now, op.now);
        AddOk(s.pairings, index, s.epoch, others, op.now, op.credential,
              Pairing(op.pairingId, op.caller.environment, op.caller.scope, s.epoch, op.caller.admin, op.now, op.now));
      }
    }
  }

  lemma GrantGone(grants: map<Bytes, Kept<Grant>>, epoch: int, names: set<Bytes>, key: Bytes)
    requires GrantsOk(grants, epoch, names)
    ensures GrantsOk(Without(grants, key), epoch, names)
  {
  }

  lemma SessionGone(sessions: map<Bytes, Kept<Session>>, epoch: int, names: set<Bytes>, key: Bytes)
    requires SessionsOk(sessions, epoch, names)
    ensures SessionsOk(Without(sessions, key), epoch, names)
  {
  }

  lemma UseSessionKeeps(w: World, op: Op)
    requires Inv(w) && Admissible(w, op) && op.UseSession?
    ensures Inv(Next(w, op))
  {
    hide GrantsOk, SpentOk, SessionsOk, IndexOk, UseSessionStep;
    UseSessionShape(w.state, op);
    var s := w.state;
    assert DrawnSet(op) == {} && w.names + {} == w.names;
    OthersLater(s, s.epoch, s.pairings.Keys, w.names, {});
    IndexLater(s.pairings, s.index, s.epoch, w.names, {}, w.now, op.now);
    SessionGone(s.sessions, s.epoch, w.names, op.session);
    var reply := UseSessionStep(s, op).1;
    if reply.Stands? {
      SessionKnown(s.sessions, s.epoch, w.names, op.session);
      PutSession(s.sessions, s.epoch, w.names, op.session, reply.session);
    }
  }

  /** What using a session does: end it, prolong it, or nothing. */
  lemma UseSessionShape(s: State, op: Op)
    requires op.UseSession?
    ensures var (t, reply) := UseSessionStep(s, op);
            && (reply.Stands? ==>
                  op.session in s.sessions && reply.session.epoch == s.epoch
                  && reply.session == s.sessions[op.session].value.(expiresAt := reply.session.expiresAt))
            && (t == s || (reply.Stands? && t == s.(sessions := Without(s.sessions, op.session)))
                || (reply.Stands? && t == s.(sessions := s.sessions[op.session := Kept(reply.session, reply.session.expiresAt)])))
  {
    hide Without;
  }

  /** What a refresh does: renew in place, drop, or nothing. */
  lemma RefreshShape(s: State, op: Op)
    requires op.Refresh?
    ensures var (t, reply) := RefreshStep(s, op);
            && (reply.Renewed? ==>
                  && Usable(s.pairings, s.epoch, op.credential, op.now) && reply.session.epoch == s.epoch
                  && var rolled := s.pairings[op.credential].value.(lastUsedAt := op.now);
                     var kept := Kept(Sealed(op.credential, op.session, op.next, op.sessionId), op.now + RENEWAL_REPLAY_GRACE);
                     t == s.(pairings := Without(s.pairings, op.credential)[op.next := Kept(rolled, op.now + PAIRING_IDLE_LIFETIME)],
                             sessions := s.sessions[op.session := Kept(reply.session, reply.session.expiresAt)],
                             spent := s.spent[op.credential := kept],
                             index := s.index[rolled.id := op.now]))
            && (!reply.Renewed? ==> t == s || (op.credential in s.pairings && t == Drop(s, op.credential, s.pairings[op.credential].value.id)))
  {
  }

  /** What an upgrade does: pair the session, trim the index, or nothing. */
  lemma UpgradeShape(s: State, op: Op)
    requires op.Upgrade?
    ensures var (t, reply) := UpgradeStep(s, op);
            var index := Recent(s.index, op.now);
            && (reply.Paired? ==>
                  && |index| < MAX_PAIRINGS && reply.session.epoch == s.epoch && op.session in s.sessions
                  && reply.session == s.sessions[op.session].value.(pairing := Some(op.pairingId))
                  && var pairing := Pairing(op.pairingId, op.caller.environment, op.caller.scope, s.epoch, op.caller.admin, op.now, op.now);
                     t == s.(pairings := s.pairings[op.credential := Kept(pairing, op.now + PAIRING_IDLE_LIFETIME)],
                             sessions := s.sessions[op.session := Kept(reply.session, reply.session.expiresAt)],
                             index := index[op.pairingId := op.now]))
            && (!reply.Paired? ==> t == s || t == s.(index := index))
  {
    hide Recent;
  }

  lemma RefreshKeeps(w: World, op: Op)
    requires Inv(w) && Admissible(w, op) && op.Refresh?
    ensures Inv(Next(w, op))
  {
    hide GrantsOk, SessionsOk, SpentOk, IndexOk, RefreshStep, Usable;
    RefreshShape(w.state, op);
    var s, more := w.state, DrawnSet(op);
    var d := Drawn(op);
    assert d[0] == op.next && d[1] == op.session && d[2] == op.sessionId;
    var (t, reply) := RefreshStep(s, op);
    assert t.pairings.Keys <= s.pairings.Keys + {op.next};
    OthersLater(s, s.epoch, t.pairings.Keys, w.names, more);
    IndexLater(s.pairings, s.index, s.epoch, w.names, {}, w.now, op.now);
    assert w.names + {} == w.names;
    IndexLater(s.pairings, s.index, s.epoch, w.names, more, op.now, op.now);
    if reply.Renewed? {
      RollOk(s.pairings, s.index, s.epoch, w.names, op.now, op.credential, op.next);
      IndexLater(t.pairings, t.index, s.epoch, w.names + {op.next}, more, op.now, op.now);
      assert w.names + {op.next} + more == w.names + more;
      PutSession(s.sessions, s.epoch, w.names + more, op.session, reply.session);
      CredentialKnown(w, op.credential) by {
        UsableThere(s.pairings, s.epoch, op.credential, op.now);
      }
      SpendOk(s.spent, t.pairings.Keys, w.names + more, op.credential, t.spent[op.credential]);
    } else if op.credential in s.pairings {
      DropOk(s.pairings, s.index, s.epoch, w.names + more, op.now, op.credential);
    }
  }

  lemma UsableThere(pairings: Pairings, epoch: int, credential: Bytes, now: int)
    requires Usable(pairings, epoch, credential, now)
    ensures credential in pairings
  {
  }

  lemma CredentialKnown(w: World, k: Bytes)
    requires Inv(w) && k in w.state.pairings
    ensures k in w.names
  {
    hide GrantsOk, SessionsOk, SpentOk, OneCredential, Listed, Backed;
  }

  lemma SpendOk(spent: map<Bytes, Kept<Sealed>>, credentials: set<Bytes>, names: set<Bytes>, k: Bytes, kept: Kept<Sealed>)
    requires SpentOk(spent, credentials, names) && k !in credentials && k in names && kept.value.access in names && kept.value.spent == k
    ensures SpentOk(spent[k := kept], credentials, names)
  {
  }

  lemma UpgradeKeeps(w: World, op: Op)
    requires Inv(w) && Admissible(w, op) && op.Upgrade?
    ensures Inv(Next(w, op))
  {
    hide GrantsOk, SpentOk, SessionsOk, IndexOk, Recent, UpgradeStep;
    UpgradeShape(w.state, op);
    var s, more := w.state, DrawnSet(op);
    var d := Drawn(op);
    assert d[0] == op.credential && d[1] == op.pairingId;
    assert more == {op.credential, op.pairingId};
    var index := Recent(s.index, op.now);
    var (t, reply) := UpgradeStep(s, op);
    assert t.pairings.Keys <= s.pairings.Keys + {op.credential};
    OthersLater(s, s.epoch, t.pairings.Keys, w.names, more);
    IndexLater(s.pairings, s.index, s.epoch, w.names, {}, w.now, op.now);
    RecentOk(s.pairings, s.index, s.epoch, w.names + {}, op.now);
    assert w.names + {} == w.names;
    IndexLater(s.pairings, s.index, s.epoch, w.names, more, op.now, op.now);
    IndexLater(s.pairings, index, s.epoch, w.names, more, op.now, op.now);
    if reply.Paired? {
      SessionKnown(s.sessions, s.epoch, w.names, op.session);
      PutSession(s.sessions, s.epoch, w.names + more, op.session, reply.session);
      AddOk(s.pairings, index, s.epoch, w.names, op.now, op.credential,
            Pairing(op.pairingId, op.caller.environment, op.caller.scope, s.epoch, op.caller.admin, op.now, op.now));
    }
  }

  lemma SessionKnown(sessions: map<Bytes, Kept<Session>>, epoch: int, names: set<Bytes>, k: Bytes)
    requires SessionsOk(sessions, epoch, names) && k in sessions
    ensures k in names && sessions[k].value.epoch <= epoch
  {
  }

  lemma RevokeAllNext(w: World, op: Op)
    requires op.RevokeAll?
    ensures Next(w, op) == World(w.state.(epoch := w.state.epoch + 1, index := map[]), op.now, w.names)
  {
    assert DrawnSet(op) == {} && w.names + {} == w.names;
  }

  lemma RevokeAllKeeps(w: World, op: Op)
    requires Inv(w) && Admissible(w, op) && op.RevokeAll?
    ensures Inv(Next(w, op))
  {
    hide GrantsOk, SessionsOk, SpentOk, IndexOk, Next;
    var s := w.state;
    RevokeAllNext(w, op);
    assert w.names + {} == w.names;
    OthersLater(s, s.epoch + 1, s.pairings.Keys, w.names, {});
    IndexLater(s.pairings, s.index, s.epoch, w.names, {}, w.now, op.now);
    RevokeOk(s.pairings, s.index, s.epoch, w.names, op.now);
  }

  lemma ActiveKeeps(w: World, op: Op)
    requires Inv(w) && Admissible(w, op) && op.Active?
    ensures Inv(Next(w, op))
  {
    hide GrantsOk, SessionsOk, SpentOk, IndexOk, Recent;
    var s := w.state;
    assert Step(s, op).0 == s.(index := Recent(s.index, op.now));
    assert DrawnSet(op) == {} && w.names + {} == w.names;
    OthersLater(s, s.epoch, s.pairings.Keys, w.names, {});
    IndexLater(s.pairings, s.index, s.epoch, w.names, {}, w.now, op.now);
    RecentOk(s.pairings, s.index, s.epoch, w.names, op.now);
  }

  lemma ForgetKeeps(w: World, op: Op)
    requires Inv(w) && Admissible(w, op) && op.Forget?
    ensures Inv(Next(w, op))
  {
    hide GrantsOk, SessionsOk, SpentOk, IndexOk, Without;
    var s := w.state;
    assert DrawnSet(op) == {} && w.names + {} == w.names;
    IndexLater(s.pairings, s.index, s.epoch, w.names, {}, w.now, op.now);
    if Next(w, op).state != s {
      DropOk(s.pairings, s.index, s.epoch, w.names, op.now, op.credential);
      FewerCredentials(s.pairings, op.credential);
      OthersLater(s, s.epoch, Without(s.pairings, op.credential).Keys, w.names, {});
    }
  }

  lemma FewerCredentials(pairings: Pairings, credential: Bytes)
    ensures Without(pairings, credential).Keys <= pairings.Keys
  {
  }

  lemma StepKeeps(w: World, op: Op)
    requires Inv(w) && Admissible(w, op)
    ensures Inv(Next(w, op))
  {
    hide Inv, Admissible;
    match op {
      case Issue(_, _, _, _) => IssueKeeps(w, op);
      case Exchange(_, _, _, _, _, _, _, _) => ExchangeKeeps(w, op);
      case UseSession(_, _, _, _, _) => UseSessionKeeps(w, op);
      case Refresh(_, _, _, _, _, _) => RefreshKeeps(w, op);
      case Upgrade(_, _, _, _, _) => UpgradeKeeps(w, op);
      case Forget(_, _, _) => ForgetKeeps(w, op);
      case RevokeAll(_) => RevokeAllKeeps(w, op);
      case Active(_) => ActiveKeeps(w, op);
    }
  }

  /** Every run from a sound store reaches a sound store. */
  lemma {:induction false} RunKeeps(w: World, ops: seq<Op>)
    requires Inv(w) && AdmissibleRun(w, ops)
    ensures Inv(Run(w, ops))
    decreases |ops|
  {
    hide Inv, Admissible, Next;
    if ops != [] {
      StepKeeps(w, ops[0]);
      RunKeeps(Next(w, ops[0]), ops[1..]);
    }
  }

  lemma StartOk()
    ensures Inv(START)
  {
  }

  // ---------- The index is the pairings that can still be used ----------

  function UsableCredentials(s: State, now: int): set<Bytes> {
    set k | k in s.pairings && Usable(s.pairings, s.epoch, k, now)
  }

  function IdsOf(pairings: Pairings, keys: set<Bytes>): set<Bytes>
    requires keys <= pairings.Keys
  {
    set k | k in keys :: pairings[k].value.id
  }

  lemma {:induction false} DistinctIds(pairings: Pairings, keys: set<Bytes>)
    requires OneCredential(pairings) && keys <= pairings.Keys
    ensures |IdsOf(pairings, keys)| == |keys|
    decreases |keys|
  {
    if keys != {} {
      var k :| k in keys;
      var rest := keys - {k};
      DistinctIds(pairings, rest);
      assert IdsOf(pairings, keys) == IdsOf(pairings, rest) + {pairings[k].value.id};
      assert pairings[k].value.id !in IdsOf(pairings, rest);
    }
  }

  /** Whether a pairing's id is in the index with a score that has not gone idle. */
  predicate Counts(s: State, id: Bytes, now: int) {
    id in s.index && s.index[id] > now - PAIRING_IDLE_LIFETIME
  }

  ghost predicate HasUsable(s: State, id: Bytes, now: int) {
    exists k :: Usable(s.pairings, s.epoch, k, now) && s.pairings[k].value.id == id
  }

  /**
   * After any run, at any time since: an id counts exactly when a credential of it can be used, that
   * credential is its only one and was last used when its score says, and there are at most as many
   * as the bound.
   */
  lemma IndexIsPairings(ops: seq<Op>, now: int)
    requires AdmissibleRun(START, ops) && Run(START, ops).now <= now
    ensures var s := Run(START, ops).state;
            && (forall id :: Counts(s, id, now) <==> HasUsable(s, id, now))
            && (forall k :: Usable(s.pairings, s.epoch, k, now) ==> At(s.index, s.pairings[k].value.id, s.pairings[k].value.lastUsedAt))
            && (forall k, l :: k in s.pairings && l in s.pairings && s.pairings[k].value.id == s.pairings[l].value.id ==> k == l)
            && |s.index| <= MAX_PAIRINGS
  {
    hide Run, AdmissibleRun;
    StartOk();
    RunKeeps(START, ops);
    SoundIndex(Run(START, ops), now);
  }

  lemma SoundIndex(w: World, now: int)
    requires Inv(w) && w.now <= now
    ensures forall id :: Counts(w.state, id, now) <==> HasUsable(w.state, id, now)
    ensures forall k :: Usable(w.state.pairings, w.state.epoch, k, now) ==>
              At(w.state.index, w.state.pairings[k].value.id, w.state.pairings[k].value.lastUsedAt)
    ensures OneCredential(w.state.pairings)
  {
    hide GrantsOk, SessionsOk, SpentOk;
    var s := w.state;
    ListedLater(s.pairings, s.index, s.epoch, w.now, now);
    forall id ensures Counts(s, id, now) <==> HasUsable(s, id, now) {
      if Counts(s, id, now) {
        assert Held(s.pairings, s.epoch, id, s.index[id]);
        var k :| Holds(s.pairings, s.epoch, id, s.index[id], k);
        assert PairingOk(s.pairings[k], s.epoch, w.names, w.now);
        assert Usable(s.pairings, s.epoch, k, now);
      }
      if HasUsable(s, id, now) {
        var k :| Usable(s.pairings, s.epoch, k, now) && s.pairings[k].value.id == id;
        assert At(s.index, id, s.pairings[k].value.lastUsedAt);
        assert PairingOk(s.pairings[k], s.epoch, w.names, w.now);
      }
    }
  }

  /** Counting the active pairings counts the credentials that can be used. */
  lemma ActiveCounts(w: World, op: Op)
    requires Inv(w) && Admissible(w, op) && op.Active?
    ensures Step(w.state, op).1 == Counted(|UsableCredentials(w.state, op.now)|)
  {
    hide Inv, OneCredential, Usable;
    var s := w.state;
    SoundIndex(w, op.now);
    var usable := UsableCredentials(s, op.now);
    UsableSubset(s, op.now);
    DistinctIds(s.pairings, usable);
    var recent := Recent(s.index, op.now);
    forall id ensures id in recent.Keys <==> id in IdsOf(s.pairings, usable) {
      assert id in recent.Keys <==> Counts(s, id, op.now);
      if HasUsable(s, id, op.now) {
        UsableAmong(s, id, op.now);
      }
    }
    assert recent.Keys == IdsOf(s.pairings, usable);
    assert |recent| == |recent.Keys|;
  }

  lemma UsableAmong(s: State, id: Bytes, now: int)
    requires HasUsable(s, id, now)
    ensures UsableCredentials(s, now) <= s.pairings.Keys && id in IdsOf(s.pairings, UsableCredentials(s, now))
  {
    var k :| Usable(s.pairings, s.epoch, k, now) && s.pairings[k].value.id == id;
    assert k in UsableCredentials(s, now);
  }

  lemma UsableSubset(s: State, now: int)
    ensures UsableCredentials(s, now) <= s.pairings.Keys
  {
  }

  /** A refresh never grows the index, and a revocation empties it. */
  lemma RefreshNeverGrows(w: World, op: Op)
    requires Inv(w) && Admissible(w, op) && op.Refresh?
    ensures |Step(w.state, op).0.index| <= |w.state.index|
  {
    hide GrantsOk, SessionsOk, SpentOk, RefreshStep, Usable, IndexOk;
    var s := w.state;
    RefreshShape(s, op);
    if RefreshStep(s, op).1.Renewed? {
      IndexLater(s.pairings, s.index, s.epoch, w.names, {}, w.now, op.now);
      assert w.names + {} == w.names;
      assert Drawn(op)[0] == op.next;
      RollOk(s.pairings, s.index, s.epoch, w.names, op.now, op.credential, op.next);
      UsableThere(s.pairings, s.epoch, op.credential, op.now);
      OneMore(s.index, s.pairings[op.credential].value.id, op.now);
    } else if op.credential in s.pairings {
      FewerKeys(Without(s.index, s.pairings[op.credential].value.id), s.index);
    }
  }

  /** The scripts' own deadline checks never decide: a key that has not gone holds a record that has not expired. */
  lemma DeadlinesAgree(w: World, key: Bytes, now: int)
    requires Inv(w)
    ensures Live(w.state.grants, key, now) ==> now < w.state.grants[key].value.expiresAt
    ensures Live(w.state.sessions, key, now) ==> now < w.state.sessions[key].value.expiresAt
    ensures key in w.state.pairings ==> (Live(w.state.pairings, key, now) <==> now - PAIRING_IDLE_LIFETIME < w.state.pairings[key].value.lastUsedAt)
  {
    hide SpentOk, OneCredential, Listed, Backed;
    if key in w.state.pairings {
      assert PairingOk(w.state.pairings[key], w.state.epoch, w.names, w.now);
    }
  }

  // ---------- The code challenge ----------

  /**
   * A grant is exchanged exactly when it stands and the challenge offered is the one it was bound to,
   * none for none; nothing but its exchange takes it from its holder.
   */
  lemma ChallengeDecides(s: State, op: Op)
    requires op.Exchange? && !Live(s.sessions, op.session, op.now)
    ensures var (t, reply) := Step(s, op);
            && (reply.Opened? <==> GrantStands(s, op) && s.grants[op.grant].value.challenge == op.challenge)
            && (reply.Opened? ==> (reply.bound <==> op.challenge != []) && op.grant !in t.grants)
            && (reply.NotBound? <==> GrantStands(s, op) && s.grants[op.grant].value.challenge == [] && op.challenge != [])
            && (!reply.Opened? ==> t == s)
  {
    hide Recent, GrantStands;
  }
}
