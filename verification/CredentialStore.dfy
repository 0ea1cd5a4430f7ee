/**
 * The credentials of the command line login as one shared store: grants, sessions, rolling pairings,
 * the index that counts the pairings, the answers of spent renewals, and the revocation epoch. Each
 * script is one step. A secret stands for the digest its key is made of.
 */
module CredentialStore {
  import opened Bytes

  /** Times are milliseconds of the store's own clock. */
  const GRANT_LIFETIME: int := 300_000
  const SESSION_LIFETIME: int := 3_600_000
  const RENEWAL_THRESHOLD: int := 600_000
  const PAIRING_IDLE_LIFETIME: int := 2_592_000_000
  const MAX_PAIRINGS: nat := 64
  const RENEWAL_REPLAY_GRACE: int := 30_000

  /** An empty challenge is a grant bound to none. */
  datatype Grant = Grant(environment: Bytes, scope: Bytes, expiresAt: int, epoch: int, challenge: Bytes)

  datatype Session = Session(id: Bytes, environment: Bytes, scope: Bytes, expiresAt: int, epoch: int, pairing: Option<Bytes>)

  datatype Pairing = Pairing(id: Bytes, environment: Bytes, scope: Bytes, epoch: int, admin: Bytes, createdAt: int, lastUsedAt: int)

  /** What a renewal answered, sealed so that only the credential it spent opens it. */
  datatype Sealed = Sealed(spent: Bytes, access: Bytes, refresh: Bytes, sessionId: Bytes)

  /** A key's value and the time at which the key is gone. */
  datatype Kept<+T> = Kept(value: T, deadline: int)

  /** Keys past their deadline may still be listed: nothing reads them. */
  datatype State = State(
    grants: map<Bytes, Kept<Grant>>,
    sessions: map<Bytes, Kept<Session>>,
    pairings: map<Bytes, Kept<Pairing>>,
    spent: map<Bytes, Kept<Sealed>>,
    index: map<Bytes, int>,
    epoch: int)

  const EMPTY := State(map[], map[], map[], map[], map[], 0)

  /** Who calls: the process's environment and scope, and what its administrator key binds a pairing to. */
  datatype Caller = Caller(environment: Bytes, scope: Bytes, admin: Bytes)

  datatype Action = Read | Renew | Delete

  /** One script call. The names it makes are drawn at random by the caller before the call. */
  datatype Op =
    | Issue(now: int, caller: Caller, grant: Bytes, challenge: Bytes)
    | Exchange(now: int, caller: Caller, grant: Bytes, challenge: Bytes, session: Bytes, sessionId: Bytes, credential: Bytes, pairingId: Bytes)
    | UseSession(now: int, caller: Caller, session: Bytes, expectedId: Bytes, action: Action)
    | Refresh(now: int, caller: Caller, credential: Bytes, next: Bytes, session: Bytes, sessionId: Bytes)
    | Upgrade(now: int, caller: Caller, session: Bytes, credential: Bytes, pairingId: Bytes)
    | Forget(now: int, caller: Caller, credential: Bytes)
    | RevokeAll(now: int)
    | Active(now: int)

  datatype Reply =
    | Refused
    | Collision
    | NotBound
    | KeyRotated
    | AlreadyPaired
    | PairingsFull
    | Spent(sealed: Sealed)
    | Issued(grant: Grant)
    | Opened(session: Session, paired: bool, bound: bool)
    | Stands(session: Session, renewed: bool)
    | Renewed(session: Session, pairingId: Bytes)
    | Paired(session: Session, pairingId: Bytes)
    | Forgotten
    | Revoked(epoch: int, held: nat)
    | Counted(active: nat)

  predicate Live<T>(keys: map<Bytes, Kept<T>>, key: Bytes, now: int) {
    key in keys && now < keys[key].deadline
  }

  /** The index without the pairings that have gone unused for the idle lifetime. */
  function Recent(index: map<Bytes, int>, now: int): map<Bytes, int> {
    map id | id in index && index[id] > now - PAIRING_IDLE_LIFETIME :: index[id]
  }

  function Without<K, V>(m: map<K, V>, key: K): map<K, V> {
    map k | k in m && k != key :: m[k]
  }

  // ---------- The steps ----------

  function IssueStep(s: State, op: Op): (State, Reply)
    requires op.Issue?
  {
    if Live(s.grants, op.grant, op.now) then (s, Collision)
    else
      var deadline := op.now + GRANT_LIFETIME;
      var grant := Grant(op.caller.environment, op.caller.scope, deadline, s.epoch, op.challenge);
      (s.(grants := s.grants[op.grant := Kept(grant, deadline)]), Issued(grant))
  }

  predicate GrantStands(s: State, op: Op)
    requires op.Exchange?
  {
    && Live(s.grants, op.grant, op.now)
    && var g := s.grants[op.grant].value;
    && g.environment == op.caller.environment && g.scope == op.caller.scope && op.now < g.expiresAt && g.epoch == s.epoch
  }

  function ExchangeStep(s: State, op: Op): (State, Reply)
    requires op.Exchange?
  {
    if !GrantStands(s, op) then (s, Refused)
    else
      var challenge := s.grants[op.grant].value.challenge;
      if challenge != [] && challenge != op.challenge then (s, Refused)
      else if challenge == [] && op.challenge != [] then (s, NotBound)
      else
        var index := Recent(s.index, op.now);
        var paired := |index| < MAX_PAIRINGS;
        var deadline := op.now + SESSION_LIFETIME;
        var session := Session(op.sessionId, op.caller.environment, op.caller.scope, deadline, s.epoch,
                               if paired then Some(op.pairingId) else None);
        if Live(s.sessions, op.session, op.now) then (s.(index := index), Collision)
        else
          var made := s.(grants := Without(s.grants, op.grant), sessions := s.sessions[op.session := Kept(session, deadline)], index := index);
          (if paired then AddPairing(made, op.caller, op.credential, op.pairingId, op.now) else made,
           Opened(session, paired, challenge != []))
  }

  /** A new pairing under a credential, in the index from now on. */
  function AddPairing(s: State, caller: Caller, credential: Bytes, id: Bytes, now: int): State {
    var pairing := Pairing(id, caller.environment, caller.scope, s.epoch, caller.admin, now, now);
    s.(pairings := s.pairings[credential := Kept(pairing, now + PAIRING_IDLE_LIFETIME)], index := s.index[id := now])
  }

  predicate SessionStands(s: State, caller: Caller, key: Bytes, now: int) {
    && Live(s.sessions, key, now)
    && var session := s.sessions[key].value;
    && session.environment == caller.environment && session.scope == caller.scope && now < session.expiresAt
    && session.epoch == s.epoch
  }

  function UseSessionStep(s: State, op: Op): (State, Reply)
    requires op.UseSession?
  {
    if !SessionStands(s, op.caller, op.session, op.now) then (s, Refused)
    else
      var session := s.sessions[op.session].value;
      if op.expectedId != [] && session.id != op.expectedId then (s, Refused)
      else if op.action == Delete then (s.(sessions := Without(s.sessions, op.session)), Stands(session, false))
      else if op.action == Renew && session.expiresAt - op.now <= RENEWAL_THRESHOLD then
        var renewed := session.(expiresAt := op.now + SESSION_LIFETIME);
        (s.(sessions := s.sessions[op.session := Kept(renewed, renewed.expiresAt)]), Stands(renewed, true))
      else (s, Stands(session, false))
  }

  /** The store with a credential and its place in the index gone. */
  function Drop(s: State, credential: Bytes, id: Bytes): State {
    s.(pairings := Without(s.pairings, credential), index := Without(s.index, id))
  }

  function RefreshStep(s: State, op: Op): (State, Reply)
    requires op.Refresh?
  {
    if !Live(s.pairings, op.credential, op.now) then
      (s, if Live(s.spent, op.credential, op.now) then Spent(s.spent[op.credential].value) else Refused)
    else
      var pairing := s.pairings[op.credential].value;
      if pairing.environment != op.caller.environment || pairing.scope != op.caller.scope || pairing.epoch != s.epoch then
        (Drop(s, op.credential, pairing.id), Refused)
      else if pairing.admin != op.caller.admin then (Drop(s, op.credential, pairing.id), KeyRotated)
      else if Live(s.pairings, op.next, op.now) || Live(s.sessions, op.session, op.now) then (s, Collision)
      else
        var deadline := op.now + SESSION_LIFETIME;
        var session := Session(op.sessionId, op.caller.environment, op.caller.scope, deadline, s.epoch, Some(pairing.id));
        var rolled := pairing.(lastUsedAt := op.now);
        (s.(pairings := Without(s.pairings, op.credential)[op.next := Kept(rolled, op.now + PAIRING_IDLE_LIFETIME)],
            sessions := s.sessions[op.session := Kept(session, deadline)],
            spent := s.spent[op.credential := Kept(Sealed(op.credential, op.session, op.next, op.sessionId), op.now + RENEWAL_REPLAY_GRACE)],
            index := s.index[pairing.id := op.now]),
         Renewed(session, pairing.id))
  }

  function UpgradeStep(s: State, op: Op): (State, Reply)
    requires op.Upgrade?
  {
    if !SessionStands(s, op.caller, op.session, op.now) then (s, Refused)
    else
      var session := s.sessions[op.session].value;
      if session.pairing.Some? && session.pairing.value != [] then (s, AlreadyPaired)
      else
        var trimmed := s.(index := Recent(s.index, op.now));
        if |trimmed.index| >= MAX_PAIRINGS then (trimmed, PairingsFull)
        else if Live(s.pairings, op.credential, op.now) then (trimmed, Collision)
        else
          var paired := session.(pairing := Some(op.pairingId));
          (AddPairing(trimmed.(sessions := s.sessions[op.session := Kept(paired, session.expiresAt)]), op.caller, op.credential, op.pairingId, op.now),
           Paired(paired, op.pairingId))
  }

  function ForgetStep(s: State, op: Op): (State, Reply)
    requires op.Forget?
  {
    if Live(s.pairings, op.credential, op.now) && s.pairings[op.credential].value.environment == op.caller.environment
    then (Drop(s, op.credential, s.pairings[op.credential].value.id), Forgotten)
    else (s, Refused)
  }

  function RevokeAllStep(s: State, op: Op): (State, Reply)
    requires op.RevokeAll?
  {
    (s.(epoch := s.epoch + 1, index := map[]), Revoked(s.epoch + 1, |s.index|))
  }

  function ActiveStep(s: State, op: Op): (State, Reply)
    requires op.Active?
  {
    var index := Recent(s.index, op.now);
    (s.(index := index), Counted(|index|))
  }

  function Step(s: State, op: Op): (State, Reply) {
    match op
    case Issue(_, _, _, _) => IssueStep(s, op)
    case Exchange(_, _, _, _, _, _, _, _) => ExchangeStep(s, op)
    case UseSession(_, _, _, _, _) => UseSessionStep(s, op)
    case Refresh(_, _, _, _, _, _) => RefreshStep(s, op)
    case Upgrade(_, _, _, _, _) => UpgradeStep(s, op)
    case Forget(_, _, _) => ForgetStep(s, op)
    case RevokeAll(_) => RevokeAllStep(s, op)
    case Active(_) => ActiveStep(s, op)
  }

  // ---------- The scripts ----------

  /** The store the scripts run on, each of them whole and one at a time. */
  class Store {
    var grants: map<Bytes, Kept<Grant>>
    var sessions: map<Bytes, Kept<Session>>
    var pairings: map<Bytes, Kept<Pairing>>
    var spent: map<Bytes, Kept<Sealed>>
    var index: map<Bytes, int>
    var epoch: int

    function Now(): State
      reads this
    {
      State(grants, sessions, pairings, spent, index, epoch)
    }

    constructor ()
      ensures Now() == EMPTY
    {
      grants, sessions, pairings, spent, index, epoch := map[], map[], map[], map[], map[], 0;
    }

    method RemoveIdle(now: int)
      modifies this`index
      ensures index == Recent(old(index), now)
    {
      index := map id | id in index && index[id] > now - PAIRING_IDLE_LIFETIME :: index[id];
    }

    method Issue(op: Op) returns (reply: Reply)
      requires op.Issue?
      modifies this
      ensures (Now(), reply) == Step(old(Now()), op)
    {
      var record := Grant(op.caller.environment, op.caller.scope, 0, 0, op.challenge);
      record := record.(expiresAt := op.now + GRANT_LIFETIME);
      record := record.(epoch := epoch);
      if Live(grants, op.grant, op.now) {
        return Collision;
      }
      grants := grants[op.grant := Kept(record, op.now + GRANT_LIFETIME)];
      reply := Issued(record);
    }

    method Exchange(op: Op) returns (reply: Reply)
      requires op.Exchange?
      modifies this
      ensures (Now(), reply) == Step(old(Now()), op)
    {
      if !Live(grants, op.grant, op.now) {
        return Refused;
      }
      var record := grants[op.grant].value;
      if record.environment != op.caller.environment || record.scope != op.caller.scope || record.expiresAt <= op.now {
        return Refused;
      }
      if record.epoch != epoch {
        return Refused;
      }
      var bound := false;
      if record.challenge != [] {
        if record.challenge != op.challenge {
          return Refused;
        }
        bound := true;
      } else if op.challenge != [] {
        return NotBound;
      }
      var session := Session(op.sessionId, record.environment, record.scope, op.now + SESSION_LIFETIME, epoch, None);
      RemoveIdle(op.now);
      var paired := false;
      if |index| < MAX_PAIRINGS {
        session := session.(pairing := Some(op.pairingId));
        paired := true;
      }
      if Live(sessions, op.session, op.now) {
        return Collision;
      }
      sessions := sessions[op.session := Kept(session, op.now + SESSION_LIFETIME)];
      grants := Without(grants, op.grant);
      if paired {
        var pairing := Pairing(op.pairingId, op.caller.environment, op.caller.scope, epoch, op.caller.admin, op.now, op.now);
        pairings := pairings[op.credential := Kept(pairing, op.now + PAIRING_IDLE_LIFETIME)];
        index := index[op.pairingId := op.now];
      }
      reply := Opened(session, paired, bound);
    }

    method UseSession(op: Op) returns (reply: Reply)
      requires op.UseSession?
      modifies this
      ensures (Now(), reply) == Step(old(Now()), op)
    {
      if !Live(sessions, op.session, op.now) {
        return Refused;
      }
      var record := sessions[op.session].value;
      if record.environment != op.caller.environment || record.scope != op.caller.scope || record.expiresAt <= op.now {
        return Refused;
      }
      if record.epoch != epoch {
        return Refused;
      }
      if op.expectedId != [] && record.id != op.expectedId {
        return Refused;
      }
      var renewed := false;
      if op.action == Delete {
        sessions := Without(sessions, op.session);
      } else if op.action == Renew && record.expiresAt - op.now <= RENEWAL_THRESHOLD {
        record := record.(expiresAt := op.now + SESSION_LIFETIME);
        sessions := sessions[op.session := Kept(record, op.now + SESSION_LIFETIME)];
        renewed := true;
      }
      reply := Stands(record, renewed);
    }

    method Refresh(op: Op) returns (reply: Reply)
      requires op.Refresh?
      modifies this
      ensures (Now(), reply) == Step(old(Now()), op)
    {
      if !Live(pairings, op.credential, op.now) {
        if Live(spent, op.credential, op.now) {
          return Spent(spent[op.credential].value);
        }
        return Refused;
      }
      var pairing := pairings[op.credential].value;
      if pairing.environment != op.caller.environment || pairing.scope != op.caller.scope || pairing.epoch != epoch {
        DropPairing(op.credential, pairing.id);
        return Refused;
      }
      if pairing.admin != op.caller.admin {
        DropPairing(op.credential, pairing.id);
        return KeyRotated;
      }
      pairing := pairing.(lastUsedAt := op.now);
      var session := Session(op.sessionId, op.caller.environment, op.caller.scope, op.now + SESSION_LIFETIME, epoch, Some(pairing.id));
      if Live(pairings, op.next, op.now) || Live(sessions, op.session, op.now) {
        return Collision;
      }
      pairings := Without(pairings, op.credential);
      spent := spent[op.credential := Kept(Sealed(op.credential, op.session, op.next, op.sessionId), op.now + RENEWAL_REPLAY_GRACE)];
      pairings := pairings[op.next := Kept(pairing, op.now + PAIRING_IDLE_LIFETIME)];
      sessions := sessions[op.session := Kept(session, op.now + SESSION_LIFETIME)];
      index := index[pairing.id := op.now];
      reply := Renewed(session, pairing.id);
    }

    method DropPairing(credential: Bytes, id: Bytes)
      modifies this`pairings, this`index
      ensures Now() == Drop(old(Now()), credential, id)
    {
      pairings := Without(pairings, credential);
      index := Without(index, id);
    }

    method Upgrade(op: Op) returns (reply: Reply)
      requires op.Upgrade?
      modifies this
      ensures (Now(), reply) == Step(old(Now()), op)
    {
      if !Live(sessions, op.session, op.now) {
        return Refused;
      }
      var record := sessions[op.session].value;
      if record.environment != op.caller.environment || record.scope != op.caller.scope || record.expiresAt <= op.now || record.epoch != epoch {
        return Refused;
      }
      if record.pairing.Some? && record.pairing.value != [] {
        return AlreadyPaired;
      }
      RemoveIdle(op.now);
      if |index| >= MAX_PAIRINGS {
        return PairingsFull;
      }
      if Live(pairings, op.credential, op.now) {
        return Collision;
      }
      record := record.(pairing := Some(op.pairingId));
      record := record.(epoch := epoch);
      sessions := sessions[op.session := Kept(record, op.now + (record.expiresAt - op.now))];
      var pairing := Pairing(op.pairingId, op.caller.environment, op.caller.scope, epoch, op.caller.admin, op.now, op.now);
      pairings := pairings[op.credential := Kept(pairing, op.now + PAIRING_IDLE_LIFETIME)];
      index := index[op.pairingId := op.now];
      reply := Paired(record, op.pairingId);
    }

    method Forget(op: Op) returns (reply: Reply)
      requires op.Forget?
      modifies this
      ensures (Now(), reply) == Step(old(Now()), op)
    {
      if !Live(pairings, op.credential, op.now) {
        return Refused;
      }
      var pairing := pairings[op.credential].value;
      if pairing.environment != op.caller.environment {
        return Refused;
      }
      DropPairing(op.credential, pairing.id);
      reply := Forgotten;
    }

    method RevokeAll(op: Op) returns (reply: Reply)
      requires op.RevokeAll?
      modifies this
      ensures (Now(), reply) == Step(old(Now()), op)
    {
      epoch := epoch + 1;
      var held := |index|;
      index := map[];
      reply := Revoked(epoch, held);
    }

    method Active(op: Op) returns (reply: Reply)
      requires op.Active?
      modifies this
      ensures (Now(), reply) == Step(old(Now()), op)
    {
      RemoveIdle(op.now);
      reply := Counted(|index|);
    }
  }
}
