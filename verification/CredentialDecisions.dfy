/** What each script answers, by the records it finds and the call alone, and whom a grant and a pairing answer over a run. */
module CredentialDecisions {
  import opened Bytes
  import opened CredentialStore
  import opened CredentialSafety
  import opened CredentialRuns

  // ---------- One call ----------

  /** A key's record that has not gone. */
  predicate Found<T>(keys: map<Bytes, Kept<T>>, key: Bytes, now: int) {
    key in keys && keys[key].deadline > now
  }

  /** A grant is made for five minutes, of the caller and of its challenge, under a name that is free. */
  lemma IssuedExactly(s: State, op: Op)
    requires op.Issue?
    ensures var (t, reply) := Step(s, op);
            if Found(s.grants, op.grant, op.now) then reply == Collision && t == s
            else
              && reply.Issued? && t == s.(grants := t.grants) && t.grants == s.grants[op.grant := t.grants[op.grant]]
              && var kept := t.grants[op.grant];
              && kept.value == reply.grant && kept.deadline == kept.value.expiresAt == op.now + 5 * 60 * 1000
              && kept.value.environment == op.caller.environment && kept.value.scope == op.caller.scope
              && kept.value.epoch == s.epoch && kept.value.challenge == op.challenge
  {
  }

  /** A grant of the caller's own environment and scope and of this epoch, in time. */
  predicate GoodGrant(s: State, op: Op)
    requires op.Exchange?
  {
    && Found(s.grants, op.grant, op.now)
    && var g := s.grants[op.grant].value;
    && g.environment == op.caller.environment && g.scope == op.caller.scope && g.epoch == s.epoch && g.expiresAt > op.now
  }

  /** How many pairings have been used within thirty days. */
  function InUse(s: State, now: int): nat {
    |map id | id in s.index && now - s.index[id] < 2_592_000_000 :: s.index[id]|
  }

  /** An exchange opens a session for an hour exactly for a good grant of the same challenge, and pairs it while fewer than sixty-four are in use. */
  lemma OpenedExactly(s: State, op: Op)
    requires op.Exchange?
    ensures var (t, reply) := Step(s, op);
            && (reply.Opened? <==> GoodGrant(s, op) && s.grants[op.grant].value.challenge == op.challenge && !Found(s.sessions, op.session, op.now))
            && (reply == NotBound <==> GoodGrant(s, op) && s.grants[op.grant].value.challenge == [] && op.challenge != [])
            && (reply == Collision <==> GoodGrant(s, op) && s.grants[op.grant].value.challenge == op.challenge && Found(s.sessions, op.session, op.now))
            && (reply.Opened? || reply == NotBound || reply == Collision || reply == Refused)
            && (reply.Opened? ==>
                  && t.grants == (map k | k in s.grants && k != op.grant :: s.grants[k])
                  && t.sessions == s.sessions[op.session := Kept(reply.session, op.now + 60 * 60 * 1000)]
                  && reply.session.id == op.sessionId && reply.session.environment == op.caller.environment
                  && reply.session.scope == op.caller.scope && reply.session.expiresAt == op.now + 60 * 60 * 1000
                  && reply.session.epoch == s.epoch && reply.session.pairing == (if reply.paired then Some(op.pairingId) else None)
                  && (reply.paired <==> InUse(s, op.now) < 64) && (reply.bound <==> op.challenge != [])
                  && (if reply.paired then Pairs(s, t, op.credential, op.pairingId, op.caller, op.now) else t.pairings == s.pairings)
                  && t.spent == s.spent && t.epoch == s.epoch)
            && (!reply.Opened? ==> t == s.(index := t.index))
  {
    assert (map id | id in s.index && op.now - s.index[id] < 2_592_000_000 :: s.index[id]) == Recent(s.index, op.now);
  }

  /** A pairing under a credential, bound to its caller and used now. */
  predicate Pairs(s: State, t: State, credential: Bytes, id: Bytes, caller: Caller, now: int) {
    && credential in t.pairings && t.pairings == s.pairings[credential := t.pairings[credential]]
    && var kept := t.pairings[credential];
    && kept.deadline == now + 30 * 24 * 60 * 60 * 1000
    && kept.value == Pairing(id, caller.environment, caller.scope, s.epoch, caller.admin, now, now)
    && id in t.index && t.index[id] == now
  }

  /** A session of the caller's own environment and scope and of this epoch, in time. */
  predicate GoodSession(s: State, caller: Caller, key: Bytes, now: int) {
    && Found(s.sessions, key, now)
    && var session := s.sessions[key].value;
    && session.environment == caller.environment && session.scope == caller.scope && session.epoch == s.epoch && session.expiresAt > now
  }

  /** A session stands for its caller, under its own id where one is given; it is renewed only when asked and within ten minutes of its end. */
  lemma StandsExactly(s: State, op: Op)
    requires op.UseSession?
    ensures var (t, reply) := Step(s, op);
            var stands := GoodSession(s, op.caller, op.session, op.now) && (op.expectedId == [] || s.sessions[op.session].value.id == op.expectedId);
            && (reply.Stands? <==> stands) && (!stands ==> reply == Refused && t == s)
            && (stands ==>
                  var session := s.sessions[op.session].value;
                  var renew := op.action == Renew && session.expiresAt - op.now <= 10 * 60 * 1000;
                  && (reply.renewed <==> renew) && reply.session == (if renew then session.(expiresAt := op.now + 60 * 60 * 1000) else session)
                  && t == s.(sessions := t.sessions)
                  && t.sessions == (if op.action == Delete then (map k | k in s.sessions && k != op.session :: s.sessions[k])
                                    else if renew then s.sessions[op.session := Kept(reply.session, op.now + 60 * 60 * 1000)]
                                    else s.sessions))
  {
  }

  /** A pairing of the caller's own environment and scope and of this epoch, whatever administrator key it was made under. */
  predicate Placed(s: State, op: Op)
    requires op.Refresh?
  {
    && Found(s.pairings, op.credential, op.now)
    && var p := s.pairings[op.credential].value;
    && p.environment == op.caller.environment && p.scope == op.caller.scope && p.epoch == s.epoch
  }

  /** The session a renewal opens and the pairing it rolls on. */
  predicate Rolls(s: State, t: State, op: Op, session: Session)
    requires op.Refresh? && op.credential in s.pairings
  {
    var p := s.pairings[op.credential].value;
    && session == Session(op.sessionId, op.caller.environment, op.caller.scope, op.now + 60 * 60 * 1000, s.epoch, Some(p.id))
    && t.sessions == s.sessions[op.session := Kept(session, op.now + 60 * 60 * 1000)]
    && t.pairings == (map k | k in s.pairings && k != op.credential :: s.pairings[k])
                     [op.next := Kept(p.(lastUsedAt := op.now), op.now + 30 * 24 * 60 * 60 * 1000)]
    && t.spent == s.spent[op.credential := Kept(Sealed(op.credential, op.session, op.next, op.sessionId), op.now + 30 * 1000)]
    && t.index == s.index[p.id := op.now] && t.grants == s.grants && t.epoch == s.epoch
  }

  /** A credential and its pairing's place in the index gone, and nothing else. */
  predicate Dropped(s: State, t: State, credential: Bytes)
    requires credential in s.pairings
  {
    && t.pairings == (map k | k in s.pairings && k != credential :: s.pairings[k])
    && t.index == (map id | id in s.index && id != s.pairings[credential].value.id :: s.index[id])
    && t == s.(pairings := t.pairings, index := t.index)
  }

  /**
   * A renewal is given exactly for a credential placed with its caller and made under the caller's own
   * administrator key, when neither name drawn for it is taken. A placed one of another key is answered as
   * such and dropped; one placed elsewhere is refused and dropped; one that is gone gets its spent answer
   * while there is one.
   */
  lemma RenewedExactly(s: State, op: Op)
    requires op.Refresh?
    ensures var (t, reply) := Step(s, op);
            var found := Found(s.pairings, op.credential, op.now);
            var taken := Found(s.pairings, op.next, op.now) || Found(s.sessions, op.session, op.now);
            var mine := found && s.pairings[op.credential].value.admin == op.caller.admin;
            && (reply.Renewed? <==> Placed(s, op) && mine && !taken)
            && (reply == KeyRotated <==> Placed(s, op) && !mine)
            && (reply == Collision <==> Placed(s, op) && mine && taken)
            && (reply.Spent? <==> !found && Found(s.spent, op.credential, op.now))
            && (reply == Refused <==> (found && !Placed(s, op)) || (!found && !Found(s.spent, op.credential, op.now)))
            && (reply.Renewed? ==> Rolls(s, t, op, reply.session) && reply.pairingId == s.pairings[op.credential].value.id)
            && (reply.Spent? ==> reply.sealed == s.spent[op.credential].value)
            && (if found && !(Placed(s, op) && mine) then Dropped(s, t, op.credential) else reply.Renewed? || t == s)
  {
  }

  /** A standing session that has no pairing is given one while there is room, bound to its caller, and keeps its end. */
  lemma PairedExactly(s: State, op: Op)
    requires op.Upgrade?
    ensures var (t, reply) := Step(s, op);
            var good := GoodSession(s, op.caller, op.session, op.now);
            var bare := good && (s.sessions[op.session].value.pairing == None || s.sessions[op.session].value.pairing == Some([]));
            var room := InUse(s, op.now) < 64;
            && (reply == Refused <==> !good) && (reply == AlreadyPaired <==> good && !bare) && (reply == PairingsFull <==> bare && !room)
            && (reply == Collision <==> bare && room && Found(s.pairings, op.credential, op.now))
            && (reply.Paired? <==> bare && room && !Found(s.pairings, op.credential, op.now))
            && (reply.Paired? ==>
                  && reply.pairingId == op.pairingId && reply.session == s.sessions[op.session].value.(pairing := Some(op.pairingId))
                  && t.sessions == s.sessions[op.session := Kept(reply.session, reply.session.expiresAt)]
                  && Pairs(s, t, op.credential, op.pairingId, op.caller, op.now)
                  && t.grants == s.grants && t.spent == s.spent && t.epoch == s.epoch)
            && (!reply.Paired? ==> t == s.(index := t.index))
  {
    assert (map id | id in s.index && op.now - s.index[id] < 2_592_000_000 :: s.index[id]) == Recent(s.index, op.now);
  }

  /** A holder's logout drops the credential of the caller's environment, whatever its scope and epoch. */
  lemma ForgottenExactly(s: State, op: Op)
    requires op.Forget?
    ensures var (t, reply) := Step(s, op);
            var mine := Found(s.pairings, op.credential, op.now) && s.pairings[op.credential].value.environment == op.caller.environment;
            if mine then reply == Forgotten && Dropped(s, t, op.credential) else reply == Refused && t == s
  {
  }

  /** A revocation moves the epoch on by one, empties the index, and says how many pairings that held. */
  lemma RevokedExactly(s: State, op: Op)
    requires op.RevokeAll?
    ensures var (t, reply) := Step(s, op);
            reply == Revoked(t.epoch, |s.index|) && t.epoch == s.epoch + 1 && t == s.(epoch := t.epoch, index := map[])
  {
  }

  // ---------- Whom a pairing answers ----------

  /** Whether a call made a pairing, and which. */
  predicate MadePairing(w: World, op: Op) {
    var reply := Step(w.state, op).1;
    (op.Exchange? && reply.Opened? && reply.paired) || (op.Upgrade? && reply.Paired?)
  }

  /** The caller a pairing was made for, whoever holds its credential by now. */
  predicate BoundTo(s: State, id: Bytes, caller: Caller) {
    forall k :: k in s.pairings && s.pairings[k].value.id == id ==>
      s.pairings[k].value.admin == caller.admin && s.pairings[k].value.environment == caller.environment && s.pairings[k].value.scope == caller.scope
  }

  lemma MadeBound(w: World, op: Op)
    requires Inv(w) && Admissible(w, op) && MadePairing(w, op)
    ensures BoundTo(Next(w, op).state, op.pairingId, op.caller) && op.pairingId in Next(w, op).names
  {
    hide ExchangeStep, UpgradeStep, GrantsOk, SessionsOk, SpentOk, OneCredential, Listed, Backed;
    if op.Exchange? {
      OpenedExactly(w.state, op);
      assert Drawn(op)[3] == op.pairingId;
    } else {
      PairedExactly(w.state, op);
      assert Drawn(op)[1] == op.pairingId;
    }
    forall k | k in w.state.pairings ensures w.state.pairings[k].value.id != op.pairingId {
      assert PairingOk(w.state.pairings[k], w.state.epoch, w.names, w.now);
    }
  }

  lemma StepBound(w: World, op: Op, id: Bytes, caller: Caller)
    requires Inv(w) && Admissible(w, op) && id in w.names && BoundTo(w.state, id, caller)
    ensures BoundTo(Next(w, op).state, id, caller)
  {
    hide ExchangeStep, UpgradeStep, RefreshStep, UseSessionStep, GrantsOk, SessionsOk, SpentOk, IndexOk;
    assert forall i :: 0 <= i < |Drawn(op)| ==> Drawn(op)[i] in Drawn(op);
    match op {
      case Exchange(_, _, _, _, _, _, _, pairingId) =>
        assert Drawn(op)[3] == pairingId;
        OpenedExactly(w.state, op);
      case Upgrade(_, _, _, _, pairingId) =>
        assert Drawn(op)[1] == pairingId;
        PairedExactly(w.state, op);
      case Refresh(_, _, _, _, _, _) => RenewedExactly(w.state, op);
      case UseSession(_, _, _, _, _) => StandsExactly(w.state, op);
      case _ =>
    }
  }

  lemma {:induction false} RunBound(w: World, ops: seq<Op>, id: Bytes, caller: Caller)
    requires Inv(w) && AdmissibleRun(w, ops) && id in w.names && BoundTo(w.state, id, caller)
    ensures BoundTo(Run(w, ops).state, id, caller)
    decreases |ops|
  {
    hide Inv, Admissible, Next, BoundTo;
    if ops != [] {
      StepBound(w, ops[0], id, caller);
      StepKeeps(w, ops[0]);
      NamesStay(w, ops[0]);
      RunBound(Next(w, ops[0]), ops[1..], id, caller);
    }
  }

  lemma NamesStay(w: World, op: Op)
    ensures w.names <= Next(w, op).names
  {
    hide Step;
  }

  /** A pairing, and every credential that follows its first one, is renewed only for the administrator key, environment and scope it was made under. */
  lemma RenewedForItsOwn(w: World, op: Op, ops: seq<Op>, again: Op)
    requires Inv(w) && Then(w, op, ops, again) && MadePairing(w, op) && again.Refresh?
    requires LastReply(w, op, ops, again).Renewed? && LastReply(w, op, ops, again).pairingId == op.pairingId
    ensures again.caller.admin == op.caller.admin && again.caller.environment == op.caller.environment && again.caller.scope == op.caller.scope
  {
    hide Inv, Run, AdmissibleRun, Admissible, Next, Step;
    MadeBound(w, op);
    StepKeeps(w, op);
    RunBound(Next(w, op), ops, op.pairingId, op.caller);
    RenewedExactly(Run(Next(w, op), ops).state, again);
  }

  /**
   * A call under another administrator key with a credential of the pairing that could otherwise be
   * renewed is told so, and from then on the credential is refused to everyone.
   */
  lemma AnotherKeyEndsIt(w: World, op: Op, ops: seq<Op>, again: Op, more: seq<Op>, last: Op)
    requires Inv(w) && Then(w, op, ops, again) && MadePairing(w, op) && again.Refresh?
    requires var s := Run(Next(w, op), ops).state;
             Usable(s.pairings, s.epoch, again.credential, again.now) && s.pairings[again.credential].value.id == op.pairingId
    requires again.caller.environment == op.caller.environment && again.caller.scope == op.caller.scope && again.caller.admin != op.caller.admin
    requires var v := Next(Run(Next(w, op), ops), again); AdmissibleRun(v, more) && Admissible(Run(v, more), last)
    requires (last.Refresh? || last.Forget?) && last.credential == again.credential
    ensures LastReply(w, op, ops, again) == KeyRotated
    ensures Step(Run(Next(Run(Next(w, op), ops), again), more).state, last).1 == Refused
  {
    hide Inv, Run, AdmissibleRun, RefreshStep, ForgetStep, BoundTo;
    MadeBound(w, op);
    StepKeeps(w, op);
    RunKeeps(Next(w, op), ops);
    RunBound(Next(w, op), ops, op.pairingId, op.caller);
    var u := Run(Next(w, op), ops);
    BoundAt(u.state, op.pairingId, op.caller, again.credential);
    RenewedExactly(u.state, again);
    HeldNames(u, again.credential);
    NamesStay(u, again);
    NeverBack(Next(u, again), more, again.credential);
    GoneIsRefused(Run(Next(u, again), more).state, last);
  }

  lemma BoundAt(s: State, id: Bytes, caller: Caller, k: Bytes)
    requires BoundTo(s, id, caller) && k in s.pairings && s.pairings[k].value.id == id
    ensures s.pairings[k].value.admin == caller.admin && s.pairings[k].value.environment == caller.environment && s.pairings[k].value.scope == caller.scope
  {
  }

  lemma HeldNames(w: World, k: Bytes)
    requires Inv(w) && k in w.state.pairings
    ensures k in w.names && k !in w.state.spent
  {
  }

  lemma GoneIsRefused(s: State, op: Op)
    requires (op.Refresh? || op.Forget?) && op.credential !in s.pairings && op.credential !in s.spent
    ensures Step(s, op).1 == Refused
  {
  }

  // ---------- Whom a grant answers ----------

  /** The grant as it was made, or gone. */
  predicate GrantIs(s: State, k: Bytes, made: Kept<Grant>) {
    k in s.grants && s.grants[k] == made
  }

  /** Whether some call of a run opened a session with a grant. */
  predicate SpentIn(w: World, ops: seq<Op>, grant: Bytes)
    decreases |ops|
  {
    ops != [] && ((ops[0].Exchange? && ops[0].grant == grant && Step(w.state, ops[0]).1.Opened?) || SpentIn(Next(w, ops[0]), ops[1..], grant))
  }

  predicate RevokedIn(ops: seq<Op>) {
    exists op <- ops :: op.RevokeAll?
  }

  lemma StepGrant(w: World, op: Op, k: Bytes, made: Kept<Grant>)
    requires Admissible(w, op) && k in w.names && GrantIs(w.state, k, made)
    ensures if op.Exchange? && op.grant == k && Step(w.state, op).1.Opened? then k !in Next(w, op).state.grants else GrantIs(Next(w, op).state, k, made)
    ensures Next(w, op).state.epoch == w.state.epoch + if op.RevokeAll? then 1 else 0
  {
    hide ExchangeStep, UpgradeStep, RefreshStep, UseSessionStep;
    assert forall i :: 0 <= i < |Drawn(op)| ==> Drawn(op)[i] in Drawn(op);
    match op {
      case Issue(_, _, grant, _) => assert Drawn(op)[0] == grant;
      case Exchange(_, _, _, _, _, _, _, _) => OpenedExactly(w.state, op);
      case Upgrade(_, _, _, _, _) => PairedExactly(w.state, op);
      case Refresh(_, _, _, _, _, _) => RenewedExactly(w.state, op);
      case UseSession(_, _, _, _, _) => StandsExactly(w.state, op);
      case _ =>
    }
  }

  lemma {:induction false} RunGrant(w: World, ops: seq<Op>, k: Bytes, made: Kept<Grant>)
    requires AdmissibleRun(w, ops) && k in w.names && GrantIs(w.state, k, made)
    ensures if SpentIn(w, ops, k) then k !in Run(w, ops).state.grants else GrantIs(Run(w, ops).state, k, made)
    ensures Run(w, ops).state.epoch >= w.state.epoch && (Run(w, ops).state.epoch == w.state.epoch <==> !RevokedIn(ops))
    decreases |ops|
  {
    hide Admissible, Next, GrantIs, Step;
    if ops != [] {
      var op, v := ops[0], Next(w, ops[0]);
      StepGrant(w, op, k, made);
      NamesStay(w, op);
      assert ops[0] in ops && forall o :: o in ops <==> o == ops[0] || o in ops[1..];
      if op.Exchange? && op.grant == k && Step(w.state, op).1.Opened? {
        NeverBack(v, ops[1..], k);
        RunEpoch(v, ops[1..]);
      } else {
        RunGrant(v, ops[1..], k, made);
      }
    }
  }

  lemma {:induction false} RunEpoch(w: World, ops: seq<Op>)
    ensures Run(w, ops).state.epoch >= w.state.epoch && (Run(w, ops).state.epoch == w.state.epoch <==> !RevokedIn(ops))
    decreases |ops|
  {
    hide Step;
    if ops != [] {
      assert ops[0] in ops && forall o :: o in ops <==> o == ops[0] || o in ops[1..];
      StepEpoch(w.state, ops[0]);
      RunEpoch(Next(w, ops[0]), ops[1..]);
    }
  }

  lemma StepEpoch(s: State, op: Op)
    ensures Step(s, op).0.epoch == s.epoch + if op.RevokeAll? then 1 else 0
  {
  }

  /**
   * A grant that was issued opens a session exactly for the caller and the challenge it was issued to,
   * within five minutes, if it has not opened one before and nothing was revoked in between.
   */
  lemma GrantOpensExactly(w: World, op: Op, ops: seq<Op>, again: Op)
    requires Inv(w) && Then(w, op, ops, again) && op.Issue? && Step(w.state, op).1.Issued?
    requires again.Exchange? && again.grant == op.grant
    ensures LastReply(w, op, ops, again).Opened? <==>
              && again.caller.environment == op.caller.environment && again.caller.scope == op.caller.scope && again.challenge == op.challenge
              && again.now < op.now + 5 * 60 * 1000 && !RevokedIn(ops) && !SpentIn(Next(w, op), ops, op.grant)
  {
    hide Run, AdmissibleRun, GrantsOk, SpentOk, IndexOk, ExchangeStep, IssueStep;
    IssuedExactly(w.state, op);
    assert Drawn(op)[0] == op.grant;
    var v := Next(w, op);
    var made := v.state.grants[op.grant];
    RunGrant(v, ops, op.grant, made);
    StepKeeps(w, op);
    RunKeeps(v, ops);
    var u := Run(v, ops);
    assert Drawn(again)[0] == again.session;
    FreshSession(u, again);
    OpenedExactly(u.state, again);
  }

  lemma FreshSession(w: World, op: Op)
    requires Inv(w) && Admissible(w, op) && op.Exchange?
    ensures op.session !in w.state.sessions
  {
    assert Drawn(op)[0] == op.session;
  }
}
