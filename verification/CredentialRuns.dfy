/** What happens to one credential over a run: spent once, answered alike for the grace, and void after a revocation. */
module CredentialRuns {
  import opened Bytes
  import opened CredentialStore
  import opened CredentialSafety

  // ---------- A key that is gone stays gone ----------

  lemma StepNeverBack(w: World, op: Op, k: Bytes)
    requires Admissible(w, op) && k in w.names
    ensures k !in w.state.grants ==> k !in Next(w, op).state.grants
    ensures k !in w.state.sessions ==> k !in Next(w, op).state.sessions
    ensures k !in w.state.pairings ==> k !in Next(w, op).state.pairings
    ensures k !in w.state.pairings && k !in w.state.spent ==> k !in Next(w, op).state.spent
    ensures k in Next(w, op).names
  {
    hide Recent, ExchangeStep, RefreshStep, UpgradeStep, UseSessionStep;
    var d := Drawn(op);
    assert forall i :: 0 <= i < |d| ==> d[i] in d && d[i] != k;
    match op {
      case Issue(_, _, grant, _) => assert d[0] == grant;
      case Exchange(_, _, _, _, session, _, credential, _) =>
        assert d[0] == session && d[2] == credential;
        ExchangeShape(w.state, op);
      case UseSession(_, _, _, _, _) => UseSessionShape(w.state, op);
      case Refresh(_, _, _, next, session, _) =>
        assert d[0] == next && d[1] == session;
        RefreshShape(w.state, op);
      case Upgrade(_, _, _, credential, _) =>
        assert d[0] == credential;
        UpgradeShape(w.state, op);
      case _ =>
    }
  }

  lemma {:induction false} NeverBack(w: World, ops: seq<Op>, k: Bytes)
    requires AdmissibleRun(w, ops) && k in w.names
    ensures k !in w.state.grants ==> k !in Run(w, ops).state.grants
    ensures k !in w.state.sessions ==> k !in Run(w, ops).state.sessions
    ensures k !in w.state.pairings ==> k !in Run(w, ops).state.pairings
    ensures k !in w.state.pairings && k !in w.state.spent ==> k !in Run(w, ops).state.spent
    ensures k in Run(w, ops).names
    decreases |ops|
  {
    hide Next, Admissible;
    if ops != [] {
      StepNeverBack(w, ops[0], k);
      NeverBack(Next(w, ops[0]), ops[1..], k);
    }
  }

  /** A run and one more step. */
  predicate Then(w: World, op: Op, ops: seq<Op>, again: Op) {
    Admissible(w, op) && AdmissibleRun(Next(w, op), ops) && Admissible(Run(Next(w, op), ops), again)
  }

  function LastReply(w: World, op: Op, ops: seq<Op>, again: Op): Reply {
    Step(Run(Next(w, op), ops).state, again).1
  }

  /** A grant exchanges once. */
  lemma GrantIsSingleUse(w: World, op: Op, ops: seq<Op>, again: Op)
    requires Inv(w) && Then(w, op, ops, again) && op.Exchange? && again.Exchange? && again.grant == op.grant
    requires Step(w.state, op).1.Opened?
    ensures LastReply(w, op, ops, again) == Refused
  {
    hide Run, AdmissibleRun, Recent, SessionsOk, SpentOk, IndexOk;
    assert op.grant in w.names && op.grant !in Next(w, op).state.grants;
    NeverBack(Next(w, op), ops, op.grant);
  }

  /** A session that has been ended is refused from then on. */
  lemma EndedSessionRefused(w: World, op: Op, ops: seq<Op>, again: Op)
    requires Inv(w) && Then(w, op, ops, again) && op.UseSession? && op.action == Delete && Step(w.state, op).1.Stands?
    requires (again.UseSession? || again.Upgrade?) && again.session == op.session
    ensures LastReply(w, op, ops, again) == Refused
  {
    hide Run, AdmissibleRun, GrantsOk, SpentOk, IndexOk;
    assert op.session in w.names && op.session !in Next(w, op).state.sessions;
    NeverBack(Next(w, op), ops, op.session);
  }

  /** A credential its holder gave up is refused from then on. */
  lemma ForgottenRefused(w: World, op: Op, ops: seq<Op>, again: Op)
    requires Inv(w) && Then(w, op, ops, again) && op.Forget? && Step(w.state, op).1 == Forgotten
    requires (again.Refresh? || again.Forget?) && again.credential == op.credential
    ensures LastReply(w, op, ops, again) == Refused
  {
    hide Run, AdmissibleRun, GrantsOk, SessionsOk, IndexOk;
    var k := op.credential;
    CredentialKnown(w, k);
    assert k !in Next(w, op).state.pairings && k !in Next(w, op).state.spent;
    NeverBack(Next(w, op), ops, k);
  }

  // ---------- A spent credential ----------

  predicate Rests(s: State, k: Bytes, kept: Kept<Sealed>) {
    k !in s.pairings && k in s.spent && s.spent[k] == kept
  }

  lemma StepRests(w: World, op: Op, k: Bytes, kept: Kept<Sealed>)
    requires Admissible(w, op) && k in w.names && Rests(w.state, k, kept)
    ensures Rests(Next(w, op).state, k, kept)
  {
    hide Recent;
    StepNeverBack(w, op, k);
  }

  lemma {:induction false} RunRests(w: World, ops: seq<Op>, k: Bytes, kept: Kept<Sealed>)
    requires AdmissibleRun(w, ops) && k in w.names && Rests(w.state, k, kept)
    ensures Rests(Run(w, ops).state, k, kept)
    decreases |ops|
  {
    hide Next, Admissible, Rests;
    if ops != [] {
      StepRests(w, ops[0], k, kept);
      StepNeverBack(w, ops[0], k);
      RunRests(Next(w, ops[0]), ops[1..], k, kept);
    }
  }

  /**
   * A spent credential never renews again: asked again within the grace it is given the answer its
   * renewal gave, afterwards nothing, and neither changes the store.
   */
  lemma SpentOnce(w: World, op: Op, ops: seq<Op>, again: Op)
    requires Inv(w) && Then(w, op, ops, again) && op.Refresh? && again.Refresh? && again.credential == op.credential
    requires Step(w.state, op).1.Renewed?
    ensures var s := Run(Next(w, op), ops).state;
            Step(s, again) ==
            (s, if again.now < op.now + RENEWAL_REPLAY_GRACE then Spent(Sealed(op.credential, op.session, op.next, op.sessionId)) else Refused)
  {
    hide Run, AdmissibleRun, GrantsOk, SessionsOk, IndexOk, RefreshStep;
    RefreshShape(w.state, op);
    UsableThere(w.state.pairings, w.state.epoch, op.credential, op.now);
    CredentialKnown(w, op.credential);
    assert Drawn(op)[0] == op.next;
    var kept := Kept(Sealed(op.credential, op.session, op.next, op.sessionId), op.now + RENEWAL_REPLAY_GRACE);
    assert Rests(Next(w, op).state, op.credential, kept);
    RunRests(Next(w, op), ops, op.credential, kept);
    RestingAnswers(Run(Next(w, op), ops).state, again, kept);
  }

  lemma RestingAnswers(s: State, op: Op, kept: Kept<Sealed>)
    requires op.Refresh? && Rests(s, op.credential, kept)
    ensures RefreshStep(s, op) == (s, if op.now < kept.deadline then Spent(kept.value) else Refused)
  {
  }

  // ---------- The session a renewal opened ----------

  /** Whether a session stands as it was made, until a time at least. */
  predicate Standing(s: State, k: Bytes, made: Session, until: int) {
    && k in s.sessions && s.sessions[k].deadline == s.sessions[k].value.expiresAt >= until
    && s.sessions[k].value.(expiresAt := made.expiresAt) == made && made.epoch == s.epoch
  }

  /** Whether a call could end a session: its holder's logout, or a revocation. */
  predicate Ends(op: Op, k: Bytes) {
    op.RevokeAll? || (op.UseSession? && op.action == Delete && op.session == k)
  }

  lemma StepStands(w: World, op: Op, k: Bytes, made: Session, until: int)
    requires Admissible(w, op) && k in w.names && Standing(w.state, k, made, until) && !Ends(op, k)
    requires made.pairing.Some? && made.pairing.value != []
    ensures Standing(Next(w, op).state, k, made, until)
  {
    hide Recent, ExchangeStep, RefreshStep;
    var d := Drawn(op);
    assert forall i :: 0 <= i < |d| ==> d[i] in d && d[i] != k;
    match op {
      case Exchange(_, _, _, _, session, _, _, _) =>
        assert d[0] == session;
        ExchangeShape(w.state, op);
      case Refresh(_, _, _, _, session, _) =>
        assert d[1] == session;
        RefreshShape(w.state, op);
      case _ =>
    }
  }

  lemma {:induction false} RunStands(w: World, ops: seq<Op>, k: Bytes, made: Session, until: int)
    requires AdmissibleRun(w, ops) && k in w.names && Standing(w.state, k, made, until)
    requires forall op <- ops :: !Ends(op, k)
    requires made.pairing.Some? && made.pairing.value != []
    ensures Standing(Run(w, ops).state, k, made, until)
    decreases |ops|
  {
    hide Next, Admissible, Standing, Ends;
    if ops != [] {
      assert ops[0] in ops;
      StepStands(w, ops[0], k, made, until);
      StepNeverBack(w, ops[0], k);
      RunStands(Next(w, ops[0]), ops[1..], k, made, until);
    }
  }

  /**
   * As long as the session a renewal opened has been neither ended nor revoked, asking the renewal
   * again within the grace finds it: the sealed answer names that session and the credential that
   * came next, and reading the session with its id answers for the same pairing.
   */
  lemma RepeatedRenewal(w: World, op: Op, ops: seq<Op>, read: Op)
    requires Inv(w) && Then(w, op, ops, read) && op.Refresh? && Step(w.state, op).1.Renewed?
    requires forall o <- ops :: !Ends(o, op.session)
    requires read.UseSession? && read.action == Read && read.session == op.session && read.expectedId == op.sessionId
    requires read.caller.environment == op.caller.environment && read.caller.scope == op.caller.scope
    requires read.now < op.now + RENEWAL_REPLAY_GRACE
    ensures var s := Run(Next(w, op), ops).state;
            var (t, reply) := Step(s, read);
            t == s && reply.Stands? && reply.session.id == op.sessionId && reply.session.pairing == Some(Step(w.state, op).1.pairingId)
  {
    hide Run, AdmissibleRun, GrantsOk, SessionsOk, SpentOk, OneCredential, Listed, Backed, RefreshStep;
    var s, v := w.state, Next(w, op);
    RefreshShape(s, op);
    RenewedSession(s, op);
    var made := Step(s, op).1.session;
    assert Drawn(op)[1] == op.session;
    PairingIdKnown(w, op.credential) by {
      UsableThere(s.pairings, s.epoch, op.credential, op.now);
    }
    assert Standing(v.state, op.session, made, op.now + SESSION_LIFETIME);
    RunStands(v, ops, op.session, made, op.now + SESSION_LIFETIME);
    StandingReads(Run(v, ops).state, read, made, op.now + SESSION_LIFETIME);
  }

  lemma PairingIdKnown(w: World, k: Bytes)
    requires Inv(w) && k in w.state.pairings
    ensures w.state.pairings[k].value.id in w.names && w.state.pairings[k].value.id != []
  {
    hide GrantsOk, SessionsOk, SpentOk, OneCredential, Listed, Backed;
    assert PairingOk(w.state.pairings[k], w.state.epoch, w.names, w.now);
  }

  lemma RenewedSession(s: State, op: Op)
    requires op.Refresh? && RefreshStep(s, op).1.Renewed?
    ensures var (t, reply) := RefreshStep(s, op);
            && op.credential in s.pairings && reply.pairingId == s.pairings[op.credential].value.id
            && reply.session == Session(op.sessionId, op.caller.environment, op.caller.scope, op.now + SESSION_LIFETIME, s.epoch, Some(reply.pairingId))
  {
  }

  lemma StandingReads(s: State, read: Op, made: Session, until: int)
    requires read.UseSession? && read.action == Read && Standing(s, read.session, made, until) && read.now < until
    requires made.environment == read.caller.environment && made.scope == read.caller.scope && made.id == read.expectedId
    ensures Step(s, read) == (s, Stands(s.sessions[read.session].value, false))
  {
  }

  // ---------- Revocation ----------

  /** Whether every record under one of these names is of an epoch that has passed. */
  predicate Stale(s: State, before: set<Bytes>) {
    && (forall k :: k in s.grants && k in before ==> s.grants[k].value.epoch < s.epoch)
    && (forall k :: k in s.sessions && k in before ==> s.sessions[k].value.epoch < s.epoch)
    && (forall k :: k in s.pairings && k in before ==> s.pairings[k].value.epoch < s.epoch)
    && (forall k :: k in s.spent && k in before ==> s.spent[k].value.access in before)
  }

  lemma RevocationStales(w: World, op: Op)
    requires Inv(w) && op.RevokeAll?
    ensures Stale(Next(w, op).state, w.names)
  {
    hide OneCredential, Listed, Backed;
    forall k | k in w.state.pairings ensures w.state.pairings[k].value.epoch < w.state.epoch + 1 {
      assert PairingOk(w.state.pairings[k], w.state.epoch, w.names, w.now);
    }
  }

  lemma StepStale(w: World, op: Op, before: set<Bytes>)
    requires Admissible(w, op) && before <= w.names && Stale(w.state, before)
    ensures Stale(Next(w, op).state, before)
  {
    hide Recent, ExchangeStep, RefreshStep, UpgradeStep, UseSessionStep;
    var d := Drawn(op);
    assert forall i :: 0 <= i < |d| ==> d[i] in d && d[i] !in before;
    match op {
      case Issue(_, _, grant, _) => assert d[0] == grant;
      case Exchange(_, _, _, _, session, _, credential, _) =>
        assert d[0] == session && d[2] == credential;
        ExchangeShape(w.state, op);
      case UseSession(_, _, session, _, _) => UseSessionShape(w.state, op);
      case Refresh(_, _, credential, next, session, _) =>
        assert d[0] == next && d[1] == session;
        RefreshShape(w.state, op);
      case Upgrade(_, _, session, credential, _) =>
        assert d[0] == credential;
        UpgradeShape(w.state, op);
      case _ =>
    }
  }

  lemma {:induction false} RunStale(w: World, ops: seq<Op>, before: set<Bytes>)
    requires AdmissibleRun(w, ops) && before <= w.names && Stale(w.state, before)
    ensures Stale(Run(w, ops).state, before)
    decreases |ops|
  {
    hide Admissible, Stale, Step;
    if ops != [] {
      StepStale(w, ops[0], before);
      RunStale(Next(w, ops[0]), ops[1..], before);
    }
  }

  /** The credential a call offers. */
  function Offered(op: Op): Bytes {
    match op
    case Exchange(_, _, grant, _, _, _, _, _) => grant
    case UseSession(_, _, session, _, _) => session
    case Refresh(_, _, credential, _, _, _) => credential
    case Upgrade(_, _, session, _, _) => session
    case _ => []
  }

  /** A call whose credential is stale is refused, but for the answer of a spent renewal, whose session is stale too. */
  lemma StaleRefused(s: State, op: Op, before: set<Bytes>)
    requires Stale(s, before) && Offered(op) in before && Offered(op) != []
    ensures var reply := Step(s, op).1;
            reply == Refused || (op.Refresh? && reply.Spent? && reply.sealed.access in before)
  {
    hide Recent;
  }

  /**
   * Nothing made before a revocation is accepted at any time after it: no grant, session, pairing or
   * upgrade, and the session that a spent renewal's answer names is refused as well.
   */
  lemma RevokedForGood(w: World, op: Op, ops: seq<Op>, again: Op, read: Op)
    requires Inv(w) && Then(w, op, ops, again) && op.RevokeAll?
    requires Offered(again) in w.names
    ensures var reply := LastReply(w, op, ops, again);
            && (reply == Refused || (again.Refresh? && reply.Spent?))
            && (reply.Spent? && read.UseSession? && read.session == reply.sealed.access ==> LastReply(w, op, ops, read) == Refused)
  {
    hide Run, AdmissibleRun, Step, GrantsOk, SessionsOk, SpentOk, IndexOk, Stale;
    RevocationStales(w, op);
    RunStale(Next(w, op), ops, w.names);
    var s := Run(Next(w, op), ops).state;
    StaleRefused(s, again, w.names);
    var reply := Step(s, again).1;
    if reply.Spent? && read.UseSession? && read.session == reply.sealed.access {
      StaleRefused(s, read, w.names);
    }
  }
}
