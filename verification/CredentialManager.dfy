/** Renewing a pairing as its holder sees it: one script, and a read of the session when the credential is already spent. */
module CredentialManager {
  import opened Bytes
  import opened CredentialStore
  import opened CredentialSafety
  import opened CredentialRuns
  import opened CredentialDecisions

  datatype Renewal =
    | Bought(session: Session, access: Bytes, refresh: Bytes, pairing: Option<Bytes>)
    | ExpiredOrRevoked
    | AdminKeyRotated
    | StoreFault

  /** Opens a spent renewal's answer: only the credential it spent can. */
  function OpenRenewal(credential: Bytes, sealed: Sealed): Option<Sealed> {
    if sealed.spent == credential then Some(sealed) else None
  }

  function ReadOf(op: Op, sealed: Sealed, later: int): Op
    requires op.Refresh?
  {
    UseSession(later, op.caller, sealed.access, sealed.sessionId, Read)
  }

  /** The store after some calls, whoever makes them. */
  function Steps(s: State, ops: seq<Op>): State {
    if ops == [] then s else Step(Steps(s, ops[..|ops| - 1]), ops[|ops| - 1]).0
  }

  /** What a renewal comes to when others' calls come between its script and the read of a spent one's session. */
  function RenewalOf(s: State, op: Op, between: seq<Op>, later: int): (State, Renewal)
    requires op.Refresh?
  {
    var (t, reply) := Step(s, op);
    match reply
    case Renewed(session, pairingId) => (t, Bought(session, op.session, op.next, Some(pairingId)))
    case KeyRotated => (t, AdminKeyRotated)
    case Refused => (t, ExpiredOrRevoked)
    case Spent(sealed) =>
      if OpenRenewal(op.credential, sealed).None? then (t, ExpiredOrRevoked)
      else
        var (u, read) := Step(Steps(t, between), ReadOf(op, sealed, later));
        (u, if read.Stands? then Bought(read.session, sealed.access, sealed.refresh, read.session.pairing) else ExpiredOrRevoked)
    case _ => (t, StoreFault)
  }

  class Manager {
    const store: Store

    constructor (store: Store)
      ensures this.store == store
    {
      this.store := store;
    }

    /** One call of any process. */
    method Called(op: Op) returns (reply: Reply)
      modifies store
      ensures (store.Now(), reply) == Step(old(store.Now()), op)
    {
      hide Step;
      match op {
        case Issue(_, _, _, _) => reply := store.Issue(op);
        case Exchange(_, _, _, _, _, _, _, _) => reply := store.Exchange(op);
        case UseSession(_, _, _, _, _) => reply := store.UseSession(op);
        case Refresh(_, _, _, _, _, _) => reply := store.Refresh(op);
        case Upgrade(_, _, _, _, _) => reply := store.Upgrade(op);
        case Forget(_, _, _) => reply := store.Forget(op);
        case RevokeAll(_) => reply := store.RevokeAll(op);
        case Active(_) => reply := store.Active(op);
      }
    }

    /** Calls of other processes, one after another. */
    method Others(ops: seq<Op>)
      modifies store
      ensures store.Now() == Steps(old(store.Now()), ops)
    {
      hide Step;
      var n := 0;
      while n < |ops|
        invariant 0 <= n <= |ops|
        invariant store.Now() == Steps(old(store.Now()), ops[..n])
      {
        var _ := Called(ops[n]);
        assert ops[..n + 1][..n] == ops[..n];
        n := n + 1;
      }
      assert ops[..n] == ops;
    }

    method Refresh(op: Op, between: seq<Op>, later: int) returns (renewal: Renewal)
      requires op.Refresh?
      modifies store
      ensures (store.Now(), renewal) == RenewalOf(old(store.Now()), op, between, later)
    {
      hide RefreshStep, UseSessionStep;
      var reply := store.Refresh(op);
      match reply {
        case Spent(_) => renewal := Replay(op, reply, between, later);
        case KeyRotated => renewal := AdminKeyRotated;
        case Refused => renewal := ExpiredOrRevoked;
        case Renewed(session, pairingId) => renewal := Bought(session, op.session, op.next, Some(pairingId));
        case _ => renewal := StoreFault;
      }
    }

    /** Answers a renewal repeated within the grace with the pair the first one returned, if its session still stands. */
    method Replay(op: Op, reply: Reply, between: seq<Op>, later: int) returns (renewal: Renewal)
      requires op.Refresh? && reply.Spent?
      modifies store
      ensures var (u, read) := Step(Steps(old(store.Now()), between), ReadOf(op, reply.sealed, later));
              if OpenRenewal(op.credential, reply.sealed).None?
              then store.Now() == old(store.Now()) && renewal == ExpiredOrRevoked
              else store.Now() == u && renewal ==
                   if read.Stands? then Bought(read.session, reply.sealed.access, reply.sealed.refresh, read.session.pairing) else ExpiredOrRevoked
    {
      hide UseSessionStep, Step;
      match OpenRenewal(op.credential, reply.sealed) {
        case None => renewal := ExpiredOrRevoked;
        case Some(answer) =>
          Others(between);
          var read := store.UseSession(ReadOf(op, answer, later));
          renewal := if read.Stands? then Bought(read.session, answer.access, answer.refresh, read.session.pairing) else ExpiredOrRevoked;
      }
    }
  }

  // ---------- Runs ----------

  lemma {:induction false} StepsSnoc(s: State, op: Op, ops: seq<Op>)
    ensures Steps(s, [op] + ops) == Steps(Step(s, op).0, ops)
  {
    hide Step;
    if ops == [] {
      assert ([op] + ops)[..0] == [];
      assert Steps(s, []) == s;
    } else {
      var n := |ops| - 1;
      assert ([op] + ops)[..n + 1] == [op] + ops[..n];
      StepsSnoc(s, op, ops[..n]);
    }
  }

  /** A run's store is where its steps take the store. */
  lemma {:induction false} RunSteps(w: World, ops: seq<Op>)
    ensures Run(w, ops).state == Steps(w.state, ops)
    decreases |ops|
  {
    hide Step;
    if ops != [] {
      RunSteps(Next(w, ops[0]), ops[1..]);
      StepsSnoc(w.state, ops[0], ops[1..]);
      assert [ops[0]] + ops[1..] == ops;
    }
  }

  lemma {:induction false} RunJoins(w: World, ops: seq<Op>, op: Op, more: seq<Op>)
    ensures Run(w, ops + [op] + more) == Run(Next(Run(w, ops), op), more)
    ensures AdmissibleRun(w, ops + [op] + more) <==>
              AdmissibleRun(w, ops) && Admissible(Run(w, ops), op) && AdmissibleRun(Next(Run(w, ops), op), more)
    decreases |ops|
  {
    hide Next, Admissible;
    var whole := ops + [op] + more;
    if ops == [] {
      assert whole[0] == op && whole[1..] == more;
    } else {
      assert whole[0] == ops[0] && whole[1..] == ops[1..] + [op] + more;
      RunJoins(Next(w, ops[0]), ops[1..], op, more);
    }
  }

  /** A run, a renewal, the calls that come before its session is read, and the read. */
  predicate Amid(w: World, op: Op, ops: seq<Op>, again: Op, between: seq<Op>, later: int) {
    && Then(w, op, ops, again) && AdmissibleRun(Next(Run(Next(w, op), ops), again), between)
    && Run(Next(Run(Next(w, op), ops), again), between).now <= later
  }

  /**
   * A renewal asked again within the grace buys the same tokens for the same session and pairing and
   * changes nothing itself, whatever else happened before it and between its script and the read of the
   * session, short of a revocation or of the session's own end.
   */
  lemma SameRenewal(w: World, op: Op, ops: seq<Op>, again: Op, between: seq<Op>, later: int)
    requires Inv(w) && Amid(w, op, ops, again, between, later)
    requires op.Refresh? && again.Refresh? && again.credential == op.credential
    requires again.caller.environment == op.caller.environment && again.caller.scope == op.caller.scope
    requires Step(w.state, op).1.Renewed? && (forall o <- ops :: !Ends(o, op.session)) && forall o <- between :: !Ends(o, op.session)
    requires later < op.now + RENEWAL_REPLAY_GRACE
    ensures var s := Run(Next(w, op), ops).state;
            var first, (t, repeated) := RenewalOf(w.state, op, [], op.now).1, RenewalOf(s, again, between, later);
            && t == Steps(s, between) && first.Bought? && repeated.Bought?
            && repeated.access == first.access == op.session && repeated.refresh == first.refresh == op.next
            && repeated.pairing == first.pairing && repeated.session.id == first.session.id
  {
    hide Run, AdmissibleRun, Inv, Step, Ends;
    var sealed := Sealed(op.credential, op.session, op.next, op.sessionId);
    var v, whole := Run(Next(w, op), ops), ops + [again] + between;
    NeverSooner(Next(v, again), between);
    SpentOnce(w, op, ops, again);
    RenewedSession(w.state, op) by {
      RefreshIs(w.state, op);
    }
    RefreshIs(w.state, op);
    RunJoins(Next(w, op), ops, again, between);
    RunSteps(Next(v, again), between);
    assert forall o <- whole :: o in ops || o == again || o in between;
    RefreshEndsNothing(again, op.session);
    ReadDrawsNothing(Run(Next(v, again), between), ReadOf(again, sealed, later));
    RepeatedRenewal(w, op, whole, ReadOf(again, sealed, later));
  }

  lemma RefreshEndsNothing(op: Op, k: Bytes)
    requires op.Refresh?
    ensures !Ends(op, k)
  {
  }

  lemma ReadDrawsNothing(w: World, read: Op)
    requires read.UseSession? && w.now <= read.now
    ensures Admissible(w, read)
  {
  }

  /** The clock does not go back over a run. */
  lemma {:induction false} NeverSooner(w: World, ops: seq<Op>)
    requires AdmissibleRun(w, ops)
    ensures w.now <= Run(w, ops).now
    decreases |ops|
  {
    if ops != [] {
      NeverSooner(Next(w, ops[0]), ops[1..]);
    }
  }

  /** What a renewal comes to, of the records it finds: its own names when it is given, the first one's while that still stands, or why not. */
  lemma BoughtExactly(s: State, op: Op, between: seq<Op>, later: int)
    requires op.Refresh? && (Found(s.spent, op.credential, op.now) ==> s.spent[op.credential].value.spent == op.credential)
    ensures var renewal, reply := RenewalOf(s, op, between, later).1, Step(s, op).1;
            && (renewal == AdminKeyRotated <==> Placed(s, op) && s.pairings[op.credential].value.admin != op.caller.admin)
            && (renewal == StoreFault <==> reply == Collision)
            && (reply.Renewed? ==> renewal == Bought(reply.session, op.session, op.next, Some(reply.pairingId)))
            && (reply.Spent? ==>
                  var u, sealed := Steps(s, between), s.spent[op.credential].value;
                  var stands := GoodSession(u, op.caller, sealed.access, later) && (sealed.sessionId == [] || u.sessions[sealed.access].value.id == sealed.sessionId);
                  if stands then renewal == Bought(u.sessions[sealed.access].value, sealed.access, sealed.refresh, u.sessions[sealed.access].value.pairing)
                  else renewal == ExpiredOrRevoked)
            && (reply == Refused ==> renewal == ExpiredOrRevoked)
  {
    hide Step;
    RenewedExactly(s, op);
    if Step(s, op).1.Spent? {
      StandsExactly(Steps(s, between), ReadOf(op, s.spent[op.credential].value, later));
    }
  }

  lemma RefreshIs(s: State, op: Op)
    requires op.Refresh?
    ensures Step(s, op) == RefreshStep(s, op)
  {
  }

  /** A renewal made before a revocation buys nothing after it, whatever comes between its script and the read. */
  lemma RevokedRenewalBuysNothing(w: World, op: Op, ops: seq<Op>, again: Op, between: seq<Op>, later: int)
    requires Inv(w) && Amid(w, op, ops, again, between, later)
    requires op.RevokeAll? && again.Refresh? && again.credential in w.names
    ensures RenewalOf(Run(Next(w, op), ops).state, again, between, later).1 == ExpiredOrRevoked
  {
    hide Run, AdmissibleRun, Inv, Step, Stale;
    var v := Run(Next(w, op), ops);
    RevokedForGood(w, op, ops, again, again);
    if Step(v.state, again).1.Spent? {
      var sealed := Step(v.state, again).1.sealed;
      var read := ReadOf(again, sealed, later);
      SpentLeaves(v.state, again);
      SpentIsStale(w, op, ops, again);
      RunJoins(Next(w, op), ops, again, between);
      RunSteps(Next(v, again), between);
      ReadDrawsNothing(Run(Next(v, again), between), read);
      RevokedForGood(w, op, ops + [again] + between, read, read);
    }
  }

  /** The session that a spent renewal of before a revocation names is of before it too. */
  lemma SpentIsStale(w: World, op: Op, ops: seq<Op>, again: Op)
    requires Inv(w) && Then(w, op, ops, again) && op.RevokeAll? && again.Refresh? && again.credential in w.names
    ensures var reply := LastReply(w, op, ops, again);
            reply.Spent? ==> reply.sealed.access in w.names
  {
    hide Run, AdmissibleRun, Step, Stale;
    RevocationStales(w, op);
    assert w.names <= Next(w, op).names;
    RunStale(Next(w, op), ops, w.names);
    StaleRefused(Run(Next(w, op), ops).state, again, w.names);
  }

  lemma SpentLeaves(s: State, op: Op)
    requires op.Refresh?
    ensures Step(s, op).1.Spent? ==> Step(s, op).0 == s
  {
  }
}
