/** A backlog through the tracker's own memory: an unchanged set of absent strategies comes to be closed round by round. */
module AbsentBacklog {
  import opened Bytes
  import opened AbsentAlerts
  import opened AbsentSafety
  import opened AbsentProgress

  // ---------- The tracker over several rounds ----------

  /** The memory after some rounds on top of a memory. */
  ghost function Remembering(memory: Memory, most: nat, rounds: seq<Round>, b: Bounds): Memory
    decreases |rounds|
  {
    if rounds == [] then memory else Remembering(RoundStep(memory, most, rounds[0], b).0, most, rounds[1..], b)
  }

  function KeysOf(close: seq<Absent>): (keys: seq<Key>)
    ensures |keys| == |close|
  {
    seq(|close|, i requires 0 <= i < |close| => close[i].key)
  }

  /** The keys each round closes, each round decided on the tracker's memory and started after the last key closed. */
  ghost function TrackedRuns(memory: Memory, most: nat, rounds: seq<Round>, b: Bounds, after: Key): (runs: seq<seq<Key>>)
    ensures |runs| == |rounds|
    decreases |rounds|
  {
    if rounds == [] then []
    else
      var (noted, _, result) := RoundStep(memory, most, rounds[0].(after := after), b);
      var closed := KeysOf(result.close);
      [closed] + TrackedRuns(noted, most, rounds[1..], b, if closed == [] then after else closed[|closed| - 1])
  }

  /** A round that decided on just these candidates, or that refused. */
  ghost predicate Unchanged(r: Round, b: Bounds, candidates: seq<Key>) {
    RefusalOf(r, b) == Decided ==> CandidateList(r) == candidates
  }

  /** Memory of just these keys. */
  ghost predicate Remembers(memory: Memory, candidates: seq<Key>) {
    forall k :: k in memory <==> k in candidates
  }

  // ---------- The memory settles ----------

  lemma {:induction false} AdmitNothing(memory: Memory, keys: seq<Key>, absence: Absence, most: nat)
    requires forall k <- keys :: k in memory
    ensures Admit(memory, keys, absence, most) == (memory, 0)
  {
    if keys != [] {
      assert forall k <- keys[..|keys| - 1] :: k in keys;
      AdmitNothing(memory, keys[..|keys| - 1], absence, most);
      assert keys[|keys| - 1] in keys;
    }
  }

  /** A memory of the candidates is left as it is by noting them again. */
  lemma NotedAgain(memory: Memory, candidates: seq<Key>, observation: Bytes, now: int, most: nat)
    requires Remembers(memory, candidates)
    ensures Noted(memory, candidates, observation, now, most) == (memory, 0)
  {
    hide Listing, SortKeys;
    SortLists(candidates);
    assert Kept(memory, candidates) == memory;
    AdmitNothing(memory, SortKeys(candidates), Absence(now, observation), most);
  }

  /** From an empty memory with room for them, all candidates are remembered, first missing now. */
  lemma NotedFirst(candidates: seq<Key>, observation: Bytes, now: int, most: nat)
    requires Listing(candidates) && |candidates| <= most
    ensures var noted := Noted(map[], candidates, observation, now, most).0;
            Remembers(noted, candidates) && forall k :: k in noted ==> noted[k] == Absence(now, observation)
  {
    hide Listing, Admit, SortKeys, Missing;
    ListingDistinct(candidates);
    NotedExactly(map[], candidates, observation, now, most);
    var (noted, dropped) := Noted(map[], candidates, observation, now, most);
    SortLists(candidates);
    ListingDistinct(SortKeys(candidates));
    RefusedAreCounted(Kept(map[], candidates), SortKeys(candidates), Absence(now, observation), most);
    RoomForAll(candidates, noted);
  }

  /** A memory that is not over its bound and still short of a candidate has refused none. */
  lemma RoomForAll(candidates: seq<Key>, noted: Memory)
    requires forall k :: k in noted ==> k in candidates
    requires |Missing(candidates, noted)| > 0 ==> |noted| >= |candidates|
    ensures forall k <- candidates :: k in noted
  {
    var all := set k | k in candidates;
    SetOfSeq(candidates);
    assert all == noted.Keys + Missing(candidates, noted);
    assert |all| == |noted.Keys| + |Missing(candidates, noted)|;
    forall k <- candidates ensures k in noted {
      assert k !in Missing(candidates, noted);
    }
  }

  lemma {:induction false} SetOfSeq(keys: seq<Key>)
    ensures |set k | k in keys| <= |keys|
  {
    if keys != [] {
      var front := keys[..|keys| - 1];
      SetOfSeq(front);
      assert (set k | k in keys) == (set k | k in front) + {keys[|keys| - 1]};
    } else {
      assert (set k | k in keys) == {};
    }
  }

  /** Rounds that find the set unchanged, or refuse, leave the memory alone. */
  lemma {:induction false} MemoryStays(memory: Memory, most: nat, rounds: seq<Round>, b: Bounds, candidates: seq<Key>)
    requires Remembers(memory, candidates) && forall r <- rounds :: Unchanged(r, b, candidates)
    ensures Remembering(memory, most, rounds, b) == memory
    decreases |rounds|
  {
    hide Remembers, Noted, Computed, CandidateList, RefusalOf;
    if rounds != [] {
      var r := rounds[0];
      assert r in rounds;
      NotedAgain(memory, candidates, r.observation, r.now, most);
      MemoryStays(memory, most, rounds[1..], b, candidates);
    }
  }

  // ---------- The rounds become stable ----------

  /** The rounds as they are decided on one memory. */
  function On(memory: Memory, rounds: seq<Round>): (decided: seq<Round>)
    ensures |decided| == |rounds|
  {
    seq(|rounds|, i requires 0 <= i < |rounds| => rounds[i].(firstAbsent := memory))
  }

  /** A round that decides on just these candidates, the grace past and under another observation than that of any of them. */
  ghost predicate Ripe(r: Round, b: Bounds, candidates: seq<Key>, memory: Memory) {
    && RefusalOf(r, b) == Decided && CandidateList(r) == candidates
    && forall k :: k in memory ==> r.now - memory[k].since >= b.grace && memory[k].observation != r.observation
  }

  lemma {:induction false} AllReady(r: Round, b: Bounds, keys: seq<Key>)
    requires forall k <- keys :: Ready(r, b, k)
    ensures ReadyOf(r, b, keys) == keys
  {
    hide Ready, ReadyOf;
    if keys == [] {
      NoneReady(r, b);
    } else {
      var front, last := keys[..|keys| - 1], keys[|keys| - 1];
      assert keys == front + [last] && last in keys && forall k <- front :: k in keys;
      AllReady(r, b, front);
      ReadySnoc(r, b, keys, |keys| - 1);
      assert keys[..|keys|] == keys;
    }
  }

  lemma NoneReady(r: Round, b: Bounds)
    ensures ReadyOf(r, b, []) == []
  {
  }

  lemma SameCandidates(r: Round, memory: Memory)
    ensures CandidateList(r.(firstAbsent := memory)) == CandidateList(r)
  {
    hide Listing, CandidateList;
    OnlyList(CandidateList(r.(firstAbsent := memory)), r);
  }

  lemma RipeIsStable(rounds: seq<Round>, b: Bounds, candidates: seq<Key>, memory: Memory)
    requires Remembers(memory, candidates) && forall r <- rounds :: Ripe(r, b, candidates, memory)
    ensures Stable(On(memory, rounds), b, candidates)
  {
    hide CandidateList, ReadyOf;
    forall s <- On(memory, rounds) ensures RefusalOf(s, b) == Decided && ReadyOf(s, b, CandidateList(s)) == candidates {
      var i :| 0 <= i < |rounds| && On(memory, rounds)[i] == s;
      assert rounds[i] in rounds && Ripe(rounds[i], b, candidates, memory);
      SameCandidates(rounds[i], memory);
      AllReady(s, b, candidates);
    }
  }

  lemma ClosedKeys(r: Round, keys: seq<Key>)
    ensures KeysOf(AbsentsOf(r, keys)) == keys
  {
  }

  /** Such rounds close through the tracker what rounds on one memory close. */
  lemma {:induction false} TrackedIsStable(memory: Memory, most: nat, rounds: seq<Round>, b: Bounds, candidates: seq<Key>, after: Key)
    requires Remembers(memory, candidates) && forall r <- rounds :: Ripe(r, b, candidates, memory)
    ensures TrackedRuns(memory, most, rounds, b, after) == CloseRuns(On(memory, rounds), b, after)
    decreases |rounds|
  {
    hide Remembers, Noted, CandidateList, Chosen, DecideAll, AbsentsOf, KeysOf;
    if rounds != [] {
      assert rounds[0] in rounds && Ripe(rounds[0], b, candidates, memory);
      var r := rounds[0].(after := after);
      AfterAside(rounds[0], b, after);
      NotedAgain(memory, candidates, r.observation, r.now, most);
      var decided := r.(firstAbsent := memory);
      assert On(memory, rounds)[0].(after := after) == decided;
      assert On(memory, rounds)[1..] == On(memory, rounds[1..]);
      var closed := Chosen(decided, b, CandidateList(decided));
      assert KeysOf(RoundStep(memory, most, r, b).2.close) == closed by {
        RoundClosedKeys(memory, most, r, b, candidates);
      }
      TrackedIsStable(memory, most, rounds[1..], b, candidates, if closed == [] then after else closed[|closed| - 1]);
    }
  }

  lemma RoundClosedKeys(memory: Memory, most: nat, r: Round, b: Bounds, candidates: seq<Key>)
    requires RefusalOf(r, b) == Decided && CandidateList(r) == candidates && Remembers(memory, candidates)
    ensures var decided := r.(firstAbsent := memory);
            KeysOf(RoundStep(memory, most, r, b).2.close) == Chosen(decided, b, CandidateList(decided))
  {
    hide Remembers, Noted, CandidateList, Chosen, DecideAll, AbsentsOf, KeysOf;
    NotedAgain(memory, candidates, r.observation, r.now, most);
    var decided := r.(firstAbsent := memory);
    ClosedKeys(decided, Chosen(decided, b, CandidateList(decided)));
  }

  /** A run from an empty memory: a first sighting, rounds that wait, and rounds that close. */
  ghost predicate Waited(first: Round, waiting: seq<Round>, closing: seq<Round>, b: Bounds, candidates: seq<Key>) {
    && RefusalOf(first, b) == Decided && CandidateList(first) == candidates
    && (forall r <- waiting :: Unchanged(r, b, candidates))
    && (forall r <- closing ::
          RefusalOf(r, b) == Decided && CandidateList(r) == candidates
          && r.now >= first.now + b.grace && r.observation != first.observation)
  }

  /** Whether the tracker's rounds close every strategy of a list, whatever was closed last before them. */
  ghost predicate AllClosed(memory: Memory, most: nat, rounds: seq<Round>, b: Bounds, keys: seq<Key>) {
    forall after, x :: 0 <= x < |keys| ==> ClosedIn(TrackedRuns(memory, most, rounds, b, after), keys[x])
  }

  /**
   * After a forget, strategies that stay absent and fit the memory are all closed within as many rounds
   * as the bound needs for them, counted from the first one a grace later under another observation,
   * however many rounds waited or refused before, and wherever the last close left off. The exception is
   * the same as for a backlog.
   */
  lemma AbsentAreClosed(first: Round, waiting: seq<Round>, closing: seq<Round>, b: Bounds, candidates: seq<Key>, most: nat)
    requires Waited(first, waiting, closing, b, candidates) && |candidates| <= most && b.maxCloseStrategies > 0
    requires |closing| == RoundsFor(|candidates|, b.maxCloseStrategies)
    ensures var memory := Remembering(map[], most, [first] + waiting, b);
            AllClosed(memory, most, closing, b, candidates) <==> !Unlucky(|candidates|, b.maxCloseStrategies, NO_KEY in candidates)
  {
    hide Remembers, Unchanged, CandidateList, Listing, Noted, Computed, RefusalOf, CloseRuns, TrackedRuns, ClosedIn, Unlucky, RoundsFor;
    assert Listing(candidates) by {
      assert ListsCandidates(CandidateList(first), first);
    }
    NotedFirst(candidates, first.observation, first.now, most);
    var noted := Noted(map[], candidates, first.observation, first.now, most).0;
    assert ([first] + waiting)[1..] == waiting;
    MemoryStays(noted, most, waiting, b, candidates);
    assert Remembering(map[], most, [first] + waiting, b) == noted;
    RipeIsStable(closing, b, candidates, noted);
    BacklogIsWorkedOff(On(noted, closing), b, candidates);
    forall after ensures TrackedRuns(noted, most, closing, b, after) == CloseRuns(On(noted, closing), b, after) {
      TrackedIsStable(noted, most, closing, b, candidates, after);
    }
    assert AllClosed(noted, most, closing, b, candidates) <==> WorkedOff(On(noted, closing), b, candidates);
  }

  // ---------- The exception ----------

  const SOME_KEY := Key([], [0x31])

  /** One strategy a round, and two that have been absent long enough, one of them with neither tenant nor id. */
  const STUCK_BOUNDS := Bounds(0, 0, 0, 1)

  const STUCK_ROUND: Round := Round(
    true, map[NO_KEY := 0, SOME_KEY := 0], 0, Some(0), [], {}, true, [0x62], 0, true, map[],
    map[NO_KEY := Absence(0, [0x61]), SOME_KEY := Absence(0, [0x61])], NO_KEY, 0)

  lemma StuckIsStable(n: nat)
    ensures Stable(seq(n, _ => STUCK_ROUND), STUCK_BOUNDS, [NO_KEY, SOME_KEY]) && Listing([NO_KEY, SOME_KEY])
  {
    hide CandidateList;
    assert Less([], [0x31]);
    assert LessKey(NO_KEY, SOME_KEY);
    var keys := [NO_KEY, SOME_KEY];
    assert keys[0] in keys && keys[1] in keys;
    OnlyList(keys, STUCK_ROUND);
    AllReady(STUCK_ROUND, STUCK_BOUNDS, keys);
  }

  /** Closing the one with neither never moves the walk on, however many rounds there are. */
  lemma NeverClosed(n: nat)
    ensures !ClosedIn(CloseRuns(seq(n, _ => STUCK_ROUND), STUCK_BOUNDS, NO_KEY), SOME_KEY)
  {
    hide CloseRuns, Stable, Covered;
    var keys := [NO_KEY, SOME_KEY];
    StuckIsStable(n);
    assert NO_KEY == keys[0] && NO_KEY in keys;
    ClosedIffCovered(seq(n, _ => STUCK_ROUND), STUCK_BOUNDS, keys, NO_KEY, 1);
    Stuck(2, n, 1);
  }
}
