/** What a round must be told before it closes anything, of its own fields, and what a close says. */
module AbsentGates {
  import opened Bytes
  import opened AbsentAlerts
  import opened AbsentSafety

  // ---------- Rounds that decide ----------

  /** The link says it is up to date: it was read, reports no error, and last succeeded within the bound, if there is one. */
  predicate LinkCurrent(r: Round, b: Bounds) {
    && r.linkRead && r.linkError == [] && r.linkLastSuccess.Some?
    && (b.maxLinkHealthAge > 0 ==> r.now <= r.linkLastSuccess.value + b.maxLinkHealthAge)
  }

  /** The snapshot can be gone by: usable and observed, not empty unless its writer vouches for it, and within its age, if that is bounded. */
  predicate SnapshotCurrent(r: Round, b: Bounds) {
    && r.snapshotUsable && r.observation != []
    && (|r.snapshot| > 0 || r.writerHoldsLastGood)
    && (b.maxSnapshotAge > 0 ==> r.snapshotAgeSeconds * 1_000_000_000 <= b.maxSnapshotAge)
  }

  /** A round decides exactly when both are current. */
  lemma DecidedExactly(r: Round, b: Bounds)
    ensures RefusalOf(r, b) == Decided <==> LinkCurrent(r, b) && SnapshotCurrent(r, b)
  {
  }

  /** A refusal names the first thing that was not good enough. */
  lemma RefusalNames(r: Round, b: Bounds)
    ensures RefusalOf(r, b) == LinkUnavailable <==> !r.linkRead
    ensures RefusalOf(r, b) == LinkUnhealthy <==> r.linkRead && !LinkCurrent(r, b)
    ensures RefusalOf(r, b) == SnapshotUnusable <==> LinkCurrent(r, b) && (!r.snapshotUsable || r.observation == [])
    ensures RefusalOf(r, b) == SnapshotEmpty <==>
              LinkCurrent(r, b) && r.snapshotUsable && r.observation != [] && r.snapshot == {} && !r.writerHoldsLastGood
    ensures RefusalOf(r, b) == SnapshotStale <==>
              && LinkCurrent(r, b) && r.snapshotUsable && r.observation != [] && (r.snapshot != {} || r.writerHoldsLastGood)
              && b.maxSnapshotAge > 0 && r.snapshotAgeSeconds * 1_000_000_000 > b.maxSnapshotAge
  {
  }

  /** The health words: an error before all else, then a success that never was, then one too long ago. */
  lemma HealthNames(lastSuccess: Option<int>, linkError: Bytes, now: int, maxAge: int)
    ensures var word := LinkHealthWord(lastSuccess, linkError, now, maxAge);
            && (word == DiscoveryFailing <==> linkError != [])
            && (word == DiscoveryNeverSucceeded <==> linkError == [] && lastSuccess == None)
            && (word == DiscoveryStale <==> linkError == [] && lastSuccess.Some? && maxAge > 0 && lastSuccess.value + maxAge < now)
            && (word == Healthy <==> linkError == [] && lastSuccess.Some? && (maxAge > 0 ==> now <= lastSuccess.value + maxAge))
  {
  }

  // ---------- Candidates ----------

  /** The ids the snapshot lists, whatever their tenants. */
  function IdsOf(snapshot: set<Key>): set<Bytes> {
    set s | s in snapshot :: s.strategy
  }

  predicate Absentee(r: Round, k: Key) {
    k in r.roster && k.strategy !in IdsOf(r.snapshot)
  }

  /** The candidates are the listed strategies whose id the snapshot does not list under any tenant. */
  lemma CandidatesAre(r: Round, k: Key)
    ensures k in CandidateList(r) <==> Absentee(r, k)
    ensures Candidate(r, k) <==> Absentee(r, k)
  {
    hide Listing, CandidateList;
    if k.strategy in IdsOf(r.snapshot) {
      var s :| s in r.snapshot && s.strategy == k.strategy;
      assert !Candidate(r, k);
    }
    if Absentee(r, k) {
      forall s | s in r.snapshot ensures s.strategy != k.strategy {
        assert s.strategy in IdsOf(r.snapshot);
      }
    }
  }

  // ---------- What a full memory keeps ----------

  /** Of two keys noted together the one that found no room is the later one. */
  lemma {:induction false} RoomInOrder(memory: Memory, keys: seq<Key>, absence: Absence, most: nat, i: nat, j: nat)
    requires Distinct(keys) && i < |keys| && j < |keys|
    requires var after := Admit(memory, keys, absence, most).0; keys[i] in after && keys[i] !in memory && keys[j] !in after
    ensures i < j
  {
    hide Missing;
    var n := |keys| - 1;
    var front := keys[..n];
    var before := Admit(memory, front, absence, most).0;
    RefusedAreCounted(memory, front, absence, most);
    NotAdded(memory, front, absence, most, keys[n]);
    if i < n && j < n {
      RoomInOrder(memory, front, absence, most, i, j);
    } else if i == n && j < n {
      assert front[j] == keys[j];
      SomeMissing(front, before, keys[j]);
    }
  }

  lemma {:induction false} NotAdded(memory: Memory, keys: seq<Key>, absence: Absence, most: nat, k: Key)
    requires k !in keys
    ensures k in Admit(memory, keys, absence, most).0 <==> k in memory
  {
    if keys != [] {
      NotAdded(memory, keys[..|keys| - 1], absence, most, k);
      assert keys[|keys| - 1] in keys;
    }
  }

  lemma SomeMissing(keys: seq<Key>, memory: Memory, k: Key)
    requires k in keys && k !in memory
    ensures |Missing(keys, memory)| > 0
  {
    assert k in Missing(keys, memory);
  }

  /** When not all candidates fit, the newly remembered ones are those first in key order. */
  lemma NotedInOrder(memory: Memory, candidates: seq<Key>, observation: Bytes, now: int, most: nat, kept: Key, dropped: Key)
    requires Distinct(candidates)
    requires var noted := Noted(memory, candidates, observation, now, most).0;
             kept in noted && kept !in memory && dropped in candidates && dropped !in noted
    ensures LessKey(kept, dropped)
  {
    hide LessKey, SortKeys, Admit;
    var sorted, absence := SortKeys(candidates), Absence(now, observation);
    SortLists(candidates);
    ListingDistinct(sorted);
    if kept !in sorted {
      NotAdded(Kept(memory, candidates), sorted, absence, most, kept);
    }
    var i :| 0 <= i < |sorted| && sorted[i] == kept;
    var j :| 0 <= j < |sorted| && sorted[j] == dropped;
    RoomInOrder(Kept(memory, candidates), sorted, absence, most, i, j);
  }

  // ---------- Closes ----------

  predicate Current(e: Event) {
    e.Rounded? && LinkCurrent(e.round, e.bounds) && SnapshotCurrent(e.round, e.bounds)
  }

  lemma CurrentIsAccepted(e: Event)
    ensures Accepted(e) <==> Current(e)
  {
    if e.Rounded? {
      DecidedExactly(e.round, e.bounds);
    }
  }

  /** All that a close of a run rests on, and what it says. */
  predicate RestsOn(events: seq<Event>, first: nat, absent: Absent)
    requires events != [] && events[|events| - 1].Rounded?
  {
    var last := events[|events| - 1];
    && first < |events| - 1 && Current(events[first]) && Current(last)
    && (forall j :: first <= j < |events| ==> events[j].Rounded? && (Current(events[j]) ==> Absentee(events[j].round, absent.key)))
    && last.round.now - events[first].round.now >= last.bounds.grace
    && events[first].round.observation != last.round.observation
    && absent.absentSince == events[first].round.now
    && absent.identity == if absent.key in last.round.identities then last.round.identities[absent.key] else Identity(0, 0)
  }

  /**
   * Every close of every run rests on an earlier round and its own, both with a current link and a
   * snapshot to go by, at least the grace apart and under two observations, with the strategy listed
   * and missing in every current round from the one to the other and nothing forgotten; it names the
   * strategy's own identity, and the time it was first missing.
   */
  lemma CloseRestsOn(events: seq<Event>, most: nat, absent: Absent)
    requires events != [] && events[|events| - 1].Rounded? && absent in LastResult(events, most).close
    ensures exists first :: RestsOn(events, first, absent)
  {
    hide Candidate, CandidateList, RefusalOf, Listing, MemoryAfter, Computed, Absentee, LinkCurrent, SnapshotCurrent;
    CloseIsEarned(events, most, absent.key);
    CloseSays(events, most, absent);
    var first: nat :| Earns(events, first, absent.key) && MemoryAfter(events, most)[absent.key] == SightingOf(events, first);
    forall j | first <= j < |events| ensures events[j].Rounded? && (Current(events[j]) ==> Absentee(events[j].round, absent.key)) {
      CurrentIsAccepted(events[j]);
      CandidatesAre(events[j].round, absent.key);
    }
    CurrentIsAccepted(events[first]);
    CurrentIsAccepted(events[|events| - 1]);
    assert RestsOn(events, first, absent);
  }

  /** What a close says is what the memory and the round say of its key. */
  lemma CloseSays(events: seq<Event>, most: nat, absent: Absent)
    requires events != [] && events[|events| - 1].Rounded? && absent in LastResult(events, most).close
    requires absent.key in MemoryAfter(events, most)
    ensures var r := events[|events| - 1].round;
            && absent.absentSince == MemoryAfter(events, most)[absent.key].since
            && absent.identity == if absent.key in r.identities then r.identities[absent.key] else Identity(0, 0)
  {
    hide Chosen, CandidateList, RefusalOf, DecideAll, Tally;
    var last := events[|events| - 1];
    var noted := last.round.(firstAbsent := MemoryAfter(events, most));
    ClosesOnlyDecided(events, most);
    var chosen := Chosen(noted, last.bounds, CandidateList(noted));
    var i :| 0 <= i < |chosen| && AbsentsOf(noted, chosen)[i] == absent;
  }

  // ---------- Outcomes ----------

  predicate ClosesKey(result: Result, k: Key) {
    exists absent <- result.close :: absent.key == k
  }

  /** What a decision says of its key: too soon, not seen twice, closed, or put off, and then the bound is used up. */
  lemma OutcomesAre(r: Round, b: Bounds, d: Decision)
    requires LinkCurrent(r, b) && SnapshotCurrent(r, b) && d in Computed(r, b).decisions
    ensures var tracked := d.key in r.firstAbsent;
            var ripe := tracked && r.firstAbsent[d.key].since + b.grace <= r.now;
            var twice := tracked && r.firstAbsent[d.key].observation != r.observation;
            && Absentee(r, d.key)
            && (d.outcome == WithinGrace <==> !ripe) && (d.outcome == Unconfirmed <==> ripe && !twice)
            && (d.outcome == CloseDecided <==> ClosesKey(Computed(r, b), d.key))
            && (d.outcome == Deferred ==> ripe && twice && 0 < b.maxCloseStrategies == |Computed(r, b).close|)
            && d.absentSince == if tracked then Some(r.firstAbsent[d.key].since) else None
  {
    hide RefusalOf, CandidateList, Tally, ReadyOf, Walk, Rotation, LinkCurrent, SnapshotCurrent, Absentee, Listing;
    DecidedExactly(r, b);
    var keys := CandidateList(r);
    var chosen := Chosen(r, b, keys);
    var i :| 0 <= i < |keys| && DecideAll(r, b, chosen, keys)[i] == d;
    assert d.key == keys[i] && keys[i] in keys;
    CandidatesAre(r, d.key);
    if Ready(r, b, d.key) && d.key !in chosen {
      ChosenHere(r, b, keys, d.key);
    }
    if d.key in chosen {
      ChosenAreReady(r, b, keys, d.key);
      var j :| 0 <= j < |chosen| && chosen[j] == d.key;
      assert AbsentsOf(r, chosen)[j].key == d.key;
    }
    if ClosesKey(Computed(r, b), d.key) {
      ClosedIsChosen(r, b, d.key);
    }
  }

  /** A ready candidate that is not chosen is beyond the bound. */
  lemma ChosenHere(r: Round, b: Bounds, keys: seq<Key>, k: Key)
    requires k in keys && Ready(r, b, k) && k !in Chosen(r, b, keys)
    ensures 0 < b.maxCloseStrategies == |Chosen(r, b, keys)|
  {
    hide Ready, ReadyOf;
    var walk := Walk(keys, Rotation(keys, r.after));
    assert k in walk by {
      var i :| 0 <= i < |keys| && keys[i] == k;
      var start := Rotation(keys, r.after);
      assert keys == keys[..start] + keys[start..];
    }
    ReadyAmong(r, b, walk);
  }

  /** What a round counts besides its outcomes, whatever it comes to. */
  lemma CountsAre(r: Round, b: Bounds)
    ensures var counts := Computed(r, b).counts;
            counts.roster == |r.roster| && counts.rosterUnreadable == r.rosterUnreadable && counts.snapshot == |r.snapshot|
  {
  }
}
