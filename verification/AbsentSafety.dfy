/** What holds of the close loop over every run of rounds and forgettings. */
module AbsentSafety {
  import opened Bytes
  import opened AbsentAlerts

  // ---------- The memory is bounded, and keeps first sightings ----------

  lemma {:induction false} AdmitKeeps(memory: Memory, keys: seq<Key>, absence: Absence, most: nat)
    requires |memory| <= most
    ensures var (after, dropped) := Admit(memory, keys, absence, most);
            && |after| <= most
            && (forall k :: k in memory ==> k in after && after[k] == memory[k])
            && (forall k :: k in after && k !in memory ==> k in keys && after[k] == absence)
  {
    if keys != [] {
      var front, key := keys[..|keys| - 1], keys[|keys| - 1];
      AdmitKeeps(memory, front, absence, most);
      var (before, _) := Admit(memory, front, absence, most);
      assert keys == front + [key];
      assert before[key := absence].Keys == before.Keys + {key};
    }
  }

  function Missing(keys: seq<Key>, memory: Memory): set<Key> {
    set k | k in keys && k !in memory
  }

  lemma MissingSnoc(front: seq<Key>, key: Key, memory: Memory, absence: Absence)
    requires key !in front
    ensures Missing(front + [key], memory[key := absence]) == Missing(front, memory)
    ensures key !in memory ==> |Missing(front + [key], memory)| == |Missing(front, memory)| + 1
    ensures key in memory ==> Missing(front + [key], memory) == Missing(front, memory)
  {
    if key !in memory {
      assert Missing(front + [key], memory) == Missing(front, memory) + {key};
    }
  }

  /** How many of the keys are not remembered is what the memory refused, and it refuses none while it has room. */
  lemma {:induction false} RefusedAreCounted(memory: Memory, keys: seq<Key>, absence: Absence, most: nat)
    requires Distinct(keys)
    ensures var (after, dropped) := Admit(memory, keys, absence, most);
            dropped == |Missing(keys, after)| && (dropped > 0 ==> |after| >= most)
  {
    hide Missing;
    if keys != [] {
      var front, key := keys[..|keys| - 1], keys[|keys| - 1];
      RefusedAreCounted(memory, front, absence, most);
      var (before, _) := Admit(memory, front, absence, most);
      assert keys == front + [key];
      MissingSnoc(front, key, before, absence);
    } else {
      NoneMissing(memory);
    }
  }

  lemma NoneMissing(memory: Memory)
    ensures Missing([], memory) == {}
  {
  }

  lemma KeptFits(memory: Memory, candidates: seq<Key>)
    ensures |Kept(memory, candidates)| <= |memory|
  {
    var kept := Kept(memory, candidates);
    assert kept.Keys <= memory.Keys;
    assert memory.Keys == kept.Keys + (memory.Keys - kept.Keys);
    assert |memory| == |memory.Keys| && |kept| == |kept.Keys|;
  }

  /** After a round is noted: only candidates, no more than the bound, each with its first sighting or this one. */
  lemma NotedExactly(memory: Memory, candidates: seq<Key>, observation: Bytes, now: int, most: nat)
    requires |memory| <= most
    ensures var (noted, dropped) := Noted(memory, candidates, observation, now, most);
            && |noted| <= most
            && (forall k :: k in noted ==> k in candidates && noted[k] == if k in memory then memory[k] else Absence(now, observation))
            && (forall k :: k in memory && k in candidates ==> k in noted)
            && (Distinct(candidates) ==> dropped == |Missing(candidates, noted)|)
  {
    hide SortKeys, Listing;
    KeptFits(memory, candidates);
    SortLists(candidates);
    var sorted := SortKeys(candidates);
    AdmitKeeps(Kept(memory, candidates), sorted, Absence(now, observation), most);
    if Distinct(candidates) {
      ListingDistinct(sorted);
      RefusedAreCounted(Kept(memory, candidates), sorted, Absence(now, observation), most);
      var (noted, _) := Noted(memory, candidates, observation, now, most);
      assert Missing(sorted, noted) == Missing(candidates, noted);
    }
  }

  // ---------- Runs ----------

  /** A round of the loop, or the end of a term, which forgets. */
  datatype Event = Rounded(round: Round, bounds: Bounds) | Forgotten

  /** The memory after a run of events from an empty one. */
  ghost function MemoryAfter(events: seq<Event>, most: nat): Memory {
    if events == [] then map[]
    else
      match events[|events| - 1]
      case Forgotten => map[]
      case Rounded(r, b) => RoundStep(MemoryAfter(events[..|events| - 1], most), most, r, b).0
  }

  /** What the last event of a run, a round, decides. */
  ghost function LastResult(events: seq<Event>, most: nat): Result
    requires events != [] && events[|events| - 1].Rounded?
  {
    var last := events[|events| - 1];
    RoundStep(MemoryAfter(events[..|events| - 1], most), most, last.round, last.bounds).2
  }

  predicate Accepted(e: Event) {
    e.Rounded? && RefusalOf(e.round, e.bounds) == Decided
  }

  /** From one event on, a key has been a candidate of every round that decided, and nothing has been forgotten. */
  predicate CandidateSince(events: seq<Event>, first: nat, k: Key) {
    forall j :: first <= j < |events| ==> events[j].Rounded? && (Accepted(events[j]) ==> Candidate(events[j].round, k))
  }

  /** Whether a key was first found missing by one round, and has been missing ever since. */
  predicate FirstSeen(events: seq<Event>, first: nat, k: Key, absence: Absence) {
    && first < |events| && Accepted(events[first])
    && absence == Absence(events[first].round.now, events[first].round.observation)
    && CandidateSince(events, first, k)
  }

  ghost predicate Remembered(events: seq<Event>, k: Key, absence: Absence) {
    exists first :: FirstSeen(events, first, k, absence)
  }

  /** Every absence in the memory is of a key that has been missing since, and there are never too many. */
  lemma {:induction false} MemoryIsTrue(events: seq<Event>, most: nat)
    ensures var memory := MemoryAfter(events, most);
            |memory| <= most && forall k :: k in memory ==> Remembered(events, k, memory[k])
  {
    hide FirstSeen, Noted, Candidate, CandidateList, Computed;
    if events != [] {
      var before, last := events[..|events| - 1], events[|events| - 1];
      assert events == before + [last];
      MemoryIsTrue(before, most);
      var memory := MemoryAfter(before, most);
      if last.Rounded? {
        var after := MemoryAfter(events, most);
        var candidates := CandidateList(last.round);
        NotedExactly(memory, candidates, last.round.observation, last.round.now, most);
        forall k | k in after ensures Remembered(events, k, after[k]) {
          if k in memory {
            assert Accepted(last) ==> k in candidates;
            SeenLonger(before, last, k, memory[k]);
          } else {
            assert k in candidates;
            SeenNow(before, last, k);
          }
        }
      }
    }
  }

  lemma SeenLonger(before: seq<Event>, last: Event, k: Key, absence: Absence)
    requires Remembered(before, k, absence) && last.Rounded? && (Accepted(last) ==> k in CandidateList(last.round))
    ensures Remembered(before + [last], k, absence)
  {
    hide Candidate, CandidateList, RefusalOf;
    var first :| FirstSeen(before, first, k, absence);
    assert FirstSeen(before + [last], first, k, absence);
  }

  lemma SeenNow(before: seq<Event>, last: Event, k: Key)
    requires Accepted(last) && k in CandidateList(last.round)
    ensures Remembered(before + [last], k, Absence(last.round.now, last.round.observation))
  {
    hide Candidate, CandidateList, RefusalOf;
    assert FirstSeen(before + [last], |before|, k, Absence(last.round.now, last.round.observation));
  }

  /**
   * A close is decided only for a key that an earlier round that decided had found missing, at least
   * the grace before and by another observation, that has been a candidate of every round that
   * decided since, with nothing forgotten in between.
   */
  lemma CloseIsEarned(events: seq<Event>, most: nat, k: Key)
    requires events != [] && events[|events| - 1].Rounded?
    requires exists absent <- LastResult(events, most).close :: absent.key == k
    ensures k in MemoryAfter(events, most)
    ensures exists first :: Earns(events, first, k) && MemoryAfter(events, most)[k] == SightingOf(events, first)
  {
    hide Candidate, CandidateList, RefusalOf, Listing;
    var n := |events| - 1;
    var before, last := events[..n], events[n];
    var r, b := last.round, last.bounds;
    MemoryIsTrue(events, most);
    var memory := MemoryAfter(events, most);
    var noted := r.(firstAbsent := memory);
    assert RefusalOf(r, b) == Decided && RefusalOf(noted, b) == Decided by {
      ClosesOnlyDecided(events, most);
    }
    var keys := CandidateList(noted);
    ChosenAreReady(noted, b, keys, k) by {
      ClosedIsChosen(noted, b, k);
    }
    assert Remembered(events, k, memory[k]);
    var first :| FirstSeen(events, first, k, memory[k]);
    assert Earns(events, first, k);
  }

  /** The absence a round would note. */
  function SightingOf(events: seq<Event>, first: nat): Absence
    requires first < |events| && events[first].Rounded?
  {
    Absence(events[first].round.now, events[first].round.observation)
  }

  /** The last event earns a close from an earlier one. */
  predicate Earns(events: seq<Event>, first: nat, k: Key)
    requires events != [] && events[|events| - 1].Rounded?
  {
    var last := events[|events| - 1];
    && first < |events| - 1 && Accepted(events[first]) && Accepted(last) && CandidateSince(events, first, k)
    && last.round.now - events[first].round.now >= last.bounds.grace
    && events[first].round.observation != last.round.observation
  }

  lemma ClosesOnlyDecided(events: seq<Event>, most: nat)
    requires events != [] && events[|events| - 1].Rounded? && LastResult(events, most).close != []
    ensures var last := events[|events| - 1];
            RefusalOf(last.round, last.bounds) == Decided && RefusalOf(last.round.(firstAbsent := MemoryAfter(events, most)), last.bounds) == Decided
    ensures LastResult(events, most) == Computed(events[|events| - 1].round.(firstAbsent := MemoryAfter(events, most)), events[|events| - 1].bounds)
  {
  }

  lemma ClosedIsChosen(r: Round, b: Bounds, k: Key)
    requires exists absent <- Computed(r, b).close :: absent.key == k
    ensures RefusalOf(r, b) == Decided && k in Chosen(r, b, CandidateList(r))
  {
    hide Chosen, CandidateList, RefusalOf;
    var chosen := Chosen(r, b, CandidateList(r));
    if RefusalOf(r, b) == Decided {
      var i :| 0 <= i < |chosen| && AbsentsOf(r, chosen)[i].key == k;
    }
  }

  lemma ChosenAreReady(r: Round, b: Bounds, keys: seq<Key>, k: Key)
    requires k in Chosen(r, b, keys)
    ensures Ready(r, b, k) && k in keys
  {
    hide Ready, ReadyOf;
    var walk := Walk(keys, Rotation(keys, r.after));
    ReadyAmong(r, b, walk);
  }

  /** A round that is refused decides nothing and leaves the memory exactly as it was. */
  lemma RefusedRoundsAgeNothing(events: seq<Event>, most: nat)
    requires events != [] && events[|events| - 1].Rounded? && !Accepted(events[|events| - 1])
    ensures MemoryAfter(events, most) == MemoryAfter(events[..|events| - 1], most)
    ensures LastResult(events, most).close == [] && LastResult(events, most).decisions == []
  {
  }

  /** No first round of a term closes anything, whatever was seen before it. */
  lemma FirstRoundClosesNothing(events: seq<Event>, most: nat)
    requires |events| >= 2 && events[|events| - 2].Forgotten? && events[|events| - 1].Rounded?
    ensures LastResult(events, most).close == []
  {
    var close := LastResult(events, most).close;
    if close != [] {
      NothingEarned(events, close[0].key);
      CloseIsEarned(events, most, close[0].key);
    }
  }

  lemma NothingEarned(events: seq<Event>, k: Key)
    requires |events| >= 2 && events[|events| - 2].Forgotten? && events[|events| - 1].Rounded?
    ensures forall first: nat :: !Earns(events, first, k)
  {
    assert !events[|events| - 2].Rounded?;
  }

  /** The four counts add up to the candidates, and each counts the decisions that carry its outcome. */
  lemma CountsAddUp(r: Round, b: Bounds)
    requires RefusalOf(r, b) == Decided
    ensures var result := Computed(r, b);
            && result.counts.closeDecided + result.counts.withinGrace + result.counts.unconfirmed + result.counts.deferred
               == result.counts.candidates == |result.decisions|
            && forall i :: 0 <= i < |result.decisions| ==> result.decisions[i].key == CandidateList(r)[i]
  {
    hide CandidateList, Chosen, Tally;
    TalliesAddUp(Computed(r, b).decisions);
  }
}
