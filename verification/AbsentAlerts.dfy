/**
 * The close loop for strategies that are gone: which strategies the alert link lists and the snapshot
 * does not, how long each has been missing, and which of them a round closes.
 */
module AbsentAlerts {
  import opened Bytes

  // ---------- Keys and their order ----------

  datatype Key = Key(tenant: Bytes, strategy: Bytes)

  /** The key no round starts after. */
  const NO_KEY := Key([], [])

  /** Tenant first, then strategy id, both bytewise. */
  predicate LessKey(a: Key, b: Key) {
    if a.tenant != b.tenant then Less(a.tenant, b.tenant) else Less(a.strategy, b.strategy)
  }

  lemma KeysTotal(a: Key, b: Key)
    ensures a == b || LessKey(a, b) || LessKey(b, a)
    ensures !(LessKey(a, b) && LessKey(b, a))
    ensures !LessKey(a, a) && !LessKey(a, NO_KEY)
  {
    LessTotal(a.tenant, b.tenant);
    LessTotal(a.strategy, b.strategy);
    LessTotal(a.strategy, a.strategy);
  }

  lemma KeysTransitive(a: Key, b: Key, c: Key)
    requires LessKey(a, b) && LessKey(b, c)
    ensures LessKey(a, c)
  {
    LessTotal(a.tenant, b.tenant);
    LessTotal(b.tenant, c.tenant);
    if a.tenant != b.tenant && b.tenant != c.tenant {
      LessTransitive(a.tenant, b.tenant, c.tenant);
      LessTotal(a.tenant, c.tenant);
    } else if a.tenant == b.tenant && b.tenant == c.tenant {
      LessTransitive(a.strategy, b.strategy, c.strategy);
    }
  }

  /** No key twice, and each above the ones before it. */
  predicate Listing(keys: seq<Key>) {
    forall i, j :: 0 <= i < j < |keys| ==> LessKey(keys[i], keys[j])
  }

  function InsertKey(key: Key, sorted: seq<Key>): seq<Key> {
    if sorted == [] || !LessKey(sorted[0], key) then [key] + sorted
    else [sorted[0]] + InsertKey(key, sorted[1..])
  }

  function SortKeys(keys: seq<Key>): seq<Key> {
    if keys == [] then [] else InsertKey(keys[0], SortKeys(keys[1..]))
  }

  lemma {:induction false} InsertMembers(key: Key, sorted: seq<Key>)
    ensures forall k :: k in InsertKey(key, sorted) <==> k == key || k in sorted
    ensures |InsertKey(key, sorted)| == |sorted| + 1
  {
    if sorted != [] && LessKey(sorted[0], key) {
      InsertMembers(key, sorted[1..]);
      assert sorted == [sorted[0]] + sorted[1..];
    }
  }

  lemma {:induction false} InsertLists(key: Key, sorted: seq<Key>)
    requires Listing(sorted) && key !in sorted
    ensures Listing(InsertKey(key, sorted))
  {
    hide LessKey;
    if sorted == [] {
    } else if LessKey(sorted[0], key) {
      InsertLists(key, sorted[1..]);
      InsertMembers(key, sorted[1..]);
      var tail := InsertKey(key, sorted[1..]);
      forall j | 0 <= j < |tail| ensures LessKey(sorted[0], tail[j]) {
        assert tail[j] in tail;
      }
    } else {
      KeysTotal(sorted[0], key);
      forall j | 0 < j < |sorted| ensures LessKey(key, sorted[j]) {
        KeysTransitive(key, sorted[0], sorted[j]);
      }
    }
  }

  predicate Distinct(keys: seq<Key>) {
    forall i, j :: 0 <= i < j < |keys| ==> keys[i] != keys[j]
  }

  lemma {:induction false} SortLists(keys: seq<Key>)
    ensures forall k :: k in SortKeys(keys) <==> k in keys
    ensures |SortKeys(keys)| == |keys|
    ensures Distinct(keys) ==> Listing(SortKeys(keys))
  {
    if keys != [] {
      SortLists(keys[1..]);
      InsertMembers(keys[0], SortKeys(keys[1..]));
      assert keys == [keys[0]] + keys[1..];
      if Distinct(keys) {
        InsertLists(keys[0], SortKeys(keys[1..]));
      }
    }
  }

  /** A set has one listing. */
  lemma {:induction false} OneListing(a: seq<Key>, b: seq<Key>)
    requires Listing(a) && Listing(b) && forall k :: k in a <==> k in b
    ensures a == b
  {
    hide LessKey;
    assert b != [] ==> b[0] in a;
    assert a != [] ==> a[0] in b;
    if a != [] {
      KeysTotal(a[0], b[0]);
      assert a[0] == b[0];
      forall k ensures k in a[1..] <==> k in b[1..] {
        ListingTail(a, k);
        ListingTail(b, k);
      }
      OneListing(a[1..], b[1..]);
      assert a == [a[0]] + a[1..] && b == [b[0]] + b[1..];
    }
  }

  lemma ListingTail(a: seq<Key>, k: Key)
    requires Listing(a) && a != []
    ensures k in a[1..] <==> k in a && k != a[0]
  {
    hide LessKey;
    KeysTotal(a[0], a[0]);
    assert a == [a[0]] + a[1..];
  }

  lemma ListingDistinct(keys: seq<Key>)
    requires Listing(keys)
    ensures Distinct(keys)
  {
    hide LessKey;
    forall i, j | 0 <= i < j < |keys| ensures keys[i] != keys[j] {
      KeysTotal(keys[i], keys[j]);
      KeysTotal(keys[i], keys[i]);
    }
  }

  // ---------- A round ----------

  datatype Identity = Identity(business: int, revision: int)

  /** When a candidate was first found missing, and by which observation of the source. */
  datatype Absence = Absence(since: int, observation: Bytes)

  type Memory = map<Key, Absence>

  /** Times are nanoseconds; a success that never was is None. */
  datatype Round = Round(
    linkRead: bool,
    roster: map<Key, int>,
    rosterUnreadable: int,
    linkLastSuccess: Option<int>,
    linkError: Bytes,
    snapshot: set<Key>,
    snapshotUsable: bool,
    observation: Bytes,
    snapshotAgeSeconds: int,
    writerHoldsLastGood: bool,
    identities: map<Key, Identity>,
    firstAbsent: Memory,
    after: Key,
    now: int)

  datatype Bounds = Bounds(grace: int, maxSnapshotAge: int, maxLinkHealthAge: int, maxCloseStrategies: int)

  datatype Refusal = Decided | LinkUnavailable | LinkUnhealthy | SnapshotUnusable | SnapshotEmpty | SnapshotStale

  datatype Health = Healthy | DiscoveryFailing | DiscoveryNeverSucceeded | DiscoveryStale

  datatype Outcome = WithinGrace | Unconfirmed | Deferred | CloseDecided

  datatype Decision = Decision(key: Key, outcome: Outcome, absentSince: Option<int>)

  datatype Absent = Absent(key: Key, identity: Identity, absentSince: int)

  datatype Counts = Counts(roster: int, rosterUnreadable: int, snapshot: int, candidates: int,
                           closeDecided: int, withinGrace: int, unconfirmed: int, deferred: int)

  datatype Result = Result(close: seq<Absent>, decisions: seq<Decision>, counts: Counts, refusal: Refusal)

  const SECOND: int := 1_000_000_000

  function LinkHealthWord(lastSuccess: Option<int>, linkError: Bytes, now: int, maxAge: int): Health {
    if linkError != [] then DiscoveryFailing
    else if lastSuccess.None? then DiscoveryNeverSucceeded
    else if maxAge > 0 && now - lastSuccess.value > maxAge then DiscoveryStale
    else Healthy
  }

  /** Which fact, the first in this order, is not good enough to decide on. */
  function RefusalOf(r: Round, b: Bounds): Refusal {
    if !r.linkRead then LinkUnavailable
    else if LinkHealthWord(r.linkLastSuccess, r.linkError, r.now, b.maxLinkHealthAge) != Healthy then LinkUnhealthy
    else if !r.snapshotUsable || r.observation == [] then SnapshotUnusable
    else if r.snapshot == {} && !r.writerHoldsLastGood then SnapshotEmpty
    else if b.maxSnapshotAge > 0 && r.snapshotAgeSeconds * SECOND > b.maxSnapshotAge then SnapshotStale
    else Decided
  }

  /** Listed by the link, while no strategy of the snapshot has its id under any tenant. */
  predicate Candidate(r: Round, k: Key) {
    k in r.roster && forall s :: s in r.snapshot ==> s.strategy != k.strategy
  }

  predicate ListsCandidates(candidates: seq<Key>, r: Round) {
    Listing(candidates) && (forall k :: k in r.roster && Candidate(r, k) ==> k in candidates) && forall k <- candidates :: Candidate(r, k)
  }

  function EmptyCounts(r: Round): Counts {
    Counts(|r.roster|, r.rosterUnreadable, |r.snapshot|, 0, 0, 0, 0, 0)
  }

  method StrategyIDs(keys: set<Key>) returns (ids: set<Bytes>)
    ensures forall id :: id in ids <==> exists k :: k in keys && k.strategy == id
  {
    ids := {};
    var rest := keys;
    while rest != {}
      invariant rest <= keys
      invariant forall id :: id in ids <==> exists k :: k in keys - rest && k.strategy == id
      decreases |rest|
    {
      var key :| key in rest;
      assert forall k :: k in keys - (rest - {key}) <==> k == key || k in keys - rest;
      ids := ids + {key.strategy};
      rest := rest - {key};
    }
    assert keys - rest == keys;
  }

  /** The candidates in key order, or the refusal that stopped the round before it named any. */
  method Candidates(r: Round, b: Bounds) returns (candidates: seq<Key>, counts: Counts, refusal: Refusal)
    ensures refusal == RefusalOf(r, b)
    ensures refusal == Decided ==> ListsCandidates(candidates, r)
    ensures refusal != Decided ==> candidates == []
    ensures counts == EmptyCounts(r).(candidates := |candidates|)
  {
    hide LessKey;
    counts := EmptyCounts(r);
    if !r.linkRead {
      return [], counts, LinkUnavailable;
    }
    if LinkHealthWord(r.linkLastSuccess, r.linkError, r.now, b.maxLinkHealthAge) != Healthy {
      return [], counts, LinkUnhealthy;
    }
    if !r.snapshotUsable || r.observation == [] {
      return [], counts, SnapshotUnusable;
    }
    if |r.snapshot| == 0 && !r.writerHoldsLastGood {
      return [], counts, SnapshotEmpty;
    }
    if b.maxSnapshotAge > 0 && r.snapshotAgeSeconds * SECOND > b.maxSnapshotAge {
      return [], counts, SnapshotStale;
    }
    var existing := StrategyIDs(r.snapshot);
    candidates := [];
    var rest := r.roster.Keys;
    while rest != {}
      invariant rest <= r.roster.Keys
      invariant Distinct(candidates)
      invariant forall k :: k in candidates <==> k in r.roster && k !in rest && k.strategy !in existing
      decreases |rest|
    {
      var key :| key in rest;
      rest := rest - {key};
      if key.strategy in existing {
        continue;
      }
      candidates := candidates + [key];
    }
    forall k | k in r.roster ensures k in candidates <==> Candidate(r, k) {
    }
    counts := counts.(candidates := |candidates|);
    SortLists(candidates);
    candidates := SortKeys(candidates);
    refusal := Decided;
  }

  ghost function Enumerate(keys: set<Key>): (list: seq<Key>)
    ensures Distinct(list) && forall k :: k in list <==> k in keys
  {
    if keys == {} then []
    else
      var k :| k in keys;
      assert forall l :: l in keys <==> l == k || l in keys - {k};
      [k] + Enumerate(keys - {k})
  }

  /** The candidates of a round, in key order. */
  ghost function CandidateList(r: Round): (list: seq<Key>)
    ensures ListsCandidates(list, r)
  {
    var keys := set k | k in r.roster && Candidate(r, k);
    SortLists(Enumerate(keys));
    SortKeys(Enumerate(keys))
  }

  lemma OnlyList(list: seq<Key>, r: Round)
    requires ListsCandidates(list, r)
    ensures list == CandidateList(r)
  {
    hide Listing, CandidateList;
    OneListing(list, CandidateList(r));
  }

  // ---------- The decision ----------

  /** Remembered for the grace, and found missing by another observation than this round's. */
  predicate Ready(r: Round, b: Bounds, k: Key) {
    k in r.firstAbsent && r.now - r.firstAbsent[k].since >= b.grace && r.firstAbsent[k].observation != r.observation
  }

  function ReadyOf(r: Round, b: Bounds, keys: seq<Key>): seq<Key> {
    if keys == [] then []
    else ReadyOf(r, b, keys[..|keys| - 1]) + if Ready(r, b, keys[|keys| - 1]) then [keys[|keys| - 1]] else []
  }

  /** How many keys of a listing are not above a key. */
  function NotAbove(keys: seq<Key>, after: Key): (n: nat)
    ensures n <= |keys|
  {
    if keys == [] || LessKey(after, keys[0]) then 0 else 1 + NotAbove(keys[1..], after)
  }

  /** Where the walk starts: just past the last key closed before, or at the front. */
  function Rotation(keys: seq<Key>, after: Key): (start: nat)
    ensures start <= |keys| && (keys != [] ==> start < |keys|)
  {
    if after == NO_KEY || keys == [] then 0 else NotAbove(keys, after) % |keys|
  }

  function Walk(keys: seq<Key>, start: nat): seq<Key>
    requires start <= |keys|
  {
    keys[start..] + keys[..start]
  }

  /** As many as the bound lets through, all of them when there is none. */
  function Bounded(keys: seq<Key>, most: int): seq<Key> {
    if most > 0 && |keys| > most then keys[..most] else keys
  }

  /** The keys a round closes: the ready ones the walk meets first. */
  function Chosen(r: Round, b: Bounds, keys: seq<Key>): seq<Key> {
    Bounded(ReadyOf(r, b, Walk(keys, Rotation(keys, r.after))), b.maxCloseStrategies)
  }

  function Decide(r: Round, b: Bounds, chosen: seq<Key>, k: Key): Decision {
    Decision(k,
             if k !in r.firstAbsent || r.now - r.firstAbsent[k].since < b.grace then WithinGrace
             else if r.firstAbsent[k].observation == r.observation then Unconfirmed
             else if k in chosen then CloseDecided
             else Deferred,
             if k in r.firstAbsent then Some(r.firstAbsent[k].since) else None)
  }

  function DecideAll(r: Round, b: Bounds, chosen: seq<Key>, keys: seq<Key>): (decisions: seq<Decision>)
    ensures |decisions| == |keys|
  {
    seq(|keys|, i requires 0 <= i < |keys| => Decide(r, b, chosen, keys[i]))
  }

  function Tally(decisions: seq<Decision>, outcome: Outcome): nat {
    if decisions == [] then 0
    else Tally(decisions[..|decisions| - 1], outcome) + if decisions[|decisions| - 1].outcome == outcome then 1 else 0
  }

  function AbsentOf(r: Round, k: Key): Absent {
    Absent(k, if k in r.identities then r.identities[k] else Identity(0, 0), if k in r.firstAbsent then r.firstAbsent[k].since else 0)
  }

  function AbsentsOf(r: Round, keys: seq<Key>): (absents: seq<Absent>)
    ensures |absents| == |keys|
  {
    seq(|keys|, i requires 0 <= i < |keys| => AbsentOf(r, keys[i]))
  }

  /** The round's whole decision. */
  ghost function Computed(r: Round, b: Bounds): Result {
    if RefusalOf(r, b) != Decided then Result([], [], EmptyCounts(r), RefusalOf(r, b))
    else
      var keys := CandidateList(r);
      var decisions := DecideAll(r, b, Chosen(r, b, keys), keys);
      Result(AbsentsOf(r, Chosen(r, b, keys)), decisions,
             Counts(|r.roster|, r.rosterUnreadable, |r.snapshot|, |keys|, Tally(decisions, CloseDecided), Tally(decisions, WithinGrace),
                    Tally(decisions, Unconfirmed), Tally(decisions, Deferred)),
             Decided)
  }

  /** Where a listing first goes above a key, found by halving. */
  method SearchAbove(keys: seq<Key>, after: Key) returns (at: nat)
    requires Listing(keys)
    ensures at == NotAbove(keys, after)
  {
    hide LessKey;
    var low, high := 0, |keys|;
    while low < high
      invariant 0 <= low <= high <= |keys|
      invariant forall i :: 0 <= i < low ==> !LessKey(after, keys[i])
      invariant forall i :: high <= i < |keys| ==> LessKey(after, keys[i])
    {
      var middle := (low + high) / 2;
      if !LessKey(after, keys[middle]) {
        forall i | 0 <= i < middle ensures !LessKey(after, keys[i]) {
          if LessKey(after, keys[i]) {
            KeysTransitive(after, keys[i], keys[middle]);
          }
        }
        low := middle + 1;
      } else {
        forall i | middle < i < |keys| ensures LessKey(after, keys[i]) {
          KeysTransitive(after, keys[middle], keys[i]);
        }
        high := middle;
      }
    }
    NotAboveAt(keys, after, low);
    at := low;
  }

  lemma {:induction false} NotAboveAt(keys: seq<Key>, after: Key, n: nat)
    requires n <= |keys|
    requires forall i :: 0 <= i < n ==> !LessKey(after, keys[i])
    requires n < |keys| ==> LessKey(after, keys[n])
    ensures NotAbove(keys, after) == n
  {
    hide LessKey;
    if n > 0 {
      NotAboveAt(keys[1..], after, n - 1);
    }
  }

  lemma Wraps(a: nat, n: nat)
    requires a < 2 * n
    ensures a % n == if a < n then a else a - n
  {
    if a >= n {
      assert a == (a - n) + n;
      ModAdd(a - n, n);
    } else {
      SmallMod(a, n);
    }
  }

  lemma SmallMod(a: nat, n: nat)
    requires a < n
    ensures a % n == a
  {
  }

  lemma {:induction false} MultipleGrows(n: int, d: int)
    requires n > 0 && d >= 1
    ensures n * d >= n
    decreases d
  {
    if d > 1 {
      MultipleGrows(n, d - 1);
      assert n * d == n * (d - 1) + n * 1;
    }
  }

  lemma Multiple(n: int, d: int)
    requires n > 0 && -n < n * d < n
    ensures d == 0
  {
    if d > 0 {
      MultipleGrows(n, d);
    } else if d < 0 {
      assert n * d == -(n * -d);
      MultipleGrows(n, -d);
    }
  }

  lemma ModUnique(a: nat, n: nat, q: nat, r: nat)
    requires r < n && a == n * q + r
    ensures a % n == r
  {
    var p, s := a / n, a % n;
    assert a == n * p + s;
    assert n * (q - p) == n * q - n * p == s - r;
    Multiple(n, q - p);
  }

  lemma ModAdd(a: nat, n: nat)
    requires n > 0
    ensures (a + n) % n == a % n
  {
    var q, r := a / n, a % n;
    assert a == n * q + r;
    assert n * (q + 1) == n * q + n;
    ModUnique(a + n, n, q + 1, r);
  }

  /** Whether the walk has met a place after so many steps. */
  predicate Met(i: nat, start: nat, n: nat, steps: nat) {
    (if i >= start then i - start else i + n - start) < steps
  }

  lemma {:induction false} TallyJoins(a: seq<Decision>, b: seq<Decision>, outcome: Outcome)
    ensures Tally(a + b, outcome) == Tally(a, outcome) + Tally(b, outcome)
  {
    if b == [] {
      assert a + b == a;
    } else {
      var front := b[..|b| - 1];
      TallyJoins(a, front, outcome);
      assert (a + b)[..|a + b| - 1] == a + front;
    }
  }

  lemma TallySnoc(a: seq<Decision>, d: Decision, outcome: Outcome)
    ensures Tally(a + [d], outcome) == Tally(a, outcome) + if d.outcome == outcome then 1 else 0
  {
    assert (a + [d])[..|a|] == a;
  }

  /** Every candidate has one outcome, so the four counts add up to the candidates. */
  lemma {:induction false} TalliesAddUp(decisions: seq<Decision>)
    ensures Tally(decisions, CloseDecided) + Tally(decisions, WithinGrace) + Tally(decisions, Unconfirmed) + Tally(decisions, Deferred) == |decisions|
  {
    if decisions != [] {
      TalliesAddUp(decisions[..|decisions| - 1]);
    }
  }

  lemma {:induction false} ReadyAmong(r: Round, b: Bounds, keys: seq<Key>)
    ensures forall k :: k in ReadyOf(r, b, keys) <==> k in keys && Ready(r, b, k)
    ensures |ReadyOf(r, b, keys)| <= |keys|
  {
    hide Ready;
    if keys != [] {
      ReadyAmong(r, b, keys[..|keys| - 1]);
      assert keys == keys[..|keys| - 1] + [keys[|keys| - 1]];
    }
  }

  lemma {:induction false} ReadyJoins(r: Round, b: Bounds, front: seq<Key>, rest: seq<Key>)
    ensures ReadyOf(r, b, front + rest) == ReadyOf(r, b, front) + ReadyOf(r, b, rest)
  {
    hide Ready;
    if rest == [] {
      assert front + rest == front;
    } else {
      var less := rest[..|rest| - 1];
      ReadyJoins(r, b, front, less);
      assert (front + rest)[..|front + rest| - 1] == front + less;
      assert (front + rest)[|front + rest| - 1] == rest[|rest| - 1];
    }
  }

  /** What the walk does at one place: the bound is spent in the walk's order. */
  lemma StepChoice(r: Round, b: Bounds, walk: seq<Key>, step: nat)
    requires step < |walk| && Distinct(walk)
    ensures var m := b.maxCloseStrategies;
            var before, after := Bounded(ReadyOf(r, b, walk[..step]), m), Bounded(ReadyOf(r, b, walk[..step + 1]), m);
            var chosen, key := Bounded(ReadyOf(r, b, walk), m), walk[step];
            && (!Ready(r, b, key) ==> after == before)
            && (Ready(r, b, key) && m > 0 && |before| >= m ==> after == before && key !in chosen)
            && (Ready(r, b, key) && !(m > 0 && |before| >= m) ==> after == before + [key] && key in chosen)
  {
    hide Ready, ReadyOf, Bounded, Distinct;
    var done, key, rest := walk[..step], walk[step], walk[step + 1..];
    ReadySnoc(r, b, walk, step);
    assert walk == walk[..step + 1] + rest;
    ReadyJoins(r, b, walk[..step + 1], rest);
    ReadyAmong(r, b, done);
    NotBefore(walk, step);
    if Ready(r, b, key) {
      ChosenPart(ReadyOf(r, b, done), key, ReadyOf(r, b, rest), b.maxCloseStrategies);
    } else {
      assert ReadyOf(r, b, done) + [] == ReadyOf(r, b, done);
    }
  }

  lemma ReadySnoc(r: Round, b: Bounds, walk: seq<Key>, step: nat)
    requires step < |walk|
    ensures ReadyOf(r, b, walk[..step + 1]) == ReadyOf(r, b, walk[..step]) + if Ready(r, b, walk[step]) then [walk[step]] else []
  {
    hide Ready;
    assert walk[..step + 1][..step] == walk[..step] && walk[..step + 1][step] == walk[step];
  }

  lemma NotBefore(walk: seq<Key>, step: nat)
    requires step < |walk| && Distinct(walk)
    ensures walk[step] !in walk[..step]
  {
  }

  lemma ChosenPart(ready: seq<Key>, key: Key, rest: seq<Key>, most: int)
    requires key !in ready
    ensures var all, before := ready + [key] + rest, Bounded(ready, most);
            && (most > 0 && |before| >= most ==> Bounded(ready + [key], most) == before && key !in Bounded(all, most))
            && (!(most > 0 && |before| >= most) ==> Bounded(ready + [key], most) == before + [key] && key in Bounded(all, most))
  {
    var all := ready + [key] + rest;
    if most > 0 && |Bounded(ready, most)| >= most {
      assert all[..most] == ready[..most];
      assert (ready + [key])[..most] == ready[..most];
    } else {
      assert all[|ready|] == key;
      if most > 0 && |all| > most {
        assert all[..most][|ready|] == key;
      }
    }
  }

  /** Where the walk starts, as the program finds it. */
  method RotationOf(keys: seq<Key>, after: Key) returns (start: nat)
    requires Listing(keys)
    ensures start == Rotation(keys, after)
  {
    hide Listing;
    if after == NO_KEY || |keys| == 0 {
      return 0;
    }
    var at := SearchAbove(keys, after);
    start := at % |keys|;
  }

  lemma DecideJoins(r: Round, b: Bounds, chosen: seq<Key>, front: seq<Key>, rest: seq<Key>)
    ensures DecideAll(r, b, chosen, front + rest) == DecideAll(r, b, chosen, front) + DecideAll(r, b, chosen, rest)
  {
    hide Decide;
  }

  /** One turn of the walk: what becomes of a candidate, its count, and the close list after it. */
  method DecideOne(r: Round, b: Bounds, key: Key, close: seq<Absent>, counts: Counts, ghost walk: seq<Key>, ghost step: nat)
    returns (decision: Decision, longer: seq<Absent>, counted: Counts)
    requires step < |walk| && walk[step] == key && Distinct(walk)
    requires close == AbsentsOf(r, Bounded(ReadyOf(r, b, walk[..step]), b.maxCloseStrategies))
    ensures decision == Decide(r, b, Bounded(ReadyOf(r, b, walk), b.maxCloseStrategies), key)
    ensures longer == AbsentsOf(r, Bounded(ReadyOf(r, b, walk[..step + 1]), b.maxCloseStrategies))
    ensures counted == Count(counts, decision.outcome)
  {
    hide ReadyOf, Bounded, Distinct;
    StepChoice(r, b, walk, step);
    var since := if key in r.firstAbsent then Some(r.firstAbsent[key].since) else None;
    longer := close;
    if key !in r.firstAbsent || r.now - r.firstAbsent[key].since < b.grace {
      decision := Decision(key, WithinGrace, since);
      counted := counts.(withinGrace := counts.withinGrace + 1);
    } else if r.firstAbsent[key].observation == r.observation {
      decision := Decision(key, Unconfirmed, since);
      counted := counts.(unconfirmed := counts.unconfirmed + 1);
    } else if b.maxCloseStrategies > 0 && |close| >= b.maxCloseStrategies {
      decision := Decision(key, Deferred, since);
      counted := counts.(deferred := counts.deferred + 1);
    } else {
      decision := Decision(key, CloseDecided, since);
      longer := close + [AbsentOf(r, key)];
      counted := counts.(closeDecided := counts.closeDecided + 1);
    }
  }

  function Count(counts: Counts, outcome: Outcome): Counts {
    match outcome
    case WithinGrace => counts.(withinGrace := counts.withinGrace + 1)
    case Unconfirmed => counts.(unconfirmed := counts.unconfirmed + 1)
    case Deferred => counts.(deferred := counts.deferred + 1)
    case CloseDecided => counts.(closeDecided := counts.closeDecided + 1)
  }

  /** Counts with every decision's outcome counted. */
  function CountAll(counts: Counts, decisions: seq<Decision>): Counts {
    counts.(closeDecided := Tally(decisions, CloseDecided), withinGrace := Tally(decisions, WithinGrace),
            unconfirmed := Tally(decisions, Unconfirmed), deferred := Tally(decisions, Deferred))
  }

  lemma CountSnoc(counts: Counts, decisions: seq<Decision>, d: Decision)
    ensures CountAll(counts, decisions + [d]) == Count(CountAll(counts, decisions), d.outcome)
  {
    hide Tally;
    TallySnoc(decisions, d, CloseDecided);
    TallySnoc(decisions, d, WithinGrace);
    TallySnoc(decisions, d, Unconfirmed);
    TallySnoc(decisions, d, Deferred);
  }

  lemma CountSwaps(counts: Counts, a: seq<Decision>, b: seq<Decision>)
    ensures CountAll(counts, a + b) == CountAll(counts, b + a)
  {
    hide Tally;
    forall outcome: Outcome ensures Tally(a + b, outcome) == Tally(b + a, outcome) {
      TallyJoins(a, b, outcome);
      TallyJoins(b, a, outcome);
    }
  }

  /** The whole difference of a round and the memory it is given. */
  method Compute(r: Round, b: Bounds) returns (result: Result)
    ensures result == Computed(r, b)
  {
    hide Listing, CandidateList, RefusalOf, DecideAll, Chosen, AbsentsOf, Tally;
    var candidates, counts, refusal := Candidates(r, b);
    if refusal != Decided {
      return Result([], [], counts, refusal);
    }
    OnlyList(candidates, r);
    var start := RotationOf(candidates, r.after);
    var close, decisions, counted := WalkAll(r, b, candidates, start, counts);
    result := Result(close, decisions, counted, Decided);
  }

  method WalkAll(r: Round, b: Bounds, candidates: seq<Key>, start: nat, counts: Counts)
    returns (close: seq<Absent>, decided: seq<Decision>, counted: Counts)
    requires Listing(candidates) && start == Rotation(candidates, r.after) && counts == EmptyCounts(r).(candidates := |candidates|)
    ensures close == AbsentsOf(r, Chosen(r, b, candidates))
    ensures decided == DecideAll(r, b, Chosen(r, b, candidates), candidates)
    ensures counted == CountAll(counts, decided)
  {
    hide Listing, Distinct, Rotation, ReadyOf, Decide, CountAll, Bounded, DecideAll, AbsentsOf;
    var n := |candidates|;
    var decisions := new Decision[n];
    ghost var walk := Walk(candidates, start);
    ghost var chosen := Chosen(r, b, candidates);
    WalkDistinct(candidates, start);
    NothingYet(r, b, walk, counts);
    counted, close := counts, [];
    var step := 0;
    while step < n
      invariant 0 <= step <= n
      invariant close == AbsentsOf(r, Bounded(ReadyOf(r, b, walk[..step]), b.maxCloseStrategies))
      invariant forall i :: 0 <= i < n && Met(i, start, n, step) ==> decisions[i] == Decide(r, b, chosen, candidates[i])
      invariant counted == CountAll(counts, DecideAll(r, b, chosen, walk[..step]))
      modifies decisions
    {
      Wraps(start + step, n);
      var at := (start + step) % n;
      var decision;
      DecideMore(r, b, chosen, walk, step);
      CountSnoc(counts, DecideAll(r, b, chosen, walk[..step]), Decide(r, b, chosen, walk[step]));
      decision, close, counted := DecideOne(r, b, candidates[at], close, counted, walk, step);
      decisions[at] := decision;
      step := step + 1;
    }
    assert walk[..n] == walk;
    decided := decisions[..];
    assert forall i :: 0 <= i < n ==> Met(i, start, n, n);
    DecidedAre(r, b, chosen, candidates, decided);
    DecideJoins(r, b, chosen, candidates[start..], candidates[..start]);
    DecideJoins(r, b, chosen, candidates[..start], candidates[start..]);
    assert candidates[..start] + candidates[start..] == candidates;
    CountSwaps(counts, DecideAll(r, b, chosen, candidates[start..]), DecideAll(r, b, chosen, candidates[..start]));
  }

  lemma DecidedAre(r: Round, b: Bounds, chosen: seq<Key>, keys: seq<Key>, decided: seq<Decision>)
    requires |decided| == |keys| && forall i :: 0 <= i < |keys| ==> decided[i] == Decide(r, b, chosen, keys[i])
    ensures decided == DecideAll(r, b, chosen, keys)
  {
    hide Decide;
  }

  lemma DecideMore(r: Round, b: Bounds, chosen: seq<Key>, walk: seq<Key>, step: nat)
    requires step < |walk|
    ensures DecideAll(r, b, chosen, walk[..step + 1]) == DecideAll(r, b, chosen, walk[..step]) + [Decide(r, b, chosen, walk[step])]
  {
    hide Decide;
  }

  lemma NothingYet(r: Round, b: Bounds, walk: seq<Key>, counts: Counts)
    requires counts == EmptyCounts(r).(candidates := counts.candidates)
    ensures AbsentsOf(r, Bounded(ReadyOf(r, b, walk[..0]), b.maxCloseStrategies)) == []
    ensures CountAll(counts, DecideAll(r, b, Chosen(r, b, []), walk[..0])) == counts
    ensures forall chosen :: DecideAll(r, b, chosen, walk[..0]) == []
    ensures CountAll(counts, []) == counts
  {
  }

  lemma WalkDistinct(keys: seq<Key>, start: nat)
    requires Listing(keys) && start <= |keys|
    ensures Distinct(Walk(keys, start))
  {
    hide Listing;
    ListingDistinct(keys);
  }

  // ---------- The memory ----------

  /** The memory without what is no candidate any more. */
  function Kept(memory: Memory, candidates: seq<Key>): Memory {
    map k | k in memory && k in candidates :: memory[k]
  }

  /** The memory with each new key in turn as long as there is room, and how many found none. */
  function Admit(memory: Memory, keys: seq<Key>, absence: Absence, most: nat): (Memory, nat) {
    if keys == [] then (memory, 0)
    else
      var (before, dropped) := Admit(memory, keys[..|keys| - 1], absence, most);
      var key := keys[|keys| - 1];
      if key in before then (before, dropped)
      else if |before| >= most then (before, dropped + 1)
      else (before[key := absence], dropped)
  }

  /** What the memory becomes when a round's candidates are noted. */
  function Noted(memory: Memory, candidates: seq<Key>, observation: Bytes, now: int, most: nat): (Memory, nat) {
    Admit(Kept(memory, candidates), SortKeys(candidates), Absence(now, observation), most)
  }

  /** One round of the loop: a refused one leaves the memory as it was. */
  ghost function RoundStep(memory: Memory, most: nat, r: Round, b: Bounds): (Memory, nat, Result) {
    if RefusalOf(r, b) != Decided then (memory, 0, Computed(r, b))
    else
      var (noted, dropped) := Noted(memory, CandidateList(r), r.observation, r.now, most);
      (noted, dropped, Computed(r.(firstAbsent := noted), b))
  }

  class Tracker {
    var firstAbsent: Memory
    const maxTracked: nat
    var dropped: nat

    constructor (maxTracked: int)
      ensures firstAbsent == map[] && dropped == 0
      ensures this.maxTracked == if maxTracked <= 0 then 1 else maxTracked
    {
      firstAbsent := map[];
      dropped := 0;
      this.maxTracked := if maxTracked <= 0 then 1 else maxTracked;
    }

    /** Forgets every key that is no candidate. */
    method KeepOnly(candidates: seq<Key>)
      modifies this`firstAbsent
      ensures firstAbsent == Kept(old(firstAbsent), candidates)
    {
      var rest := firstAbsent.Keys;
      ghost var was := firstAbsent;
      while rest != {}
        invariant rest <= was.Keys
        invariant firstAbsent.Keys <= was.Keys && forall k :: k in firstAbsent ==> firstAbsent[k] == was[k]
        invariant forall k :: k in was ==> (k in firstAbsent <==> k in rest || k in candidates)
        decreases |rest|
      {
        var key :| key in rest;
        rest := rest - {key};
        if key !in candidates {
          firstAbsent := map k | k in firstAbsent && k != key :: firstAbsent[k];
        }
      }
      assert firstAbsent == Kept(was, candidates);
    }

    /** Records the candidates and forgets what is no longer one. */
    method Note(candidates: seq<Key>, observation: Bytes, now: int)
      modifies this
      ensures (firstAbsent, dropped - old(dropped)) == Noted(old(firstAbsent), candidates, observation, now, maxTracked)
    {
      hide SortKeys, Kept;
      KeepOnly(candidates);
      ghost var kept := firstAbsent;
      var ordered := SortKeys(candidates);
      var index := 0;
      ghost var absence := Absence(now, observation);
      assert ordered[..0] == [];
      while index < |ordered|
        invariant 0 <= index <= |ordered|
        invariant dropped >= old(dropped)
        invariant (firstAbsent, dropped - old(dropped)) == Admit(kept, ordered[..index], absence, maxTracked)
      {
        var key := ordered[index];
        assert ordered[..index + 1][..index] == ordered[..index];
        index := index + 1;
        if key in firstAbsent {
          continue;
        }
        if |firstAbsent| >= maxTracked {
          dropped := dropped + 1;
          continue;
        }
        firstAbsent := firstAbsent[key := Absence(now, observation)];
      }
      assert ordered[..index] == ordered;
    }

    method Absences() returns (absences: Memory)
      ensures absences == firstAbsent
    {
      absences := map k | k in firstAbsent :: firstAbsent[k];
    }

    /** Drops every clock. */
    method Forget()
      modifies this
      ensures firstAbsent == map[] && dropped == old(dropped)
    {
      firstAbsent := map[];
    }

    /** The whole decision with the memory in it. */
    method Round(r: Round, b: Bounds) returns (result: Result)
      modifies this
      ensures (firstAbsent, dropped - old(dropped), result) == RoundStep(old(firstAbsent), maxTracked, r, b)
    {
      hide Noted, Computed, CandidateList, Listing, RefusalOf;
      var candidates, _, refusal := Candidates(r, b);
      if refusal != Decided {
        result := Compute(r, b);
        return;
      }
      OnlyList(candidates, r);
      Note(candidates, r.observation, r.now);
      var absences := Absences();
      result := Compute(r.(firstAbsent := absences), b);
    }
  }
}
