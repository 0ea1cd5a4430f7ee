/** A backlog is worked off: how many rounds it takes until every closable strategy has been closed. */
module AbsentProgress {
  import opened Bytes
  import opened AbsentAlerts

  // ---------- Blocks of a cycle ----------

  /** How many places on from p the place x is, going round a cycle of e places. */
  function Distance(e: nat, p: nat, x: nat): nat
    requires p < e && x < e
  {
    if x >= p then x - p else x + e - p
  }

  function Least(a: nat, b: nat): nat {
    if a <= b then a else b
  }

  /** Where the next block starts: just past this one, unless the block ends at the front place and that place is none to start after. */
  function NextOffset(e: nat, m: nat, zero: bool, p: nat): (next: nat)
    requires 0 < m && p < e
    ensures next < e
  {
    var last := if p + Least(m, e) - 1 < e then p + Least(m, e) - 1 else p + Least(m, e) - 1 - e;
    if zero && last == 0 then 0 else if last + 1 < e then last + 1 else 0
  }

  /** Whether a place is in one of so many blocks of m places, the first at p. */
  predicate Covered(e: nat, m: nat, zero: bool, p: nat, rounds: nat, x: nat)
    requires 0 < m && p < e && x < e
    decreases rounds
  {
    rounds > 0 && (Distance(e, p, x) < m || Covered(e, m, zero, NextOffset(e, m, zero, p), rounds - 1, x))
  }

  lemma {:induction false} CoveredAhead(e: nat, m: nat, p: nat, rounds: nat, x: nat)
    requires 0 < m && p < e && x < e && Distance(e, p, x) < rounds * m
    ensures Covered(e, m, false, p, rounds, x)
    decreases rounds
  {
    if Distance(e, p, x) >= m {
      assert rounds * m == (rounds - 1) * m + m;
      CoveredAhead(e, m, NextOffset(e, m, false, p), rounds - 1, x);
    }
  }

  lemma {:induction false} CoveredBefore(e: nat, m: nat, p: nat, rounds: nat, x: nat)
    requires 1 < m && p <= x < e && x < p + rounds * m
    ensures Covered(e, m, true, p, rounds, x)
    decreases rounds
  {
    if Distance(e, p, x) >= m {
      assert rounds * m == (rounds - 1) * m + m;
      CoveredBefore(e, m, NextOffset(e, m, true, p), rounds - 1, x);
    }
  }

  lemma {:induction false} CoveredAround(e: nat, m: nat, p: nat, rounds: nat, x: nat)
    requires 1 < m < e && x < p < e && Distance(e, p, x) + 1 < rounds * m
    ensures Covered(e, m, true, p, rounds, x)
    decreases rounds
  {
    if Distance(e, p, x) >= m {
      assert rounds * m == (rounds - 1) * m + m;
      var next := NextOffset(e, m, true, p);
      if p + m < e {
        CoveredAround(e, m, next, rounds - 1, x);
      } else {
        CoveredBefore(e, m, next, rounds - 1, x);
      }
    }
  }

  lemma {:induction false} Missed(e: nat, m: nat, p: nat, rounds: nat, x: nat)
    requires 1 < m < e && p <= x < e && p + rounds * m <= x
    ensures !Covered(e, m, true, p, rounds, x)
    decreases rounds
  {
    if rounds > 0 {
      assert rounds * m == (rounds - 1) * m + m;
      assert (rounds - 1) * m >= 0;
      Missed(e, m, NextOffset(e, m, true, p), rounds - 1, x);
    }
  }

  lemma {:induction false} Stuck(e: nat, rounds: nat, x: nat)
    requires 0 < x < e
    ensures !Covered(e, 1, true, 0, rounds, x)
    decreases rounds
  {
    if rounds > 0 {
      Stuck(e, rounds - 1, x);
    }
  }

  /** The rounds it takes to go through e in blocks of m. */
  function RoundsFor(e: nat, m: nat): nat
    requires 0 < m
  {
    (e + m - 1) / m
  }

  lemma RoundsEnough(e: nat, m: nat)
    requires 0 < m
    ensures e <= RoundsFor(e, m) * m < e + m
    ensures RoundsFor(e, m) * m == e <==> e % m == 0
  {
    var q := RoundsFor(e, m);
    assert e + m - 1 == m * q + (e + m - 1) % m;
    assert q * m == m * q;
    if q * m == e {
      ModUnique(e, m, q, 0);
    }
    if e % m == 0 {
      var d := e / m;
      assert e == m * d;
      assert m * q - m * d == m * (q - d);
      Multiple(m, q - d);
    }
  }

  /** Whether a start can be unlucky: a block may end at a front place that is none to start after, with no room to spare. */
  predicate Unlucky(e: nat, m: nat, zero: bool)
    requires 0 < m
  {
    zero && m < e && e % m == 0
  }

  lemma AllCovered(e: nat, m: nat, zero: bool, p: nat, x: nat)
    requires 0 < m && p < e && x < e && !Unlucky(e, m, zero)
    ensures Covered(e, m, zero, p, RoundsFor(e, m), x)
  {
    var q := RoundsFor(e, m);
    RoundsEnough(e, m);
    if m >= e {
      assert q >= 1;
    } else if !zero {
      CoveredAhead(e, m, p, q, x);
    } else {
      assert m != 1 by {
        ModUnique(e, 1, e, 0);
      }
      if x >= p {
        CoveredBefore(e, m, p, q, x);
      } else {
        CoveredAround(e, m, p, q, x);
      }
    }
  }

  lemma AtLeastTwice(e: nat, m: nat)
    requires 0 < m < e && e % m == 0
    ensures e >= 2 * m
  {
    var d := e / m;
    assert e == m * d;
    if d <= 1 {
      AtMostOnce(m, d);
    } else {
      MultipleGrows(m, d - 1);
      assert m * d == m * (d - 1) + m;
    }
  }

  lemma AtMostOnce(m: nat, d: nat)
    requires d <= 1
    ensures m * d <= m
  {
  }

  /** Where an unlucky start is, and what it leaves out. */
  lemma OneMissed(e: nat, m: nat) returns (p: nat, x: nat)
    requires 0 < m && Unlucky(e, m, true)
    ensures p < e && x < e && p != 1 && !Covered(e, m, true, p, RoundsFor(e, m), x)
  {
    var q := RoundsFor(e, m);
    RoundsEnough(e, m);
    x := e - m;
    if m == 1 {
      p := 0;
      Stuck(e, q, x);
    } else {
      p := e + 1 - m;
      AtLeastTwice(e, m);
      assert q * m == (q - 1) * m + m;
      Missed(e, m, 0, q - 1, x);
    }
  }

  // ---------- Rounds over a stable backlog ----------

  lemma {:induction false} ReadyLists(r: Round, b: Bounds, keys: seq<Key>)
    requires Listing(keys)
    ensures Listing(ReadyOf(r, b, keys))
  {
    hide Ready, LessKey;
    if keys != [] {
      var front := keys[..|keys| - 1];
      ReadyLists(r, b, front);
      ReadyAmong(r, b, front);
      var ready := ReadyOf(r, b, front);
      forall i | 0 <= i < |ready| ensures LessKey(ready[i], keys[|keys| - 1]) {
        assert ready[i] in front;
        var j :| 0 <= j < |front| && front[j] == ready[i];
        assert keys[j] == ready[i];
      }
    }
  }

  lemma {:induction false} AboveOrNot(keys: seq<Key>, after: Key)
    requires Listing(keys)
    ensures forall i :: 0 <= i < |keys| ==> (LessKey(after, keys[i]) <==> i >= NotAbove(keys, after))
  {
    hide LessKey;
    if keys != [] {
      if LessKey(after, keys[0]) {
        forall i | 0 < i < |keys| ensures LessKey(after, keys[i]) {
          KeysTransitive(after, keys[0], keys[i]);
        }
      } else {
        AboveOrNot(keys[1..], after);
        assert forall i :: 0 < i < |keys| ==> keys[i] == keys[1..][i - 1];
      }
    }
  }

  lemma WalkEnds(keys: seq<Key>)
    ensures Walk(keys, 0) == keys && Walk(keys, |keys|) == keys
  {
  }

  lemma WalkFrom(keys: seq<Key>, after: Key)
    ensures Walk(keys, Rotation(keys, after)) == if after == NO_KEY then keys else Walk(keys, NotAbove(keys, after))
  {
    hide NotAbove, Walk;
    WalkEnds(keys);
    var n := NotAbove(keys, after);
    if after == NO_KEY || keys == [] {
    } else if n == |keys| {
      Wraps(n, |keys|);
    } else {
      SmallMod(n, |keys|);
    }
  }

  /** The ready keys a walk over the candidates meets are the ready keys walked alone. */
  lemma ReadyWalk(r: Round, b: Bounds, keys: seq<Key>, after: Key)
    requires Listing(keys)
    ensures ReadyOf(r, b, Walk(keys, Rotation(keys, after))) == Walk(ReadyOf(r, b, keys), Rotation(ReadyOf(r, b, keys), after))
  {
    hide Ready, LessKey, Listing, Rotation, NotAbove, ReadyOf, Walk;
    var ready, n := ReadyOf(r, b, keys), NotAbove(keys, after);
    WalkFrom(keys, after);
    WalkFrom(ready, after);
    var low, high := keys[..n], keys[n..];
    assert keys == low + high;
    assert n == |low|;
    WalkJoined(low, high);
    WalkEnds(keys);
    WalkEnds(ready);
    ReadyJoins(r, b, low, high);
    ReadyJoins(r, b, high, low);
    var below, above := ReadyOf(r, b, low), ReadyOf(r, b, high);
    ReadyApart(r, b, keys, after);
    NotAboveAt(ready, after, |below|);
    WalkJoined(below, above);
  }

  /** The ready keys not above a key come first, and the ones above it after them. */
  lemma ReadyApart(r: Round, b: Bounds, keys: seq<Key>, after: Key)
    requires Listing(keys)
    ensures var n := NotAbove(keys, after);
            var below, above := ReadyOf(r, b, keys[..n]), ReadyOf(r, b, keys[n..]);
            && (forall k <- below :: !LessKey(after, k)) && (forall k <- above :: LessKey(after, k))
            && ReadyOf(r, b, keys) == below + above
            && (forall i :: 0 <= i < |below| ==> !LessKey(after, (below + above)[i]))
            && (above != [] ==> LessKey(after, (below + above)[|below|]))
  {
    hide Ready, LessKey, Listing, NotAbove, ReadyOf;
    var n := NotAbove(keys, after);
    var low, high := keys[..n], keys[n..];
    assert keys == low + high;
    AboveOrNot(keys, after);
    ReadyJoins(r, b, low, high);
    ReadyAmong(r, b, low);
    ReadyAmong(r, b, high);
    var below, above := ReadyOf(r, b, low), ReadyOf(r, b, high);
    forall k <- below ensures !LessKey(after, k) {
      var i :| 0 <= i < |low| && low[i] == k;
      assert keys[i] == k;
    }
    forall k <- above ensures LessKey(after, k) {
      var i :| 0 <= i < |high| && high[i] == k;
      assert keys[n + i] == k;
    }
    forall i | 0 <= i < |below| ensures !LessKey(after, (below + above)[i]) {
      assert below[i] in below;
    }
    if above != [] {
      assert above[0] in above;
    }
  }

  lemma WalkJoined(below: seq<Key>, above: seq<Key>)
    ensures Walk(below + above, |below|) == above + below
  {
  }

  /** What a backlog's round closes, and so where the next round starts. */
  function Block(backlog: seq<Key>, most: nat, after: Key): seq<Key> {
    Bounded(Walk(backlog, Rotation(backlog, after)), most)
  }

  /** The keys each of some rounds closes, every round started after the last key closed before it. */
  ghost function CloseRuns(rounds: seq<Round>, b: Bounds, after: Key): (runs: seq<seq<Key>>)
    ensures |runs| == |rounds|
    decreases |rounds|
  {
    if rounds == [] then []
    else
      var r := rounds[0].(after := after);
      var closed := Chosen(r, b, CandidateList(r));
      [closed] + CloseRuns(rounds[1..], b, if closed == [] then after else closed[|closed| - 1])
  }

  /** Every round decides, and finds the same strategies ready to close. */
  ghost predicate Stable(rounds: seq<Round>, b: Bounds, backlog: seq<Key>) {
    forall r <- rounds :: RefusalOf(r, b) == Decided && ReadyOf(r, b, CandidateList(r)) == backlog
  }

  ghost predicate ClosedIn(runs: seq<seq<Key>>, k: Key) {
    exists i :: 0 <= i < |runs| && k in runs[i]
  }

  lemma AfterAside(r: Round, b: Bounds, after: Key)
    ensures CandidateList(r.(after := after)) == CandidateList(r)
    ensures forall keys :: ReadyOf(r.(after := after), b, keys) == ReadyOf(r, b, keys)
  {
    hide Listing, CandidateList;
    OnlyList(CandidateList(r.(after := after)), r);
    forall keys ensures ReadyOf(r.(after := after), b, keys) == ReadyOf(r, b, keys) {
      SameReady(r, b, after, keys);
    }
  }

  lemma {:induction false} SameReady(r: Round, b: Bounds, after: Key, keys: seq<Key>)
    ensures ReadyOf(r.(after := after), b, keys) == ReadyOf(r, b, keys)
  {
    if keys != [] {
      SameReady(r, b, after, keys[..|keys| - 1]);
    }
  }

  lemma RoundCloses(r: Round, b: Bounds, backlog: seq<Key>, after: Key)
    requires ReadyOf(r, b, CandidateList(r)) == backlog && b.maxCloseStrategies > 0
    ensures Chosen(r.(after := after), b, CandidateList(r.(after := after))) == Block(backlog, b.maxCloseStrategies, after)
  {
    hide ReadyOf, CandidateList, Listing, Walk, Rotation, Bounded;
    var s := r.(after := after);
    AfterAside(r, b, after);
    ReadyWalk(s, b, CandidateList(s), after);
  }

  lemma NoKeyFirst(backlog: seq<Key>, x: nat)
    requires Listing(backlog) && x < |backlog| && backlog[x] == NO_KEY
    ensures x == 0
  {
    hide LessKey;
    assert x > 0 ==> LessKey(backlog[0], backlog[x]);
    KeysTotal(backlog[0], NO_KEY);
  }

  /** Which places of the backlog a round closes, and where the next one starts. */
  lemma BlockIs(backlog: seq<Key>, m: nat, after: Key)
    requires Listing(backlog) && backlog != [] && m > 0
    ensures var e, p, block := |backlog|, Rotation(backlog, after), Block(backlog, m, after);
            && |block| == Least(m, e)
            && (forall x :: 0 <= x < e ==> (backlog[x] in block <==> Distance(e, p, x) < m))
            && Rotation(backlog, block[|block| - 1]) == NextOffset(e, m, NO_KEY in backlog, p)
  {
    hide LessKey, Rotation, Listing, Walk;
    var e, p, block := |backlog|, Rotation(backlog, after), Block(backlog, m, after);
    ListingDistinct(backlog);
    WalkAt(backlog, p);
    forall x | 0 <= x < e ensures backlog[x] in block <==> Distance(e, p, x) < m {
      InBlock(backlog, p, m, x);
    }
    var i := Least(m, e) - 1;
    AfterPlace(backlog, if p + i < e then p + i else p + i - e);
  }

  lemma WalkAt(backlog: seq<Key>, p: nat)
    requires p < |backlog|
    ensures var walk := Walk(backlog, p);
            |walk| == |backlog| && forall i :: 0 <= i < |walk| ==> walk[i] == backlog[if p + i < |backlog| then p + i else p + i - |backlog|]
  {
  }

  lemma InBlock(backlog: seq<Key>, p: nat, m: nat, x: nat)
    requires Distinct(backlog) && p < |backlog| && x < |backlog| && m > 0
    ensures backlog[x] in Bounded(Walk(backlog, p), m) <==> Distance(|backlog|, p, x) < m
  {
    hide Walk, Distinct;
    var walk := Walk(backlog, p);
    var block, d := Bounded(walk, m), Distance(|backlog|, p, x);
    WalkAt(backlog, p);
    assert walk[d] == backlog[x];
    if d < m {
      assert block[d] == backlog[x];
    }
    if backlog[x] in block {
      var i :| 0 <= i < |block| && block[i] == backlog[x];
      PlaceOf(backlog, p, x, i);
    }
  }

  lemma PlaceOf(backlog: seq<Key>, p: nat, x: nat, i: nat)
    requires Distinct(backlog) && p < |backlog| && x < |backlog| && i < |backlog|
    requires Walk(backlog, p)[i] == backlog[x]
    ensures i == Distance(|backlog|, p, x)
  {
    var e := |backlog|;
    var y := if p + i < e then p + i else p + i - e;
    assert Walk(backlog, p)[i] == backlog[y];
    assert y == x;
  }

  lemma AfterPlace(backlog: seq<Key>, x: nat)
    requires Listing(backlog) && x < |backlog|
    ensures Rotation(backlog, backlog[x]) == if NO_KEY in backlog && x == 0 then 0 else if x + 1 < |backlog| then x + 1 else 0
  {
    hide LessKey;
    if backlog[x] == NO_KEY {
      NoKeyFirst(backlog, x);
    } else {
      forall i | 0 <= i < x + 1 ensures !LessKey(backlog[x], backlog[i]) {
        KeysTotal(backlog[x], backlog[i]);
      }
      NotAboveAt(backlog, backlog[x], x + 1);
      Wraps(x + 1, |backlog|);
      if NO_KEY in backlog {
        var y :| 0 <= y < |backlog| && backlog[y] == NO_KEY;
        NoKeyFirst(backlog, y);
      }
    }
  }

  /** A key of the backlog is closed in some of the rounds exactly when its place is in one of the blocks. */
  lemma {:induction false} ClosedIffCovered(rounds: seq<Round>, b: Bounds, backlog: seq<Key>, after: Key, x: nat)
    requires Stable(rounds, b, backlog) && Listing(backlog) && x < |backlog| && b.maxCloseStrategies > 0
    ensures ClosedIn(CloseRuns(rounds, b, after), backlog[x]) <==>
            Covered(|backlog|, b.maxCloseStrategies, NO_KEY in backlog, Rotation(backlog, after), |rounds|, x)
    decreases |rounds|
  {
    hide Listing, Rotation, Block, Chosen, CandidateList, ReadyOf, RefusalOf, Distance, NextOffset;
    var runs := CloseRuns(rounds, b, after);
    if rounds != [] {
      var m := b.maxCloseStrategies;
      assert rounds[0] in rounds;
      RoundCloses(rounds[0], b, backlog, after);
      BlockIs(backlog, m, after);
      var block := Block(backlog, m, after);
      assert runs[0] == block && block != [];
      ClosedIffCovered(rounds[1..], b, backlog, block[|block| - 1], x);
      ClosedFirst(runs, backlog[x]);
    }
  }

  lemma ClosedFirst(runs: seq<seq<Key>>, k: Key)
    requires runs != []
    ensures ClosedIn(runs, k) <==> k in runs[0] || ClosedIn(runs[1..], k)
  {
    if ClosedIn(runs, k) {
      var i :| 0 <= i < |runs| && k in runs[i];
      if i > 0 {
        assert runs[1..][i - 1] == runs[i];
      }
    }
    if ClosedIn(runs[1..], k) {
      var i :| 0 <= i < |runs[1..]| && k in runs[1..][i];
      assert runs[i + 1] == runs[1..][i];
    }
  }

  /** Whether, whatever was closed last, the rounds it takes to go through a backlog close all of it. */
  ghost predicate WorkedOff(rounds: seq<Round>, b: Bounds, backlog: seq<Key>) {
    forall after, x :: 0 <= x < |backlog| ==> ClosedIn(CloseRuns(rounds, b, after), backlog[x])
  }

  /**
   * As many rounds as the bound needs to go through a backlog close every strategy of it, wherever the
   * last one left off. The one exception: a strategy with neither tenant nor id is in the backlog, and
   * the bound is below the backlog and divides it.
   */
  lemma BacklogIsWorkedOff(rounds: seq<Round>, b: Bounds, backlog: seq<Key>)
    requires Listing(backlog) && b.maxCloseStrategies > 0 && Stable(rounds, b, backlog)
    requires |rounds| == RoundsFor(|backlog|, b.maxCloseStrategies)
    ensures WorkedOff(rounds, b, backlog) <==> !Unlucky(|backlog|, b.maxCloseStrategies, NO_KEY in backlog)
  {
    hide Listing, Rotation, CloseRuns, Covered, Unlucky, Stable, ClosedIn;
    var e, m := |backlog|, b.maxCloseStrategies;
    if !Unlucky(e, m, NO_KEY in backlog) {
      forall after, x | 0 <= x < e ensures ClosedIn(CloseRuns(rounds, b, after), backlog[x]) {
        AllCovered(e, m, NO_KEY in backlog, Rotation(backlog, after), x);
        ClosedIffCovered(rounds, b, backlog, after, x);
      }
    } else {
      UnluckyHasKey(e, m, NO_KEY in backlog);
      var p, x := OneMissed(e, m);
      var after := StartAt(backlog, p);
      ClosedIffCovered(rounds, b, backlog, after, x);
    }
  }

  lemma UnluckyHasKey(e: nat, m: nat, zero: bool)
    requires 0 < m && Unlucky(e, m, zero)
    ensures zero && e > 1
  {
  }

  /** A key after which the walk starts at a place. */
  lemma StartAt(backlog: seq<Key>, p: nat) returns (after: Key)
    requires Listing(backlog) && p < |backlog| && p != 1
    ensures Rotation(backlog, after) == p
  {
    if p == 0 {
      after := NO_KEY;
    } else {
      after := backlog[p - 1];
      AfterPlace(backlog, p - 1);
    }
  }
}
