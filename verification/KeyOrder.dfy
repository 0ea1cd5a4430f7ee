/** Keyed members in key order, and why the order of a list with distinct keys is its only one. */
module KeyOrder {
  import opened Bytes

  datatype Member<+V> = Member(key: Bytes, value: V)

  predicate DistinctKeys<V>(members: seq<Member<V>>) {
    forall i, j :: 0 <= i < j < |members| ==> members[i].key != members[j].key
  }

  /** Puts a member before the first whose key is above its own. */
  function Insert<V>(m: Member<V>, sorted: seq<Member<V>>): seq<Member<V>> {
    if sorted == [] || Less(m.key, sorted[0].key) then [m] + sorted
    else [sorted[0]] + Insert(m, sorted[1..])
  }

  function SortMembers<V>(members: seq<Member<V>>): seq<Member<V>> {
    if members == [] then [] else Insert(members[0], SortMembers(members[1..]))
  }

  /** No key is above a later one. */
  predicate Ascending<V>(members: seq<Member<V>>) {
    forall i, j :: 0 <= i < j < |members| ==> !Less(members[j].key, members[i].key)
  }

  predicate StrictlyAscending<V>(members: seq<Member<V>>) {
    forall i, j :: 0 <= i < j < |members| ==> Less(members[i].key, members[j].key)
  }

  lemma {:induction false} InsertPermutes<V>(m: Member<V>, sorted: seq<Member<V>>)
    ensures multiset(Insert(m, sorted)) == multiset(sorted) + multiset{m}
    ensures |Insert(m, sorted)| == |sorted| + 1
  {
    if sorted != [] && !Less(m.key, sorted[0].key) {
      InsertPermutes(m, sorted[1..]);
      assert sorted == [sorted[0]] + sorted[1..];
    }
  }

  lemma {:induction false} SortPermutes<V>(members: seq<Member<V>>)
    ensures multiset(SortMembers(members)) == multiset(members)
    ensures |SortMembers(members)| == |members|
  {
    if members != [] {
      SortPermutes(members[1..]);
      InsertPermutes(members[0], SortMembers(members[1..]));
      assert members == [members[0]] + members[1..];
    }
  }

  lemma InMultiset<V>(members: seq<Member<V>>, m: Member<V>)
    ensures m in members <==> m in multiset(members)
  {
  }

  lemma {:induction false} InsertAscends<V>(m: Member<V>, sorted: seq<Member<V>>)
    requires StrictlyAscending(sorted)
    requires forall s <- sorted :: s.key != m.key
    ensures StrictlyAscending(Insert(m, sorted))
  {
    if sorted == [] {
    } else if Less(m.key, sorted[0].key) {
      forall j | 0 < j < |sorted| ensures Less(m.key, sorted[j].key) {
        LessTransitive(m.key, sorted[0].key, sorted[j].key);
      }
    } else {
      LessTotal(m.key, sorted[0].key);
      assert forall s <- sorted[1..] :: s in sorted;
      InsertAscends(m, sorted[1..]);
      InsertPermutes(m, sorted[1..]);
      var tail := Insert(m, sorted[1..]);
      forall j | 0 <= j < |tail| ensures Less(sorted[0].key, tail[j].key) {
        InMultiset(tail, tail[j]);
        if tail[j] != m {
          InMultiset(sorted[1..], tail[j]);
        }
      }
    }
  }

  /** Members with distinct keys sort into strictly ascending order. */
  lemma {:induction false} SortAscends<V>(members: seq<Member<V>>)
    requires DistinctKeys(members)
    ensures StrictlyAscending(SortMembers(members))
  {
    if members != [] {
      SortAscends(members[1..]);
      SortPermutes(members[1..]);
      forall s <- SortMembers(members[1..]) ensures s.key != members[0].key {
        InMultiset(SortMembers(members[1..]), s);
        InMultiset(members[1..], s);
      }
      InsertAscends(members[0], SortMembers(members[1..]));
    }
  }

  /** Two strictly ascending lists of the same members are one list. */
  lemma {:induction false} AscendingUnique<V>(a: seq<Member<V>>, b: seq<Member<V>>)
    requires StrictlyAscending(a) && StrictlyAscending(b)
    requires forall m :: m in a <==> m in b
    ensures a == b
  {
    assert b != [] ==> b[0] in a;
    assert a != [] ==> a[0] in b;
    if a != [] {
      HeadsAgree(a, b);
      forall m ensures m in a[1..] <==> m in b[1..] {
        InTail(a, m);
        InTail(b, m);
      }
      AscendingUnique(a[1..], b[1..]);
      assert a == [a[0]] + a[1..] && b == [b[0]] + b[1..];
    }
  }

  lemma InTail<V>(a: seq<Member<V>>, m: Member<V>)
    requires StrictlyAscending(a) && a != []
    ensures m in a[1..] <==> m in a && m != a[0]
  {
    LessTotal(a[0].key, a[0].key);
    assert a == [a[0]] + a[1..];
  }

  lemma HeadsAgree<V>(a: seq<Member<V>>, b: seq<Member<V>>)
    requires StrictlyAscending(a) && StrictlyAscending(b) && a != [] && b != []
    requires a[0] in b && b[0] in a
    ensures a[0] == b[0]
  {
    LessTotal(a[0].key, b[0].key);
  }

  /** A permutation that ascends and repeats no key is the sorted list. */
  lemma AscendingIsSorted<V>(members: seq<Member<V>>, arranged: seq<Member<V>>)
    requires multiset(arranged) == multiset(members)
    requires Ascending(arranged)
    ensures DistinctKeys(arranged) == DistinctKeys(members)
    ensures DistinctKeys(members) ==> arranged == SortMembers(members)
  {
    if DistinctKeys(arranged) {
      DistinctPermutes(arranged, members);
    }
    if DistinctKeys(members) {
      DistinctPermutes(members, arranged);
      SortAscends(members);
      SortPermutes(members);
      forall i, j | 0 <= i < j < |arranged| ensures Less(arranged[i].key, arranged[j].key) {
        LessTotal(arranged[i].key, arranged[j].key);
      }
      forall m ensures m in arranged <==> m in SortMembers(members) {
        InMultiset(arranged, m);
        InMultiset(SortMembers(members), m);
      }
      AscendingUnique(arranged, SortMembers(members));
    }
  }

  lemma KeyTwice<V>(members: seq<Member<V>>, i: nat, j: nat)
    requires i < j < |members|
    ensures members[i] == members[j] ==> multiset(members)[members[i]] >= 2
  {
    assert members == members[..i] + [members[i]] + members[i + 1..j] + [members[j]] + members[j + 1..];
  }

  lemma FindTwo<V>(members: seq<Member<V>>, m: Member<V>)
    requires multiset(members)[m] >= 2
    ensures exists i, j :: 0 <= i < j < |members| && members[i] == m && members[j] == m
  {
    InMultiset(members, m);
    var i :| 0 <= i < |members| && members[i] == m;
    var others := members[..i] + members[i + 1..];
    assert members == members[..i] + [m] + members[i + 1..];
    assert multiset(others)[m] >= 1;
    InMultiset(others, m);
    var k :| 0 <= k < |others| && others[k] == m;
    if k < i {
      assert members[k] == m && members[i] == m;
    } else {
      assert members[k + 1] == m && members[i] == m;
    }
  }

  lemma DistinctPermutes<V>(a: seq<Member<V>>, b: seq<Member<V>>)
    requires multiset(a) == multiset(b)
    requires DistinctKeys(a)
    ensures DistinctKeys(b)
  {
    forall i, j | 0 <= i < j < |b| ensures b[i].key != b[j].key {
      if b[i].key == b[j].key {
        InMultiset(a, b[i]);
        InMultiset(a, b[j]);
        InMultiset(b, b[i]);
        InMultiset(b, b[j]);
        if b[i] == b[j] {
          KeyTwice(b, i, j);
          FindTwo(a, b[i]);
        }
      }
    }
  }

  /** In an ascending list two equal keys anywhere mean two equal keys side by side. */
  lemma RepeatIsAdjacent<V>(members: seq<Member<V>>)
    requires Ascending(members)
    ensures DistinctKeys(members) <==> forall i :: 0 < i < |members| ==> members[i].key != members[i - 1].key
  {
    if forall i :: 0 < i < |members| ==> members[i].key != members[i - 1].key {
      forall i, j | 0 <= i < j < |members| ensures members[i].key != members[j].key {
        LessTotal(members[j - 1].key, members[j].key);
        LessTotal(members[i].key, members[j - 1].key);
        if i < j - 1 && members[i].key != members[j - 1].key {
          LessTransitive(members[i].key, members[j - 1].key, members[j].key);
        }
        LessTotal(members[j].key, members[j].key);
      }
    }
  }
}
