/** What the canonical form is for: one text for each value, however its document was written. */
module CanonicalForm {
  import opened Bytes
  import opened JsonText
  import opened KeyOrder
  import opened Json
  import opened JsonPieces
  import opened Grammar
  import opened GrammarReading
  import Utf8

  // ---------- Values that differ only in member order ----------

  /** Whether two values differ at most in the order of their objects' members. */
  predicate Same(v: Value, w: Value)
    decreases v
  {
    match (v, w)
    case (Array(a), Array(b)) => |a| == |b| && forall i :: 0 <= i < |a| ==> Same(a[i], b[i])
    case (Object(a), Object(b)) => SameMembers(a, b)
    case _ => v == w
  }

  /** Each list has the other's keys, with the same values. */
  predicate SameMembers(a: seq<Member<Value>>, b: seq<Member<Value>>)
    decreases a
  {
    && (forall i :: 0 <= i < |a| ==> HasSame(a[i], b))
    && (forall j :: 0 <= j < |b| ==> HasKey(a, b[j].key))
  }

  predicate HasSame(m: Member<Value>, b: seq<Member<Value>>)
    decreases m
  {
    exists j :: 0 <= j < |b| && b[j].key == m.key && Same(m.value, b[j].value)
  }

  predicate HasKey(a: seq<Member<Value>>, key: Bytes) {
    exists i :: 0 <= i < |a| && a[i].key == key
  }

  /** Whether no object anywhere repeats a key. */
  predicate UniqueKeys(v: Value)
    decreases v
  {
    match v
    case Array(items) => forall i :: 0 <= i < |items| ==> UniqueKeys(items[i])
    case Object(members) => DistinctKeys(members) && forall i :: 0 <= i < |members| ==> UniqueKeys(members[i].value)
    case _ => true
  }

  lemma {:induction false} SortedMembersOf(members: seq<Member<Value>>, m: Member<Value>)
    ensures m in SortMembers(NormalMembers(members)) <==>
            exists i :: 0 <= i < |members| && m == Member(members[i].key, Normal(members[i].value))
  {
    hide Normal;
    var normal := NormalMembers(members);
    SortPermutes(normal);
    InMultiset(normal, m);
    InMultiset(SortMembers(normal), m);
    if m in normal {
      var i :| 0 <= i < |normal| && normal[i] == m;
      assert m == Member(members[i].key, Normal(members[i].value));
    }
    if i :| 0 <= i < |members| && m == Member(members[i].key, Normal(members[i].value)) {
      assert normal[i] == m;
    }
  }

  lemma NormalAscends(members: seq<Member<Value>>)
    requires DistinctKeys(members)
    ensures StrictlyAscending(SortMembers(NormalMembers(members)))
  {
    hide Normal, SortMembers;
    var normal := NormalMembers(members);
    assert forall i :: 0 <= i < |members| ==> normal[i].key == members[i].key;
    SortAscends(normal);
  }

  /** Two values have one normal form exactly when they differ in member order alone. */
  lemma {:induction false} SameIffNormal(v: Value, w: Value)
    requires UniqueKeys(v) && UniqueKeys(w)
    ensures Same(v, w) <==> Normal(v) == Normal(w)
    decreases v
  {
    match (v, w) {
      case (Array(a), Array(b)) =>
        forall i | 0 <= i < |a| && |a| == |b| ensures Same(a[i], b[i]) <==> Normal(a[i]) == Normal(b[i]) {
          SameIffNormal(a[i], b[i]);
        }
        assert forall i :: 0 <= i < |a| ==> NormalItems(a)[i] == Normal(a[i]);
        assert forall i :: 0 <= i < |b| ==> NormalItems(b)[i] == Normal(b[i]);
      case (Object(a), Object(b)) =>
        forall i, j | 0 <= i < |a| && 0 <= j < |b| ensures Same(a[i].value, b[j].value) <==> Normal(a[i].value) == Normal(b[j].value) {
          SameIffNormal(a[i].value, b[j].value);
        }
        MembersSameIffNormal(a, b);
      case _ =>
    }
  }

  lemma MembersSameIffNormal(a: seq<Member<Value>>, b: seq<Member<Value>>)
    requires DistinctKeys(a) && DistinctKeys(b)
    requires forall i, j :: 0 <= i < |a| && 0 <= j < |b| ==> (Same(a[i].value, b[j].value) <==> Normal(a[i].value) == Normal(b[j].value))
    ensures SameMembers(a, b) <==> SortMembers(NormalMembers(a)) == SortMembers(NormalMembers(b))
  {
    hide Normal, NormalMembers, SortMembers, Same, SameMembers;
    var x, y := SortMembers(NormalMembers(a)), SortMembers(NormalMembers(b));
    if SameMembers(a, b) {
      forall m ensures m in x <==> m in y {
        SameMemberIn(a, b, m);
      }
      NormalAscends(a);
      NormalAscends(b);
      AscendingUnique(x, y);
    }
    if x == y {
      NormalMembersSame(a, b);
    }
  }

  lemma SameMemberThere(a: seq<Member<Value>>, b: seq<Member<Value>>, m: Member<Value>)
    requires SameMembers(a, b) && m in SortMembers(NormalMembers(a))
    requires forall i, j :: 0 <= i < |a| && 0 <= j < |b| ==> (Same(a[i].value, b[j].value) <==> Normal(a[i].value) == Normal(b[j].value))
    ensures m in SortMembers(NormalMembers(b))
  {
    hide Normal, NormalMembers, SortMembers, Same, HasKey;
    SortedMembersOf(a, m);
    SortedMembersOf(b, m);
    var i :| 0 <= i < |a| && m == Member(a[i].key, Normal(a[i].value));
    assert HasSame(a[i], b);
    var j :| 0 <= j < |b| && b[j].key == a[i].key && Same(a[i].value, b[j].value);
    assert m == Member(b[j].key, Normal(b[j].value));
  }

  lemma SameMemberHere(a: seq<Member<Value>>, b: seq<Member<Value>>, m: Member<Value>)
    requires DistinctKeys(b) && SameMembers(a, b) && m in SortMembers(NormalMembers(b))
    requires forall i, j :: 0 <= i < |a| && 0 <= j < |b| ==> (Same(a[i].value, b[j].value) <==> Normal(a[i].value) == Normal(b[j].value))
    ensures m in SortMembers(NormalMembers(a))
  {
    hide Normal, NormalMembers, SortMembers, Same, DistinctKeys, HasSame, HasKey;
    SortedMembersOf(a, m);
    SortedMembersOf(b, m);
    var j :| 0 <= j < |b| && m == Member(b[j].key, Normal(b[j].value));
    assert HasKey(a, b[j].key);
    var i := KeyAt(a, b[j].key);
    assert HasSame(a[i], b);
    var k := SameAt(a[i], b);
    OneKey(b, j, k);
    assert m == Member(a[i].key, Normal(a[i].value));
  }

  lemma KeyAt(a: seq<Member<Value>>, key: Bytes) returns (i: nat)
    requires HasKey(a, key)
    ensures i < |a| && a[i].key == key
  {
    i :| 0 <= i < |a| && a[i].key == key;
  }

  lemma SameAt(m: Member<Value>, b: seq<Member<Value>>) returns (j: nat)
    requires HasSame(m, b)
    ensures j < |b| && b[j].key == m.key && Same(m.value, b[j].value)
  {
    hide Same;
    j :| 0 <= j < |b| && b[j].key == m.key && Same(m.value, b[j].value);
  }

  lemma OneKey(b: seq<Member<Value>>, j: nat, k: nat)
    requires DistinctKeys(b) && j < |b| && k < |b| && b[j].key == b[k].key
    ensures j == k
  {
  }

  lemma SameMemberIn(a: seq<Member<Value>>, b: seq<Member<Value>>, m: Member<Value>)
    requires DistinctKeys(b) && SameMembers(a, b)
    requires forall i, j :: 0 <= i < |a| && 0 <= j < |b| ==> (Same(a[i].value, b[j].value) <==> Normal(a[i].value) == Normal(b[j].value))
    ensures m in SortMembers(NormalMembers(a)) <==> m in SortMembers(NormalMembers(b))
  {
    hide Normal, NormalMembers, SortMembers, Same, SameMembers, DistinctKeys;
    if m in SortMembers(NormalMembers(a)) {
      SameMemberThere(a, b, m);
    } else if m in SortMembers(NormalMembers(b)) {
      SameMemberHere(a, b, m);
    }
  }

  lemma NormalMembersSame(a: seq<Member<Value>>, b: seq<Member<Value>>)
    requires SortMembers(NormalMembers(a)) == SortMembers(NormalMembers(b))
    requires forall i, j :: 0 <= i < |a| && 0 <= j < |b| ==> (Same(a[i].value, b[j].value) <==> Normal(a[i].value) == Normal(b[j].value))
    ensures SameMembers(a, b)
  {
    hide Normal, NormalMembers, SortMembers, Same;
    forall i | 0 <= i < |a| ensures HasSame(a[i], b) {
      var m := Member(a[i].key, Normal(a[i].value));
      SortedMembersOf(a, m);
      SortedMembersOf(b, m);
      var j :| 0 <= j < |b| && m == Member(b[j].key, Normal(b[j].value));
      assert Same(a[i].value, b[j].value);
    }
    forall j | 0 <= j < |b| ensures HasKey(a, b[j].key) {
      var m := Member(b[j].key, Normal(b[j].value));
      SortedMembersOf(a, m);
      SortedMembersOf(b, m);
      var i :| 0 <= i < |a| && m == Member(a[i].key, Normal(a[i].value));
    }
  }

  /** A normal form is its own. */
  lemma {:induction false} NormalTwice(v: Value)
    requires UniqueKeys(v)
    ensures Normal(Normal(v)) == Normal(v) && UniqueKeys(Normal(v))
    decreases v
  {
    match v {
      case Array(items) =>
        forall i | 0 <= i < |items| ensures Normal(Normal(items[i])) == Normal(items[i]) && UniqueKeys(Normal(items[i])) {
          NormalTwice(items[i]);
        }
        assert NormalItems(NormalItems(items)) == NormalItems(items);
      case Object(members) =>
        forall i | 0 <= i < |members|
          ensures Normal(Normal(members[i].value)) == Normal(members[i].value) && UniqueKeys(Normal(members[i].value))
        {
          NormalTwice(members[i].value);
        }
        MembersTwice(members);
      case _ =>
    }
  }

  lemma MembersTwice(members: seq<Member<Value>>)
    requires DistinctKeys(members)
    requires forall i :: 0 <= i < |members| ==> Normal(Normal(members[i].value)) == Normal(members[i].value) && UniqueKeys(Normal(members[i].value))
    ensures var sorted := SortMembers(NormalMembers(members));
            SortMembers(NormalMembers(sorted)) == sorted && UniqueKeys(Object(sorted))
  {
    hide Normal, SortMembers;
    var sorted := SortMembers(NormalMembers(members));
    NormalAscends(members);
    forall k | 0 <= k < |sorted| ensures Normal(sorted[k].value) == sorted[k].value && UniqueKeys(sorted[k].value) {
      SortedMembersOf(members, sorted[k]);
    }
    assert NormalMembers(sorted) == sorted;
    SortedStays(sorted);
  }

  lemma SortedStays(sorted: seq<Member<Value>>)
    requires StrictlyAscending(sorted)
    ensures SortMembers(sorted) == sorted && DistinctKeys(sorted)
  {
    hide SortMembers;
    forall i, j | 0 <= i < j < |sorted| ensures sorted[i].key != sorted[j].key {
      LessTotal(sorted[i].key, sorted[i].key);
    }
    SortAscends(sorted);
    SortPermutes(sorted);
    forall m ensures m in SortMembers(sorted) <==> m in sorted {
      InMultiset(SortMembers(sorted), m);
      InMultiset(sorted, m);
    }
    AscendingUnique(SortMembers(sorted), sorted);
  }
}
