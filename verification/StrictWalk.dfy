/** The walk over a document's tokens that refuses repeated keys and numbers past the float range. */
module StrictWalk {
  import opened Bytes
  import opened JsonText
  import opened KeyOrder
  import opened Json
  import opened Grammar
  import opened CanonicalRoundTrip

  // ---------- Tokens ----------

  datatype Token = OpenObject | CloseObject | OpenArray | CloseArray | StringToken(text: Bytes) | NumberToken(token: Bytes) | WordToken

  /** The tokens of a document's value, one after another. */
  function Tokens(v: Value): seq<Token>
    decreases v
  {
    match v
    case Number(token) => [NumberToken(token)]
    case Text(text) => [StringToken(text)]
    case Array(items) => [OpenArray] + (ItemTokens(items) + [CloseArray])
    case Object(members) => [OpenObject] + (MemberTokens(members) + [CloseObject])
    case _ => [WordToken]
  }

  function ItemTokens(items: seq<Value>): seq<Token>
    decreases items
  {
    if items == [] then [] else Tokens(items[0]) + ItemTokens(items[1..])
  }

  function MemberTokens(members: seq<Member<Value>>): seq<Token>
    decreases members
  {
    if members == [] then [] else [StringToken(members[0].key)] + (Tokens(members[0].value) + MemberTokens(members[1..]))
  }

  lemma FirstToken(v: Value)
    ensures Tokens(v) != [] && Tokens(v)[0] != CloseArray && Tokens(v)[0] != CloseObject
  {
  }

  /** A decoder that gives the tokens of a text in turn. */
  class Decoder {
    const tokens: seq<Token>
    var at: nat

    ghost predicate Valid()
      reads this
    {
      at <= |tokens|
    }

    ghost function Left(): seq<Token>
      reads this
      requires Valid()
    {
      tokens[at..]
    }

    constructor (tokens: seq<Token>)
      ensures Valid() && Left() == tokens
    {
      this.tokens := tokens;
      at := 0;
    }

    method Next() returns (token: Option<Token>)
      requires Valid()
      modifies this
      ensures Valid()
      ensures old(Left()) == [] ==> token == None && Left() == []
      ensures old(Left()) != [] ==> token == Some(old(Left())[0]) && Left() == old(Left())[1..]
    {
      if at == |tokens| {
        return None;
      }
      token := Some(tokens[at]);
      at := at + 1;
    }

    /** Whether the array or object the decoder is in has more to come. */
    method More() returns (more: bool)
      requires Valid()
      ensures more == (Left() != [] && Left()[0] != CloseArray && Left()[0] != CloseObject)
    {
      more := at < |tokens| && tokens[at] != CloseArray && tokens[at] != CloseObject;
    }
  }

  // ---------- The walk ----------

  /** No object repeats a key, and no number is past the float range, at any depth. */
  predicate Strict(v: Value)
    decreases v
  {
    match v
    case Number(token) => Inexact(token) ==> Finite(token)
    case Array(items) => forall i :: 0 <= i < |items| ==> Strict(items[i])
    case Object(members) => DistinctKeys(members) && forall i :: 0 <= i < |members| ==> Strict(members[i].value)
    case _ => true
  }

  /** Reads one value's tokens, and says whether the value is strict. */
  method WalkJSONValue(decoder: Decoder, ghost v: Value, ghost rest: seq<Token>) returns (ok: bool)
    requires decoder.Valid() && decoder.Left() == Tokens(v) + rest
    modifies decoder
    ensures decoder.Valid()
    ensures ok == Strict(v)
    ensures ok ==> decoder.Left() == rest
    decreases v, 1
  {
    hide DistinctKeys, Inexact, Finite;
    FirstToken(v);
    var token := decoder.Next();
    if token == Some(OpenObject) {
      assert decoder.Left() == MemberTokens(v.members) + [CloseObject] + rest;
      ok := WalkMembers(decoder, v.members, rest);
    } else if token == Some(OpenArray) {
      assert decoder.Left() == ItemTokens(v.items) + [CloseArray] + rest;
      ok := WalkItems(decoder, v.items, rest);
    } else {
      assert decoder.Left() == rest;
      ok := token.value.NumberToken? && Inexact(token.value.token) ==> Finite(token.value.token);
    }
  }

  method WalkItems(decoder: Decoder, ghost items: seq<Value>, ghost rest: seq<Token>) returns (ok: bool)
    requires decoder.Valid() && decoder.Left() == ItemTokens(items) + [CloseArray] + rest
    modifies decoder
    ensures decoder.Valid()
    ensures ok <==> forall i :: 0 <= i < |items| ==> Strict(items[i])
    ensures ok ==> decoder.Left() == rest
    decreases items, 0
  {
    hide Strict, Tokens, ItemTokens;
    ghost var n := 0;
    assert items[0..] == items;
    ItemsLeft(items, 0, rest);
    var more := decoder.More();
    while more
      invariant 0 <= n <= |items| && decoder.Valid()
      invariant decoder.Left() == ItemTokens(items[n..]) + [CloseArray] + rest
      invariant more == (n < |items|)
      invariant forall i :: 0 <= i < n ==> Strict(items[i])
      decreases |items| - n
    {
      ItemsLeft(items, n, rest);
      var walked := WalkJSONValue(decoder, items[n], ItemTokens(items[n + 1..]) + [CloseArray] + rest);
      if !walked {
        return false;
      }
      n := n + 1;
      ItemsLeft(items, n, rest);
      more := decoder.More();
    }
    ItemsLeft(items, n, rest);
    var end := decoder.Next();
    ok := end == Some(CloseArray);
  }

  lemma ItemsLeft(items: seq<Value>, n: nat, rest: seq<Token>)
    requires n <= |items|
    ensures n == |items| ==> ItemTokens(items[n..]) + [CloseArray] + rest == [CloseArray] + rest
    ensures n < |items| ==>
              && ItemTokens(items[n..]) + [CloseArray] + rest == Tokens(items[n]) + (ItemTokens(items[n + 1..]) + [CloseArray] + rest)
              && Tokens(items[n]) != [] && Tokens(items[n])[0] != CloseArray && Tokens(items[n])[0] != CloseObject
  {
    hide Tokens;
    if n < |items| {
      assert items[n..][0] == items[n] && items[n..][1..] == items[n + 1..];
      FirstToken(items[n]);
    }
  }

  method WalkMembers(decoder: Decoder, ghost members: seq<Member<Value>>, ghost rest: seq<Token>) returns (ok: bool)
    requires decoder.Valid() && decoder.Left() == MemberTokens(members) + [CloseObject] + rest
    modifies decoder
    ensures decoder.Valid()
    ensures ok <==> DistinctKeys(members) && forall i :: 0 <= i < |members| ==> Strict(members[i].value)
    ensures ok ==> decoder.Left() == rest
    decreases members, 0
  {
    hide DistinctKeys, Seen, Strict, Tokens, MemberTokens;
    NoneSeen(members);
    var seen: set<Bytes> := {};
    ghost var n := 0;
    assert members[0..] == members;
    MembersLeft(members, 0, rest);
    var more := decoder.More();
    while more
      invariant 0 <= n <= |members| && decoder.Valid()
      invariant decoder.Left() == MemberTokens(members[n..]) + [CloseObject] + rest
      invariant more == (n < |members|)
      invariant seen == Seen(members, n) && DistinctKeys(members[..n])
      invariant forall i :: 0 <= i < n ==> Strict(members[i].value)
      decreases |members| - n
    {
      MembersLeft(members, n, rest);
      KeySeen(members, n);
      var token := decoder.Next();
      var key := token.value.text;
      if key in seen {
        return false;
      }
      seen := seen + {key};
      var walked := WalkJSONValue(decoder, members[n].value, MemberTokens(members[n + 1..]) + [CloseObject] + rest);
      if !walked {
        return false;
      }
      n := n + 1;
      MembersLeft(members, n, rest);
      more := decoder.More();
    }
    MembersLeft(members, n, rest);
    var end := decoder.Next();
    assert members[..n] == members;
    ok := end == Some(CloseObject);
  }

  function Seen(members: seq<Member<Value>>, n: nat): set<Bytes>
    requires n <= |members|
  {
    set m | m in members[..n] :: m.key
  }

  lemma NoneSeen(members: seq<Member<Value>>)
    ensures Seen(members, 0) == {} && DistinctKeys(members[..0])
  {
  }

  /** A key that was seen repeats, and one that was not leaves the keys distinct. */
  lemma KeySeen(members: seq<Member<Value>>, n: nat)
    requires n < |members| && DistinctKeys(members[..n])
    ensures members[n].key in Seen(members, n) ==> !DistinctKeys(members)
    ensures members[n].key !in Seen(members, n) ==> DistinctKeys(members[..n + 1])
    ensures Seen(members, n + 1) == Seen(members, n) + {members[n].key}
  {
    var front := members[..n];
    assert members[..n + 1] == front + [members[n]];
    if members[n].key in Seen(members, n) {
      var m :| m in front && m.key == members[n].key;
      var i :| 0 <= i < n && front[i] == m;
      assert members[i].key == members[n].key;
    } else {
      forall i | 0 <= i < n ensures members[i].key != members[n].key {
        assert members[i] in front;
      }
    }
  }

  lemma MembersLeft(members: seq<Member<Value>>, n: nat, rest: seq<Token>)
    requires n <= |members|
    ensures n == |members| ==> MemberTokens(members[n..]) + [CloseObject] + rest == [CloseObject] + rest
    ensures n < |members| ==>
              var more := Tokens(members[n].value) + (MemberTokens(members[n + 1..]) + [CloseObject] + rest);
              MemberTokens(members[n..]) + [CloseObject] + rest == [StringToken(members[n].key)] + more
  {
    hide Tokens;
    if n < |members| {
      assert members[n..][0] == members[n] && members[n..][1..] == members[n + 1..];
    }
  }

  /** The whole walk over a text's value, with nothing after it. */
  method RejectDuplicateJSONFields(v: Value) returns (ok: bool)
    ensures ok == Strict(v)
  {
    var decoder := new Decoder(Tokens(v));
    assert Tokens(v) + [] == Tokens(v);
    ok := WalkJSONValue(decoder, v, []);
    if ok {
      var end := decoder.Next();
      ok := end == None;
    }
  }

  /** A value a strict reader accepts is one a lenient reader accepts and the walk lets through. */
  lemma {:induction false} StrictlyAcceptable(v: Value, depth: nat, limit: nat)
    ensures Acceptable(v, depth, Rules(limit, true)) <==> Acceptable(v, depth, Rules(limit, false)) && Strict(v)
    decreases v
  {
    hide Inexact, Finite, DistinctKeys;
    match v {
      case Array(items) =>
        ItemsAcceptableIff(items, depth + 1, Rules(limit, true));
        ItemsAcceptableIff(items, depth + 1, Rules(limit, false));
        forall i | 0 <= i < |items|
          ensures Acceptable(items[i], depth + 1, Rules(limit, true)) <==> Acceptable(items[i], depth + 1, Rules(limit, false)) && Strict(items[i])
        {
          StrictlyAcceptable(items[i], depth + 1, limit);
        }
      case Object(members) =>
        MembersAcceptableIff(members, depth + 1, Rules(limit, true));
        MembersAcceptableIff(members, depth + 1, Rules(limit, false));
        forall i | 0 <= i < |members|
          ensures Acceptable(members[i].value, depth + 1, Rules(limit, true)) <==>
                    Acceptable(members[i].value, depth + 1, Rules(limit, false)) && Strict(members[i].value)
        {
          StrictlyAcceptable(members[i].value, depth + 1, limit);
        }
      case _ =>
    }
  }
}
