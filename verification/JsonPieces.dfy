/** Small facts about printing and decoding in pieces. */
module JsonPieces {
  import opened Bytes
  import opened JsonText
  import opened KeyOrder
  import opened Json
  import Utf8

  lemma PrependTwice(a: Bytes, b: Bytes, parse: StringParse)
    ensures Prepend(a, Prepend(b, parse)) == Prepend(a + b, parse)
    ensures Prepend([], parse) == parse
  {
    if parse.Decoded? {
      assert a + (b + parse.text) == (a + b) + parse.text;
      assert [] + parse.text == parse.text;
    }
  }

  lemma Reassociate(a: Bytes, b: Bytes, c: Bytes, d: Bytes)
    ensures a + (b + (c + d)) == a + b + c + d
  {
  }

  lemma PrintItemsStep(item: Value, rest: seq<Value>)
    requires rest != []
    ensures PrintItems([item] + rest) == Print(item) + ([COMMA] + PrintItems(rest))
  {
    assert ([item] + rest)[1..] == rest;
  }

  lemma PrintMembersStep(m: Member<Value>, rest: seq<Member<Value>>)
    requires rest != []
    ensures PrintMembers([m] + rest) == PrintMember(m) + ([COMMA] + PrintMembers(rest))
  {
    assert ([m] + rest)[1..] == rest;
  }

  /** The text of items already printed, each with the comma that follows it. */
  function ItemsSoFar(items: seq<Value>): Bytes {
    if items == [] then []
    else ItemsSoFar(items[..|items| - 1]) + Print(items[|items| - 1]) + [COMMA]
  }

  lemma {:induction false} ItemsContinue(done: seq<Value>, rest: seq<Value>)
    requires rest != []
    ensures ItemsSoFar(done) + PrintItems(rest) == PrintItems(done + rest)
  {
    if done == [] {
      assert done + rest == rest;
    } else {
      var last := done[|done| - 1];
      var front := done[..|done| - 1];
      PrintItemsStep(last, rest);
      ItemsContinue(front, [last] + rest);
      assert front + ([last] + rest) == done + rest;
      Reassociate(ItemsSoFar(front), Print(last), [COMMA], PrintItems(rest));
    }
  }

  function MembersSoFar(members: seq<Member<Value>>): Bytes {
    if members == [] then []
    else MembersSoFar(members[..|members| - 1]) + PrintMember(members[|members| - 1]) + [COMMA]
  }

  lemma {:induction false} MembersContinue(done: seq<Member<Value>>, rest: seq<Member<Value>>)
    requires rest != []
    ensures MembersSoFar(done) + PrintMembers(rest) == PrintMembers(done + rest)
  {
    if done == [] {
      assert done + rest == rest;
    } else {
      var last := done[|done| - 1];
      var front := done[..|done| - 1];
      PrintMembersStep(last, rest);
      MembersContinue(front, [last] + rest);
      assert front + ([last] + rest) == done + rest;
      Reassociate(MembersSoFar(front), PrintMember(last), [COMMA], PrintMembers(rest));
    }
  }

  /** A parse that goes on from items already read. */
  function After<T>(done: seq<T>, parse: Parse<seq<T>>): Parse<seq<T>> {
    match parse
    case Parsed(more, rest) => Parsed(done + more, rest)
    case Refused(why) => Refused(why)
  }

  lemma ItemsNone<T>(parse: Parse<seq<T>>)
    ensures After([], parse) == parse
  {
    if parse.Parsed? {
      assert [] + parse.value == parse.value;
    }
  }

  lemma AfterTwice<T>(done: seq<T>, next: T, parse: Parse<seq<T>>)
    ensures After(done, After([next], parse)) == After(done + [next], parse)
  {
    if parse.Parsed? {
      assert done + ([next] + parse.value) == done + [next] + parse.value;
    }
  }

  lemma ItemsUnfold(s: Bytes, depth: nat, rules: Rules)
    ensures var item := ParseValue(SkipSpace(s), depth + 1, rules);
            if item.Refused? then ParseItems(s, depth, rules) == Refused(item.why)
            else
              var after := SkipSpace(item.rest);
              ParseItems(s, depth, rules) ==
              if Next(after, COMMA) then After([item.value], ParseItems(after[1..], depth, rules))
              else if Next(after, RBRACKET) then Parsed([item.value], after[1..])
              else Refused(Syntax)
  {
    hide ParseValue, SkipSpace;
  }

  lemma ArrayUnfold(s: Bytes, depth: nat, rules: Rules)
    requires Next(s, LBRACKET)
    ensures var inside := SkipSpace(s[1..]);
            ParseArray(s, depth, rules) ==
            if Next(inside, RBRACKET) then Parsed(Array([]), inside[1..])
            else
              match ParseItems(inside, depth, rules)
              case Parsed(items, rest) => Parsed(Array(items), rest)
              case Refused(why) => Refused(why)
  {
    hide ParseItems, SkipSpace;
  }

  lemma ObjectUnfold(s: Bytes, depth: nat, rules: Rules)
    requires Next(s, LBRACE)
    ensures var inside := SkipSpace(s[1..]);
            ParseObject(s, depth, rules) ==
            if Next(inside, RBRACE) then Parsed(Object([]), inside[1..])
            else
              match ParseMembers(inside, depth, rules)
              case Parsed(members, rest) => if !rules.strict || DistinctKeys(members) then Parsed(Object(members), rest) else Refused(Duplicate)
              case Refused(why) => Refused(why)
  {
    hide ParseMembers, SkipSpace, DistinctKeys;
  }

  lemma MembersUnfold(s: Bytes, depth: nat, rules: Rules)
    ensures var member := ParseMember(SkipSpace(s), depth, rules);
            if member.Refused? then ParseMembers(s, depth, rules) == Refused(member.why)
            else
              var after := SkipSpace(member.rest);
              ParseMembers(s, depth, rules) ==
              if Next(after, COMMA) then After([member.value], ParseMembers(after[1..], depth, rules))
              else if Next(after, RBRACE) then Parsed([member.value], after[1..])
              else Refused(Syntax)
  {
    hide ParseMember, SkipSpace;
  }

  lemma MemberUnfold(s: Bytes, depth: nat, rules: Rules)
    ensures !Next(s, QUOTE) ==> ParseMember(s, depth, rules) == Refused(Syntax)
    ensures Next(s, QUOTE) ==>
              match ParseText(s)
              case Refused(why) => ParseMember(s, depth, rules) == Refused(why)
              case Parsed(key, rest) =>
                var colon := SkipSpace(rest);
                if !Next(colon, COLON) then ParseMember(s, depth, rules) == Refused(Syntax)
                else
                  match ParseValue(SkipSpace(colon[1..]), depth + 1, rules)
                  case Refused(why) => ParseMember(s, depth, rules) == Refused(why)
                  case Parsed(value, end) => ParseMember(s, depth, rules) == Parsed(Member(key, value), end)
  {
    hide ParseText, ParseValue, SkipSpace;
  }

  lemma SpaceUnfold(s: Bytes)
    ensures SkipSpace(s) == if s != [] && Space(s[0]) then SkipSpace(s[1..]) else s
  {
  }

  /** One step of reading a string. */
  lemma DecodeUnfold(s: Bytes)
    ensures s == [] ==> DecodeChars(s) == Malformed
    ensures s != [] && s[0] == QUOTE ==> DecodeChars(s) == Decoded([], s[1..])
    ensures s != [] && s[0] != QUOTE && s[0] != BACKSLASH ==>
              DecodeChars(s) == if s[0] < 0x20 then Malformed else Prepend([s[0]], DecodeChars(s[1..]))
    ensures s != [] && s[0] == BACKSLASH ==>
              if |s| < 2 then DecodeChars(s) == Malformed
              else if s[1] == LETTER_U then DecodeChars(s) == DecodeUnit(s)
              else
                match ShortEscape(s[1])
                case Some(b) => DecodeChars(s) == Prepend([b], DecodeChars(s[2..]))
                case None => DecodeChars(s) == Malformed
  {
  }

  lemma Regroup(a: Bytes, b: Bytes, c: Bytes)
    ensures a + (b + c) == a + b + c
  {
  }

  lemma Regroup3(a: Bytes, b: Bytes, c: Bytes)
    ensures a + b + c == a + (b + c)
  {
  }
}
