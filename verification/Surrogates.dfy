/** The surrogate check made before a document is read, against what the reader makes of the same escapes. */
module Surrogates {
  import opened Bytes
  import opened JsonText
  import opened KeyOrder
  import opened Json
  import opened JsonPieces
  import opened Grammar
  import opened GrammarReading
  import opened CanonicalStream
  import Utf8

  /** The check from outside any string. */
  predicate ScanOutside(s: Bytes)
    decreases |s|
  {
    if s == [] then true
    else if s[0] == QUOTE then ScanInside(s[1..])
    else ScanOutside(s[1..])
  }

  /** The check from inside a string. A string that never ends is left for the reader to refuse. */
  predicate ScanInside(s: Bytes)
    decreases |s|
  {
    if s == [] then true
    else if s[0] == QUOTE then ScanOutside(s[1..])
    else if s[0] != BACKSLASH then ScanInside(s[1..])
    else if |s| < 2 then true
    else if s[1] != LETTER_U || HexQuad(s[2..]).None? then ScanInside(s[2..])
    else
      var unit := HexQuad(s[2..]).value;
      if LowSurrogate(unit) then false
      else if !HighSurrogate(unit) then ScanInside(s[6..])
      else LowHalf(unit, s[6..]).Some? && ScanInside(s[12..])
  }

  /** One pass over the payload, in and out of its strings. */
  method ValidateJSONSurrogateEscapes(payload: Bytes) returns (ok: bool)
    ensures ok == ScanOutside(payload)
  {
    hide ScanOutside, ScanInside, HexQuad;
    var index := 0;
    assert payload[0..] == payload;
    while index < |payload|
      invariant 0 <= index <= |payload|
      invariant ScanOutside(payload) == ScanOutside(payload[index..])
    {
      OutsideUnfold(payload, index);
      if payload[index] != QUOTE {
        index := index + 1;
        continue;
      }
      index := index + 1;
      var inside := true;
      while inside && index < |payload|
        invariant 0 <= index <= |payload|
        invariant ScanOutside(payload) == if inside then ScanInside(payload[index..]) else ScanOutside(payload[index..])
        decreases |payload| - index
      {
        InsideUnfold(payload, index);
        if payload[index] == QUOTE {
          inside := false;
          index := index + 1;
        } else if payload[index] != BACKSLASH {
          index := index + 1;
        } else if index + 1 >= |payload| {
          index := index + 1;
        } else if payload[index + 1] != LETTER_U {
          index := index + 2;
        } else {
          var unit, isHex := DecodeHexQuad(payload, index + 2);
          if !isHex {
            index := index + 2;
          } else if LowSurrogate(unit) {
            return false;
          } else if !HighSurrogate(unit) {
            index := index + 6;
          } else {
            if index + 11 >= |payload| || payload[index + 6] != BACKSLASH || payload[index + 7] != LETTER_U {
              return false;
            }
            var low, lowIsHex := DecodeHexQuad(payload, index + 8);
            if !lowIsHex || !LowSurrogate(low) {
              return false;
            }
            index := index + 12;
          }
        }
      }
      if inside {
        ScanEnds();
        assert payload[index..] == [];
        return true;
      }
    }
    ScanEnds();
    assert payload[index..] == [];
    return true;
  }

  lemma ScanEnds()
    ensures ScanOutside([]) && ScanInside([])
  {
  }

  lemma OutsideUnfold(payload: Bytes, index: nat)
    requires index < |payload|
    ensures ScanOutside(payload[index..]) ==
            if payload[index] == QUOTE then ScanInside(payload[index + 1..]) else ScanOutside(payload[index + 1..])
  {
    assert payload[index..][1..] == payload[index + 1..];
  }

  lemma InsideUnfold(payload: Bytes, index: nat)
    requires index < |payload|
    ensures payload[index] == QUOTE ==> ScanInside(payload[index..]) == ScanOutside(payload[index + 1..])
    ensures payload[index] != QUOTE && payload[index] != BACKSLASH ==> ScanInside(payload[index..]) == ScanInside(payload[index + 1..])
    ensures payload[index] == BACKSLASH && index + 1 >= |payload| ==> ScanInside(payload[index..]) && ScanInside(payload[index + 1..])
    ensures payload[index] == BACKSLASH && index + 1 < |payload| ==>
              if payload[index + 1] != LETTER_U || HexQuad(payload[index + 2..]).None? then
                ScanInside(payload[index..]) == ScanInside(payload[index + 2..])
              else
                var unit := HexQuad(payload[index + 2..]).value;
                if LowSurrogate(unit) then !ScanInside(payload[index..])
                else if !HighSurrogate(unit) then
                  index + 6 <= |payload| && ScanInside(payload[index..]) == ScanInside(payload[index + 6..])
                else if index + 12 > |payload| || payload[index + 6] != BACKSLASH || payload[index + 7] != LETTER_U then
                  !ScanInside(payload[index..])
                else
                  var low := HexQuad(payload[index + 8..]);
                  if low.None? || !LowSurrogate(low.value) then !ScanInside(payload[index..])
                  else ScanInside(payload[index..]) == ScanInside(payload[index + 12..])
  {
    hide HexQuad;
    var s := payload[index..];
    assert s[1..] == payload[index + 1..];
    if |s| >= 2 {
      assert s[2..] == payload[index + 2..];
      if s[1] == LETTER_U && HexQuad(s[2..]).Some? {
        assert |s| >= 6;
        assert s[6..] == payload[index + 6..];
        if |s| >= 12 {
          assert s[12..] == payload[index + 12..];
          assert s[6..][2..] == payload[index + 8..];
          assert s[6..][0] == payload[index + 6] && s[6..][1] == payload[index + 7];
        }
      }
    }
  }

  // ---------- Against the reader ----------

  /** Inside a string the check and the reader part only over what the reader refuses for another reason. */
  lemma {:induction false} InsideAgrees(s: Bytes)
    ensures ScanInside(s) ==> DecodeChars(s) != LoneSurrogate
    ensures DecodeChars(s).Decoded? ==> (ScanInside(s) <==> ScanOutside(DecodeChars(s).rest))
    decreases |s|
  {
    hide DecodeChars, HexQuad, ScanOutside;
    DecodeUnfold(s);
    if s != [] && s[0] != QUOTE {
      if s[0] != BACKSLASH {
        InsideAgrees(s[1..]);
      } else if |s| >= 2 {
        if s[1] != LETTER_U {
          InsideAgrees(s[2..]);
        } else {
          UnitUnfold(s);
          if HexQuad(s[2..]).Some? {
            var unit := HexQuad(s[2..]).value;
            QuadFront(s[2..]);
            if !Utf8.Surrogate(unit) {
              InsideAgrees(s[6..]);
            } else if LowHalf(unit, s[6..]).Some? {
              InsideAgrees(s[12..]);
            }
          }
        }
      }
    }
  }

  /** Bytes with no quote among them are passed over. */
  lemma {:induction false} OutsideSkips(a: Bytes, rest: Bytes)
    requires QUOTE !in a
    ensures ScanOutside(a + rest) == ScanOutside(rest)
  {
    hide ScanInside;
    if a == [] {
      assert a + rest == rest;
    } else {
      assert (a + rest)[1..] == a[1..] + rest;
      OutsideSkips(a[1..], rest);
    }
  }

  /** What a read of any kind keeps: no surrogate refusal when the check passes, and the check of what is left. */
  predicate Agrees<T>(s: Bytes, parse: Parse<T>) {
    && (ScanOutside(s) ==> parse != Refused(Json.Surrogates))
    && (parse.Parsed? ==> (ScanOutside(s) <==> ScanOutside(parse.rest)))
  }

  lemma SpaceAgrees(s: Bytes)
    ensures ScanOutside(s) == ScanOutside(SkipSpace(s))
  {
    hide ScanOutside;
    var space := SpellSpace(s);
    OutsideSkips(space, SkipSpace(s));
  }

  lemma TextAgrees(s: Bytes)
    requires Next(s, QUOTE)
    ensures Agrees(s, ParseText(s))
  {
    hide DecodeChars, ScanInside;
    InsideAgrees(s[1..]);
  }

  lemma WordAgrees(s: Bytes, word: Bytes, value: Value)
    requires word != [] && QUOTE !in word
    ensures Agrees(s, ParseWord(s, word, value))
  {
    hide ScanOutside;
    if word <= s {
      assert s == word + s[|word|..];
      OutsideSkips(word, s[|word|..]);
    }
  }

  lemma NumberAgrees(s: Bytes, rules: Rules)
    ensures Agrees(s, ParseNumber(s, rules))
  {
    hide ScanOutside, NumberEnd, Inexact, Finite;
    if ParseNumber(s, rules).Parsed? {
      var end := NumberEnd(s).value;
      NumberPlain(s);
      assert s == s[..end] + s[end..];
      OutsideSkips(s[..end], s[end..]);
    }
  }

  lemma NumberPlain(s: Bytes)
    requires NumberEnd(s).Some?
    ensures QUOTE !in s[..NumberEnd(s).value]
  {
    hide NumberEnd, Digits;
    var n := SpellNumeral(s);
    NumeralPlain(n);
  }

  lemma NumeralPlain(n: Numeral)
    requires NumeralOk(n)
    ensures QUOTE !in NumeralText(n)
  {
    DigitsPlain(n.integer);
    if n.fraction.Some? {
      DigitsPlain(n.fraction.value);
    }
    if n.exponent.Some? {
      DigitsPlain(n.exponent.value.digits);
    }
  }

  lemma DigitsPlain(digits: Bytes)
    requires AllDigits(digits)
    ensures QUOTE !in digits
  {
  }

  lemma {:induction false} ValueAgrees(s: Bytes, depth: nat, rules: Rules)
    ensures Agrees(s, ParseValue(s, depth, rules))
    decreases |s|, 2
  {
    hide ScanOutside, ParseValue, ParseArray, ParseObject, ParseText, ParseNumber, ParseWord;
    if depth > rules.limit || s == [] {
      ValueRefused(s, depth, rules);
    } else {
      ValueUnfold(s, depth, rules);
      if s[0] == LBRACE {
        ObjectAgrees(s, depth, rules);
      } else if s[0] == LBRACKET {
        ArrayAgrees(s, depth, rules);
      } else if s[0] == QUOTE {
        TextAgrees(s);
      } else {
        WordAgrees(s, TRUE_WORD, True);
        WordAgrees(s, FALSE_WORD, False);
        WordAgrees(s, NULL_WORD, Null);
        NumberAgrees(s, rules);
      }
    }
  }

  lemma ValueRefused(s: Bytes, depth: nat, rules: Rules)
    requires depth > rules.limit || s == []
    ensures ParseValue(s, depth, rules).Refused? && ParseValue(s, depth, rules).why != Json.Surrogates
  {
    hide ParseArray, ParseObject, ParseText, ParseNumber, ParseWord;
  }

  lemma MarkAgrees(s: Bytes, mark: Byte)
    requires Next(s, mark) && mark != QUOTE
    ensures ScanOutside(s) == ScanOutside(s[1..])
  {
    hide ScanInside;
  }

  lemma {:induction false} ArrayAgrees(s: Bytes, depth: nat, rules: Rules)
    requires Next(s, LBRACKET)
    ensures Agrees(s, ParseArray(s, depth, rules))
    decreases |s|, 1
  {
    hide ScanOutside, ParseArray, ParseItems, SkipSpace;
    ArrayUnfold(s, depth, rules);
    MarkAgrees(s, LBRACKET);
    SpaceAgrees(s[1..]);
    var inside := SkipSpace(s[1..]);
    if Next(inside, RBRACKET) {
      MarkAgrees(inside, RBRACKET);
    } else {
      ItemsAgree(inside, depth, rules);
    }
  }

  lemma {:induction false} ItemsAgree(s: Bytes, depth: nat, rules: Rules)
    ensures Agrees(s, ParseItems(s, depth, rules))
    decreases |s|, 3
  {
    hide ScanOutside, ParseItems, ParseValue, SkipSpace;
    ItemsUnfold(s, depth, rules);
    SpaceAgrees(s);
    ValueAgrees(SkipSpace(s), depth + 1, rules);
    var item := ParseValue(SkipSpace(s), depth + 1, rules);
    if item.Parsed? {
      SpaceAgrees(item.rest);
      var after := SkipSpace(item.rest);
      if Next(after, COMMA) {
        MarkAgrees(after, COMMA);
        ItemsAgree(after[1..], depth, rules);
      } else if Next(after, RBRACKET) {
        MarkAgrees(after, RBRACKET);
      }
    }
  }

  lemma {:induction false} ObjectAgrees(s: Bytes, depth: nat, rules: Rules)
    requires Next(s, LBRACE)
    ensures Agrees(s, ParseObject(s, depth, rules))
    decreases |s|, 1
  {
    hide ScanOutside, ParseObject, ParseMembers, SkipSpace, DistinctKeys;
    ObjectUnfold(s, depth, rules);
    MarkAgrees(s, LBRACE);
    SpaceAgrees(s[1..]);
    var inside := SkipSpace(s[1..]);
    if Next(inside, RBRACE) {
      MarkAgrees(inside, RBRACE);
    } else {
      MembersAgree(inside, depth, rules);
    }
  }

  lemma {:induction false} MembersAgree(s: Bytes, depth: nat, rules: Rules)
    ensures Agrees(s, ParseMembers(s, depth, rules))
    decreases |s|, 3
  {
    hide ScanOutside, ParseMembers, ParseMember, SkipSpace;
    MembersUnfold(s, depth, rules);
    SpaceAgrees(s);
    MemberAgrees(SkipSpace(s), depth, rules);
    var member := ParseMember(SkipSpace(s), depth, rules);
    if member.Parsed? {
      SpaceAgrees(member.rest);
      var after := SkipSpace(member.rest);
      if Next(after, COMMA) {
        MarkAgrees(after, COMMA);
        MembersAgree(after[1..], depth, rules);
      } else if Next(after, RBRACE) {
        MarkAgrees(after, RBRACE);
      }
    }
  }

  lemma {:induction false} MemberAgrees(s: Bytes, depth: nat, rules: Rules)
    ensures Agrees(s, ParseMember(s, depth, rules))
    decreases |s|, 1
  {
    hide ScanOutside, ParseMember, ParseValue, ParseText, SkipSpace;
    MemberUnfold(s, depth, rules);
    if Next(s, QUOTE) {
      TextAgrees(s);
      if ParseText(s).Parsed? {
        SpaceAgrees(ParseText(s).rest);
        var colon := SkipSpace(ParseText(s).rest);
        if Next(colon, COLON) {
          MarkAgrees(colon, COLON);
          SpaceAgrees(colon[1..]);
          ValueAgrees(SkipSpace(colon[1..]), depth + 1, rules);
        }
      }
    }
  }

  /**
   * A document that passes the surrogate check is never refused in the reader's surrogate branch,
   * and every document the reader accepts passes the check.
   */
  lemma SurrogatesAgree(s: Bytes, rules: Rules)
    ensures ScanOutside(s) ==> ParseDocument(s, rules) != Refused(Json.Surrogates)
    ensures ParseDocument(s, rules).Parsed? ==> ScanOutside(s)
  {
    hide ScanOutside, ParseValue, SkipSpace;
    SpaceAgrees(s);
    ValueAgrees(SkipSpace(s), 0, rules);
    if ParseDocument(s, rules).Parsed? {
      SpaceAgrees(ParseValue(SkipSpace(s), 0, rules).rest);
      ScanEnds();
    }
  }
}
