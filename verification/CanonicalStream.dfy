/** The single pass: one reader over the source bytes that prints the canonical form as it goes. */
module CanonicalStream {
  import opened Bytes
  import opened JsonText
  import opened KeyOrder
  import opened Json
  import opened JsonPieces
  import Utf8

  /** Bytes appended in place; whoever is handed one writes into its owner's storage. */
  class Buffer {
    var bytes: Bytes

    constructor ()
      ensures bytes == []
    {
      bytes := [];
    }

    method Append(more: Bytes)
      modifies this
      ensures bytes == old(bytes) + more
    {
      bytes := bytes + more;
    }

    method Truncate()
      modifies this
      ensures bytes == []
    {
      bytes := [];
    }
  }

  /** One member of an object being read: where its key and its canonical value lie in the level's arenas. */
  datatype Span = Span(keyStart: nat, keyEnd: nat, valStart: nat, valEnd: nat)

  /** The working set of the one object being read at a depth, reused by every object read there. */
  class Level {
    var members: seq<Span>
    const keys: Buffer
    const values: Buffer

    constructor ()
      ensures fresh(keys) && fresh(values) && keys != values
    {
      members := [];
      keys := new Buffer();
      values := new Buffer();
    }
  }

  /** Whether a level holds just these members, their values printed. */
  ghost predicate LevelHolds(level: Level, members: seq<Member<Value>>)
    reads level, level.keys, level.values
  {
    Holds(level.members, level.keys.bytes, level.values.bytes, NormalMembers(members))
  }

  /** Whether a span holds a member's key and printed value. */
  predicate HoldsOne(span: Span, keys: Bytes, values: Bytes, m: Member<Value>) {
    && span.keyStart <= span.keyEnd <= |keys| && keys[span.keyStart..span.keyEnd] == m.key
    && span.valStart <= span.valEnd <= |values| && values[span.valStart..span.valEnd] == Print(m.value)
  }

  predicate Holds(spans: seq<Span>, keys: Bytes, values: Bytes, members: seq<Member<Value>>) {
    && |spans| == |members|
    && forall i :: 0 <= i < |spans| ==> HoldsOne(spans[i], keys, values, members[i])
  }

  /** Appending to an arena moves no span already in it. */
  lemma HoldsAppended(spans: seq<Span>, keys: Bytes, values: Bytes, members: seq<Member<Value>>, k: Bytes, v: Bytes)
    requires Holds(spans, keys, values, members)
    ensures Holds(spans, keys + k, values + v, members)
  {
    forall i | 0 <= i < |spans| ensures HoldsOne(spans[i], keys + k, values + v, members[i]) {
      assert HoldsOne(spans[i], keys, values, members[i]);
      assert (keys + k)[spans[i].keyStart..spans[i].keyEnd] == keys[spans[i].keyStart..spans[i].keyEnd];
      assert (values + v)[spans[i].valStart..spans[i].valEnd] == values[spans[i].valStart..spans[i].valEnd];
    }
  }

  lemma HoldsInserted(spans: seq<Span>, keys: Bytes, values: Bytes, members: seq<Member<Value>>, at: nat, span: Span, m: Member<Value>)
    requires Holds(spans, keys, values, members) && HoldsOne(span, keys, values, m) && at <= |spans|
    ensures Holds(spans[..at] + [span] + spans[at..], keys, values, members[..at] + [m] + members[at..])
  {
    var more, moved := spans[..at] + [span] + spans[at..], members[..at] + [m] + members[at..];
    forall i | 0 <= i < |more| ensures HoldsOne(more[i], keys, values, moved[i]) {
      if i < at {
        assert more[i] == spans[i] && moved[i] == members[i];
      } else if i > at {
        assert more[i] == spans[i - 1] && moved[i] == members[i - 1];
      }
    }
  }

  /**
   * Sorts an object's spans by the keys they hold. Any order in which no key is above a later one
   * will do; the ghost result is the members in the order their spans came out in.
   */
  method SortSpans(spans: seq<Span>, keys: Bytes, values: Bytes, ghost members: seq<Member<Value>>)
    returns (sorted: seq<Span>, ghost arranged: seq<Member<Value>>)
    requires Holds(spans, keys, values, members)
    ensures Holds(sorted, keys, values, arranged)
    ensures multiset(arranged) == multiset(members)
    ensures Ascending(arranged)
  {
    sorted, arranged := [], [];
    for n := 0 to |spans|
      invariant Holds(sorted, keys, values, arranged)
      invariant multiset(arranged) == multiset(members[..n])
      invariant Ascending(arranged)
    {
      assert HoldsOne(spans[n], keys, values, members[n]);
      assert members[..n + 1] == members[..n] + [members[n]];
      sorted, arranged := InsertSpan(spans[n], sorted, keys, values, members[n], arranged);
    }
    assert members[..|spans|] == members;
  }

  method InsertSpan(span: Span, spans: seq<Span>, keys: Bytes, values: Bytes, ghost m: Member<Value>, ghost members: seq<Member<Value>>)
    returns (sorted: seq<Span>, ghost arranged: seq<Member<Value>>)
    requires Holds(spans, keys, values, members) && Ascending(members)
    requires HoldsOne(span, keys, values, m)
    ensures Holds(sorted, keys, values, arranged) && Ascending(arranged)
    ensures multiset(arranged) == multiset(members) + multiset{m}
  {
    hide Less, Print;
    var key := keys[span.keyStart..span.keyEnd];
    var at := |spans|;
    while at > 0 && SpanAbove(spans[at - 1], keys, values, key, members[at - 1])
      invariant 0 <= at <= |members|
      invariant forall i :: at <= i < |members| ==> Less(key, members[i].key)
    {
      at := at - 1;
    }
    InsertKeepsOrder(members, at, m);
    HoldsInserted(spans, keys, values, members, at, span, m);
    InsertPermutation(members, at, m);
    sorted := spans[..at] + [span] + spans[at..];
    arranged := members[..at] + [m] + members[at..];
  }

  lemma InsertPermutation(members: seq<Member<Value>>, at: nat, m: Member<Value>)
    requires at <= |members|
    ensures multiset(members[..at] + [m] + members[at..]) == multiset(members) + multiset{m}
  {
    assert members == members[..at] + members[at..];
  }

  predicate SpanAbove(span: Span, keys: Bytes, ghost values: Bytes, key: Bytes, ghost m: Member<Value>)
    requires HoldsOne(span, keys, values, m)
    ensures SpanAbove(span, keys, values, key, m) == Less(key, m.key)
  {
    Less(key, keys[span.keyStart..span.keyEnd])
  }

  lemma InsertKeepsOrder(arranged: seq<Member<Value>>, at: nat, m: Member<Value>)
    requires at <= |arranged| && Ascending(arranged)
    requires forall i :: at <= i < |arranged| ==> Less(m.key, arranged[i].key)
    requires at > 0 ==> !Less(m.key, arranged[at - 1].key)
    ensures Ascending(arranged[..at] + [m] + arranged[at..])
  {
    forall i | 0 <= i < at ensures !Less(m.key, arranged[i].key) {
      if Less(m.key, arranged[i].key) && i < at - 1 {
        LessTotal(arranged[i].key, arranged[at - 1].key);
        if arranged[i].key != arranged[at - 1].key {
          LessTransitive(m.key, arranged[i].key, arranged[at - 1].key);
        }
      }
    }
    forall i | at <= i < |arranged| ensures !Less(arranged[i].key, m.key) {
      LessTotal(arranged[i].key, m.key);
    }
  }

  /** Writes one JSON string, batching the bytes that are written as they are. */
  method AppendCanonicalString(dst: Buffer, decoded: Bytes)
    modifies dst
    ensures dst.bytes == old(dst.bytes) + CanonicalString(decoded)
  {
    hide CanonicalChars, CharPiece, CharSize, EscapeAscii;
    dst.Append([QUOTE]);
    ghost var base := dst.bytes;
    ghost var done := [];
    ghost var goal := CanonicalChars(decoded);
    ghost var rest := goal;
    assert decoded[0..] == decoded;
    var start, index := 0, 0;
    while index < |decoded|
      invariant 0 <= start <= index <= |decoded|
      invariant rest == CanonicalChars(decoded[index..])
      invariant done + rest == goal
      invariant dst.bytes + decoded[start..index] == base + done
    {
      var b := decoded[index];
      var size, literal := OneChar(decoded, index);
      ghost var piece := CharPiece(decoded, index);
      CharsUnfold(decoded, index);
      Regroup(dst.bytes, decoded[start..index], piece);
      Regroup(base, done, piece);
      if !literal {
        dst.Append(decoded[start..index]);
        dst.Append(if b < 0x80 then EscapeAscii(b) else REPLACEMENT);
        start := index + size;
        assert decoded[start..index + size] == [];
      } else {
        assert decoded[start..index] + piece == decoded[start..index + size];
      }
      rest := CanonicalChars(decoded[index + size..]);
      Regroup(done, piece, rest);
      done := done + piece;
      index := index + size;
    }
    CharsEnd();
    assert decoded[index..] == [];
    assert decoded[start..] == decoded[start..index];
    dst.Append(decoded[start..]);
    dst.Append([QUOTE]);
  }

  /** What the character at index prints as. */
  function CharPiece(decoded: Bytes, index: nat): Bytes
    requires index < |decoded|
  {
    var rest := decoded[index..];
    if rest[0] < 0x80 then EscapeAscii(rest[0])
    else if Utf8.RuneLength(rest) == 0 then REPLACEMENT
    else rest[..Utf8.RuneLength(rest)]
  }

  function CharSize(decoded: Bytes, index: nat): (n: nat)
    requires index < |decoded|
    ensures 0 < n && index + n <= |decoded|
  {
    var rest := decoded[index..];
    if rest[0] < 0x80 || Utf8.RuneLength(rest) == 0 then 1 else Utf8.RuneLength(rest)
  }

  /** How long the character at index is, and whether it is written as it is. */
  method OneChar(decoded: Bytes, index: nat) returns (size: nat, literal: bool)
    requires index < |decoded|
    ensures size == CharSize(decoded, index)
    ensures literal ==> CharPiece(decoded, index) == decoded[index..index + size]
    ensures !literal ==> CharPiece(decoded, index) == if decoded[index] < 0x80 then EscapeAscii(decoded[index]) else REPLACEMENT
  {
    if decoded[index] < 0x80 {
      size, literal := 1, Literal(decoded[index]);
      assert literal ==> EscapeAscii(decoded[index]) == decoded[index..index + 1];
    } else {
      size := Utf8.RuneLength(decoded[index..]);
      literal := size != 0;
      if size == 0 {
        size := 1;
      } else {
        assert decoded[index..][..size] == decoded[index..index + size];
      }
    }
  }

  lemma CharsUnfold(decoded: Bytes, index: nat)
    requires index < |decoded|
    ensures CanonicalChars(decoded[index..]) == CharPiece(decoded, index) + CanonicalChars(decoded[index + CharSize(decoded, index)..])
  {
    var rest := decoded[index..];
    var n := CharSize(decoded, index);
    assert rest[n..] == decoded[index + n..];
  }

  lemma CharsEnd()
    ensures CanonicalChars([]) == []
  {
  }

  class CanonicalStream {
    const src: Bytes
    var pos: nat
    const scratch: Buffer
    /** The storage of every depth's working set, and how many depths have been reached so far. */
    const levels: seq<Level>
    var grown: nat

    ghost predicate Valid()
      reads this
    {
      && pos <= |src|
      && grown <= |levels| == MAX_DEPTH + 1
      && Separate(levels, scratch)
    }

    /** Everything a value nested this deep may write, besides the scratch. */
    ghost function Deeper(depth: nat): set<object> {
      (set i | depth <= i < |levels| :: levels[i]) +
      (set i | depth <= i < |levels| :: levels[i].keys) +
      (set i | depth <= i < |levels| :: levels[i].values)
    }

    /** What is left to read. */
    function Left(): Bytes
      reads this`pos
    {
      if pos <= |src| then src[pos..] else []
    }

    /** A reader over src that works in the storage an earlier one worked in. */
    constructor (src: Bytes, scratch: Buffer, levels: seq<Level>, grown: nat)
      requires grown <= |levels| == MAX_DEPTH + 1 && Separate(levels, scratch)
      ensures Valid() && pos == 0
      ensures this.src == src && this.scratch == scratch && this.levels == levels
    {
      this.src, this.scratch, this.levels := src, scratch, levels;
      this.pos, this.grown := 0, grown;
    }

    /** Appends the canonical form of the whole source. */
    method Document(dst: Buffer) returns (ok: bool)
      requires Valid() && Writable(dst, 0) && pos == 0
      modifies this`pos, this`grown, scratch, dst, Deeper(0)
      ensures Valid()
      ensures ok == ParseDocument(src, SINGLE_PASS).Parsed?
      ensures ok ==> dst.bytes == old(dst.bytes) + Canonical(ParseDocument(src, SINGLE_PASS).value)
    {
      hide ParseValue, SkipSpace, Canonical, Deeper, Separate;
      assert Left() == src;
      SkipSpaces();
      ok := Value(dst, 0);
      if !ok {
        return;
      }
      SkipSpaces();
      ok := pos == |src|;
    }

    /** Whether b is the byte at the current position. */
    method At(b: Byte) returns (here: bool)
      requires Valid()
      ensures here == Next(Left(), b)
    {
      here := pos < |src| && src[pos] == b;
    }

    /** Moves past the byte at the current position. */
    method Advance()
      requires Valid() && Left() != []
      modifies this`pos
      ensures Valid() && pos == old(pos) + 1
      ensures Left() == old(Left())[1..]
    {
      pos := pos + 1;
    }

    method SkipSpaces()
      requires Valid()
      modifies this`pos
      ensures Valid() && old(pos) <= pos
      ensures Left() == SkipSpace(old(Left()))
    {
      hide Deeper, Separate, SkipSpace;
      SpaceUnfold(Left());
      while pos < |src| && Space(src[pos])
        invariant Valid() && old(pos) <= pos
        invariant SkipSpace(Left()) == SkipSpace(old(Left()))
      {
        SpaceUnfold(Left());
        assert Left()[1..] == src[pos + 1..];
        pos := pos + 1;
      }
      SpaceUnfold(Left());
    }

    method Word(dst: Buffer, word: Bytes, ghost value: Value) returns (ok: bool)
      requires Valid() && word != []
      modifies this`pos, dst
      ensures Valid() && old(pos) <= pos
      ensures ok == ParseWord(old(Left()), word, value).Parsed?
      ensures ok ==> Left() == ParseWord(old(Left()), word, value).rest && dst.bytes == old(dst.bytes) + word
    {
      if pos + |word| > |src| || src[pos..pos + |word|] != word {
        assert !(word <= Left());
        return false;
      }
      assert word <= Left();
      pos := pos + |word|;
      dst.Append(word);
      return true;
    }

    method SkipDigits() returns (digits: nat)
      requires Valid()
      modifies this`pos
      ensures Valid() && pos == old(pos) + digits
      ensures digits == Digits(old(Left()))
    {
      digits := 0;
      while pos < |src| && Digit(src[pos])
        invariant pos == old(pos) + digits <= |src|
        invariant Digits(old(Left())) == digits + Digits(Left())
      {
        pos := pos + 1;
        digits := digits + 1;
      }
    }

    /** Emits a number's token as it is written. */
    method Number(dst: Buffer) returns (ok: bool)
      requires Valid()
      modifies this`pos, dst
      ensures Valid() && old(pos) <= pos
      ensures ok == ParseNumber(old(Left()), SINGLE_PASS).Parsed?
      ensures ok ==> Left() == ParseNumber(old(Left()), SINGLE_PASS).rest
      ensures ok ==> dst.bytes == old(dst.bytes) + Print(ParseNumber(old(Left()), SINGLE_PASS).value)
    {
      hide Finite, NumberEnd, Inexact;
      ghost var s := Left();
      var start := pos;
      var inexact;
      inexact, ok := NumberToken();
      if ok {
        var token := src[start..pos];
        assert token == s[..pos - start];
        if inexact && !Finite(token) {
          return false;
        }
        dst.Append(token);
      }
    }

    /** Moves past a number's token. */
    method NumberToken() returns (inexact: bool, ok: bool)
      requires Valid()
      modifies this`pos
      ensures Valid() && old(pos) <= pos
      ensures ok == NumberEnd(old(Left())).Some?
      ensures ok ==> NumberEnd(old(Left())) == Some(pos - old(pos))
      ensures ok ==> inexact == Inexact(old(Left())[..pos - old(pos)])
    {
      hide Inexact, IntegerEnd, FractionEnd, ExponentEnd;
      ghost var s := Left();
      var start := pos;
      ok := Integer();
      if !ok {
        return false, false;
      }
      inexact, ok := Fraction(start);
      if !ok {
        return;
      }
      var exponent;
      exponent, ok := Exponent(start);
      if !ok {
        return;
      }
      inexact := inexact || exponent;
      TokenMarks(s);
    }

    method Integer() returns (ok: bool)
      requires Valid()
      modifies this`pos
      ensures Valid() && old(pos) <= pos
      ensures ok == IntegerEnd(old(Left())).Some?
      ensures ok ==> IntegerEnd(old(Left())) == Some(pos - old(pos))
    {
      if pos < |src| && src[pos] == 0x2D {
        pos := pos + 1;
      }
      if pos >= |src| {
        return false;
      }
      ghost var s := old(Left());
      assert Left() == s[pos - old(pos)..];
      if src[pos] == 0x30 {
        pos := pos + 1;
      } else if 0x31 <= src[pos] <= 0x39 {
        var _ := SkipDigits();
      } else {
        return false;
      }
      return true;
    }

    method Fraction(ghost start: nat) returns (inexact: bool, ok: bool)
      requires Valid() && start <= pos
      modifies this`pos
      ensures Valid() && old(pos) <= pos
      ensures ok == FractionEnd(src[start..], old(pos) - start).Some?
      ensures ok ==> FractionEnd(src[start..], old(pos) - start) == Some(pos - start)
      ensures ok ==> inexact == (old(pos) < pos)
    {
      hide Digits;
      ghost var s := src[start..];
      inexact, ok := false, true;
      if pos < |src| && src[pos] == 0x2E {
        inexact := true;
        pos := pos + 1;
        assert s[pos - start..] == src[pos..];
        var digits := SkipDigits();
        if digits == 0 {
          ok := false;
        }
      }
    }

    method Exponent(ghost start: nat) returns (inexact: bool, ok: bool)
      requires Valid() && start <= pos
      modifies this`pos
      ensures Valid() && old(pos) <= pos
      ensures ok == ExponentEnd(src[start..], old(pos) - start).Some?
      ensures ok ==> ExponentEnd(src[start..], old(pos) - start) == Some(pos - start)
      ensures ok ==> inexact == (old(pos) < pos)
    {
      hide Digits;
      ghost var s := src[start..];
      inexact, ok := false, true;
      if pos < |src| && (src[pos] == 0x65 || src[pos] == 0x45) {
        inexact := true;
        pos := pos + 1;
        if pos < |src| && (src[pos] == 0x2B || src[pos] == 0x2D) {
          pos := pos + 1;
        }
        assert s[pos - start..] == src[pos..];
        var digits := SkipDigits();
        if digits == 0 {
          ok := false;
        }
      }
    }

    /** Decodes the string at the current position, appending its text. */
    method StrInto(dst: Buffer) returns (ok: bool)
      requires Valid() && Next(Left(), QUOTE)
      modifies this`pos, dst
      ensures Valid() && old(pos) < pos
      ensures ok == ParseText(old(Left())).Parsed?
      ensures ok ==> Left() == ParseText(old(Left())).rest
      ensures ok ==> dst.bytes == old(dst.bytes) + ParseText(old(Left())).value
    {
      hide DecodeChars;
      pos := pos + 1;
      ghost var s := Left();
      assert s == old(Left())[1..];
      ghost var base := dst.bytes;
      ghost var done := [];
      PrependTwice([], [], DecodeChars(s));
      while true
        invariant Valid() && old(pos) < pos
        invariant dst.bytes == base + done
        invariant DecodeChars(s) == Prepend(done, DecodeChars(Left()))
        decreases |src| - pos
      {
        ghost var here := Left();
        DecodeUnfold(here);
        if pos >= |src| {
          return false;
        }
        var c := src[pos];
        assert here[0] == c;
        if c == QUOTE {
          pos := pos + 1;
          assert done + [] == done;
          assert Left() == here[1..];
          return true;
        }
        ghost var piece := [c];
        if c == BACKSLASH {
          ok, piece := Escape(dst);
          if !ok {
            return false;
          }
        } else if c < 0x20 {
          return false;
        } else {
          dst.Append([c]);
          pos := pos + 1;
          assert Left() == here[1..];
        }
        Regroup3(base, done, piece);
        PrependTwice(done, piece, DecodeChars(Left()));
        done := done + piece;
      }
    }

    /** Decodes one escape, from its backslash. */
    method Escape(dst: Buffer) returns (ok: bool, ghost piece: Bytes)
      requires Valid() && Next(Left(), BACKSLASH)
      modifies this`pos, dst
      ensures Valid() && old(pos) < pos
      ensures !ok ==> !DecodeChars(old(Left())).Decoded?
      ensures ok ==> DecodeChars(old(Left())) == Prepend(piece, DecodeChars(Left()))
      ensures ok ==> dst.bytes == old(dst.bytes) + piece
    {
      hide DecodeChars, HexQuad;
      ghost var s := Left();
      DecodeUnfold(s);
      piece := [];
      pos := pos + 1;
      if pos >= |src| {
        return false, [];
      }
      assert s[1] == src[pos];
      if src[pos] == LETTER_U {
        assert src[pos + 1..] == s[2..];
        var unit, isHex := DecodeHexQuad(src, pos + 1);
        if !isHex {
          return false, [];
        }
        pos := pos + 5;
        assert Left() == s[6..];
        if Utf8.Surrogate(unit) {
          if pos + 6 > |src| || src[pos] != BACKSLASH || src[pos + 1] != LETTER_U {
            return false, [];
          }
          assert src[pos + 2..] == s[6..][2..];
          var low, lowIsHex := DecodeHexQuad(src, pos + 2);
          if !lowIsHex || !HighSurrogate(unit) || !LowSurrogate(low) {
            return false, [];
          }
          pos := pos + 6;
          assert Left() == s[12..];
          dst.Append(Utf8.Encode(Combine(unit, low)));
          return true, Utf8.Encode(Combine(unit, low));
        }
        dst.Append(Utf8.Encode(unit));
        return true, Utf8.Encode(unit);
      }
      match ShortEscape(src[pos]) {
        case Some(b) =>
          dst.Append([b]);
          pos := pos + 1;
          assert Left() == s[2..];
          return true, [b];
        case None =>
          return false, [];
      }
    }

    /** Decodes a string value into the scratch, whose text lasts until the next one. */
    method Str() returns (ok: bool)
      requires Valid() && Next(Left(), QUOTE)
      modifies this`pos, scratch
      ensures Valid() && old(pos) < pos
      ensures ok == ParseText(old(Left())).Parsed?
      ensures ok ==> Left() == ParseText(old(Left())).rest && scratch.bytes == ParseText(old(Left())).value
    {
      scratch.Truncate();
      ok := StrInto(scratch);
      assert ok ==> [] + ParseText(old(Left())).value == ParseText(old(Left())).value;
    }

    ghost predicate Writable(dst: Buffer, depth: nat) {
      dst != scratch && dst !in Deeper(depth)
    }

    lemma DeeperShrinks(depth: nat)
      ensures Deeper(depth + 1) <= Deeper(depth)
    {
    }

    /** Appends one value's canonical form. A level above the value's depth is never written. */
    method Value(dst: Buffer, depth: nat) returns (ok: bool)
      requires Valid() && Writable(dst, depth)
      modifies this`pos, this`grown, scratch, dst, Deeper(depth)
      ensures Valid() && old(pos) <= pos
      ensures ok == ParseValue(old(Left()), depth, SINGLE_PASS).Parsed?
      ensures ok ==> Left() == ParseValue(old(Left()), depth, SINGLE_PASS).rest
      ensures ok ==> dst.bytes == old(dst.bytes) + Canonical(ParseValue(old(Left()), depth, SINGLE_PASS).value)
      decreases |src| - pos, 2
    {
      hide ParseNumber, ParseText, ParseArray, ParseObject, ParseWord, CanonicalString;
      if depth > MAX_DEPTH || pos >= |src| {
        return false;
      }
      var c := src[pos];
      assert Left()[0] == c;
      if c == LBRACE {
        ok := ObjectValue(dst, depth);
      } else if c == LBRACKET {
        ok := ArrayValue(dst, depth);
      } else if c == QUOTE {
        ok := Str();
        if ok {
          AppendCanonicalString(dst, scratch.bytes);
        }
      } else if c == 0x74 {
        ok := Word(dst, TRUE_WORD, True);
      } else if c == 0x66 {
        ok := Word(dst, FALSE_WORD, False);
      } else if c == 0x6E {
        ok := Word(dst, NULL_WORD, Null);
      } else {
        ok := Number(dst);
      }
    }

    method ArrayValue(dst: Buffer, depth: nat) returns (ok: bool)
      requires Valid() && Writable(dst, depth) && Next(Left(), LBRACKET)
      modifies this`pos, this`grown, scratch, dst, Deeper(depth)
      ensures Valid() && old(pos) <= pos
      ensures ok == ParseArray(old(Left()), depth, SINGLE_PASS).Parsed?
      ensures ok ==> Left() == ParseArray(old(Left()), depth, SINGLE_PASS).rest
      ensures ok ==> dst.bytes == old(dst.bytes) + Canonical(ParseArray(old(Left()), depth, SINGLE_PASS).value)
      decreases |src| - pos, 1
    {
      hide ParseArray, ParseItems, SkipSpace, PrintItems, NormalItems, Canonical, Deeper, Separate, Left;
      ArrayUnfold(Left(), depth, SINGLE_PASS);
      Advance();
      dst.Append([LBRACKET]);
      SkipSpaces();
      var closed := At(RBRACKET);
      if closed {
        Advance();
        dst.Append([RBRACKET]);
        EmptyArray();
        Regroup3(old(dst.bytes), [LBRACKET], [RBRACKET]);
        return true;
      }
      ghost var items;
      ok, items := Items(dst, depth);
      if ok {
        FullArray(items);
        Regroup3(old(dst.bytes), [LBRACKET], PrintItems(NormalItems(items)));
      }
    }

    /** One item and the space on either side of it. */
    method OneItem(dst: Buffer, depth: nat) returns (ok: bool, ghost item: Json.Value)
      requires Valid() && Writable(dst, depth)
      modifies this`pos, this`grown, scratch, dst, Deeper(depth)
      ensures Valid() && old(pos) <= pos
      ensures ok ==> old(pos) < pos
      ensures var parse := ParseValue(SkipSpace(old(Left())), depth + 1, SINGLE_PASS);
              ok == parse.Parsed? && (ok ==> parse.value == item && Left() == SkipSpace(parse.rest))
      ensures ok ==> dst.bytes == old(dst.bytes) + Canonical(item)
      decreases |src| - pos, 3
    {
      hide ParseValue, Canonical, SkipSpace, Deeper, Separate, Left;
      DeeperShrinks(depth);
      SkipSpaces();
      ghost var parse := ParseValue(Left(), depth + 1, SINGLE_PASS);
      ok := Value(dst, depth + 1);
      item := Null;
      if ok {
        item := parse.value;
        SkipSpaces();
      }
    }

    /** The items of an array up to and with its closing bracket. */
    method Items(dst: Buffer, depth: nat) returns (ok: bool, ghost items: seq<Json.Value>)
      requires Valid() && Writable(dst, depth)
      modifies this`pos, this`grown, scratch, dst, Deeper(depth)
      ensures Valid() && old(pos) <= pos
      ensures ok == ParseItems(old(Left()), depth, SINGLE_PASS).Parsed?
      ensures ok ==> ParseItems(old(Left()), depth, SINGLE_PASS) == Parsed(items, Left())
      ensures ok ==> items != [] && dst.bytes == old(dst.bytes) + PrintItems(NormalItems(items))
      decreases |src| - pos, 4
    {
      hide ParseItems, ParseValue, PrintItems, NormalItems, Canonical, SkipSpace, ItemsSoFar, Deeper, Separate, Left;
      ghost var goal := ParseItems(Left(), depth, SINGLE_PASS);
      ghost var base := dst.bytes;
      items := [];
      NothingPrinted(base);
      ItemsNone(goal);
      while true
        invariant Valid() && old(pos) <= pos
        invariant goal == After(items, ParseItems(Left(), depth, SINGLE_PASS))
        invariant dst.bytes == base + ItemsSoFar(NormalItems(items))
        decreases |src| - pos
      {
        ghost var here := Left();
        ItemsUnfold(here, depth, SINGLE_PASS);
        ghost var item;
        ok, item := OneItem(dst, depth);
        if !ok {
          return false, items;
        }
        ghost var after := Left();
        ItemPrinted(base, items, item);
        if after != [] {
          AfterTwice(items, item, ParseItems(after[1..], depth, SINGLE_PASS));
        }
        var comma := At(COMMA);
        var closed := At(RBRACKET);
        if comma {
          Advance();
          dst.Append([COMMA]);
          items := items + [item];
        } else if closed {
          Advance();
          dst.Append([RBRACKET]);
          return true, items + [item];
        } else {
          return false, items;
        }
      }
    }

    method ObjectValue(dst: Buffer, depth: nat) returns (ok: bool)
      requires Valid() && Writable(dst, depth) && Next(Left(), LBRACE) && depth <= MAX_DEPTH
      modifies this`pos, this`grown, scratch, dst, Deeper(depth)
      ensures Valid() && old(pos) <= pos
      ensures ok == ParseObject(old(Left()), depth, SINGLE_PASS).Parsed?
      ensures ok ==> Left() == ParseObject(old(Left()), depth, SINGLE_PASS).rest
      ensures ok ==> dst.bytes == old(dst.bytes) + Canonical(ParseObject(old(Left()), depth, SINGLE_PASS).value)
      decreases |src| - pos, 1
    {
      hide ParseObject, ParseMembers, SkipSpace, Canonical, PrintMembers, NormalMembers, DistinctKeys, Deeper, Separate, Holds, Left;
      ObjectUnfold(Left(), depth, SINGLE_PASS);
      Advance();
      SkipSpaces();
      var closed := At(RBRACE);
      if closed {
        Advance();
        dst.Append([LBRACE, RBRACE]);
        EmptyObject();
        return true;
      }
      while depth >= grown
        invariant grown <= |levels|
        modifies this`grown
      {
        grown := grown + 1;
      }
      InDeeper(dst, depth);
      var level := levels[depth];
      level.members := [];
      level.keys.Truncate();
      level.values.Truncate();
      ghost var members;
      ok, members := Members(level, depth);
      if ok {
        ok := Emit(dst, level, members);
      }
    }

    /** A level's own storage is written only by the object read at its depth, and by nothing nested in it. */
    lemma InDeeper(dst: Buffer, depth: nat)
      requires depth < |levels| && Separate(levels, scratch) && Writable(dst, depth)
      ensures var level := levels[depth];
              level in Deeper(depth) && level.keys in Deeper(depth) && level.values in Deeper(depth)
      ensures var level := levels[depth];
              level !in Deeper(depth + 1) && Writable(level.keys, depth + 1) && Writable(level.values, depth + 1)
      ensures var level := levels[depth];
              level.keys != level.values && level.keys != dst && level.values != dst
      ensures Deeper(depth + 1) <= Deeper(depth)
    {
    }

    /** Sorts the object's members in place and writes them out, unless a key repeats. */
    method Emit(dst: Buffer, level: Level, ghost members: seq<Member<Json.Value>>) returns (ok: bool)
      requires members != [] && dst != level.keys && dst != level.values
      requires LevelHolds(level, members)
      modifies level, dst
      ensures ok == DistinctKeys(members)
      ensures ok ==> dst.bytes == old(dst.bytes) + Canonical(Object(members))
    {
      hide Canonical, Holds, HoldsOne, PrintMember, CanonicalString, DistinctKeys, EmittedSoFar, SortMembers, NormalMembers, PrintMembers, Ascending;
      ghost var normal := NormalMembers(members);
      var sorted, arranged := SortSpans(level.members, level.keys.bytes, level.values.bytes, normal);
      level.members := sorted;
      SortedApart(members, arranged);
      ghost var base := dst.bytes;
      EmitNone(arranged);
      HoldsLength(sorted, level.keys.bytes, level.values.bytes, arranged);
      dst.Append([LBRACE]);
      for index := 0 to |sorted|
        invariant dst.bytes == base + [LBRACE] + EmittedSoFar(arranged, index)
        invariant forall i :: 0 < i < index ==> arranged[i].key != arranged[i - 1].key
        modifies dst
      {
        HoldsAt(sorted, level.keys.bytes, level.values.bytes, arranged, index);
        var key := level.keys.bytes[sorted[index].keyStart..sorted[index].keyEnd];
        if index > 0 {
          HoldsAt(sorted, level.keys.bytes, level.values.bytes, arranged, index - 1);
          if key == level.keys.bytes[sorted[index - 1].keyStart..sorted[index - 1].keyEnd] {
            return false;
          }
          dst.Append([COMMA]);
        }
        EmitStep(base + [LBRACE], arranged, index);
        AppendCanonicalString(dst, key);
        dst.Append([COLON]);
        dst.Append(level.values.bytes[sorted[index].valStart..sorted[index].valEnd]);
      }
      dst.Append([RBRACE]);
      EmitEnd(base, members, arranged);
      return true;
    }

    /** A member's key, added to the level's arena, and the colon after it. */
    method KeyAndColon(level: Level) returns (ok: bool, ghost key: Bytes)
      requires Valid()
      modifies this`pos, level.keys
      ensures Valid() && old(pos) <= pos
      ensures ok ==> Next(old(Left()), QUOTE) && ParseText(old(Left())).Parsed?
      ensures ok ==> ParseText(old(Left())).value == key && Next(SkipSpace(ParseText(old(Left())).rest), COLON)
      ensures ok ==> Left() == SkipSpace(SkipSpace(ParseText(old(Left())).rest)[1..])
      ensures ok ==> level.keys.bytes == old(level.keys.bytes) + key && old(pos) < pos
      ensures !ok ==> !Next(old(Left()), QUOTE) || ParseText(old(Left())).Refused? || !Next(SkipSpace(ParseText(old(Left())).rest), COLON)
    {
      hide ParseText, SkipSpace, Deeper, Separate, Left;
      key := [];
      var quoted := At(QUOTE);
      if !quoted {
        return false, key;
      }
      key := if ParseText(Left()).Parsed? then ParseText(Left()).value else [];
      ok := StrInto(level.keys);
      if !ok {
        return;
      }
      SkipSpaces();
      ghost var colon := Left();
      assert colon == SkipSpace(ParseText(old(Left())).rest);
      ok := At(COLON);
      if !ok {
        return;
      }
      Advance();
      SkipSpaces();
    }

    /** One member and the space on either side of it, its key and value added to the level's arenas. */
    method OneMember(level: Level, depth: nat, ghost members: seq<Member<Json.Value>>) returns (ok: bool, ghost member: Member<Json.Value>)
      requires Valid() && depth < |levels| && level == levels[depth]
      requires LevelHolds(level, members)
      modifies this`pos, this`grown, scratch, level, level.keys, level.values, Deeper(depth + 1)
      ensures Valid() && old(pos) <= pos
      ensures ok ==> old(pos) < pos
      ensures ok == ParseMember(SkipSpace(old(Left())), depth, SINGLE_PASS).Parsed?
      ensures ok ==> ParseMember(SkipSpace(old(Left())), depth, SINGLE_PASS).value == member
      ensures ok ==> Left() == SkipSpace(ParseMember(SkipSpace(old(Left())), depth, SINGLE_PASS).rest)
      ensures ok ==> LevelHolds(level, members + [member])
      decreases |src| - pos, 3
    {
      hide ParseMember, ParseText, ParseValue, Canonical, SkipSpace, Deeper, Separate, NormalMembers, Holds, Left;
      member := Member([], Null);
      InDeeperToo(depth);
      SkipSpaces();
      MemberUnfold(Left(), depth, SINGLE_PASS);
      ghost var keys, values := level.keys.bytes, level.values.bytes;
      ghost var key;
      var keyStart := |level.keys.bytes|;
      ok, key := KeyAndColon(level);
      if !ok {
        return;
      }
      var keyEnd := |level.keys.bytes|;
      ghost var value := ParseValue(Left(), depth + 1, SINGLE_PASS);
      var valStart := |level.values.bytes|;
      ok := Value(level.values, depth + 1);
      if !ok {
        return;
      }
      member := Member(key, value.value);
      var span := Span(keyStart, keyEnd, valStart, |level.values.bytes|);
      HoldsOneMore(level.members, keys, values, members, member, span);
      level.members := level.members + [span];
      SkipSpaces();
    }

    lemma InDeeperToo(depth: nat)
      requires depth < |levels| && Separate(levels, scratch)
      ensures var level := levels[depth];
              level !in Deeper(depth + 1) && Writable(level.keys, depth + 1) && Writable(level.values, depth + 1)
              && level.keys != level.values
    {
    }

    /** The members of an object up to and with its closing brace. */
    method Members(level: Level, depth: nat) returns (ok: bool, ghost members: seq<Member<Json.Value>>)
      requires Valid() && depth < |levels| && level == levels[depth]
      requires level.members == [] && level.keys.bytes == [] && level.values.bytes == []
      modifies this`pos, this`grown, scratch, level, level.keys, level.values, Deeper(depth + 1)
      ensures Valid() && old(pos) <= pos
      ensures ok == ParseMembers(old(Left()), depth, SINGLE_PASS).Parsed?
      ensures ok ==> ParseMembers(old(Left()), depth, SINGLE_PASS) == Parsed(members, Left())
      ensures ok ==> members != [] && LevelHolds(level, members)
      decreases |src| - pos, 4
    {
      hide ParseMembers, ParseMember, SkipSpace, Deeper, Separate, LevelHolds, Left;
      ghost var goal := ParseMembers(Left(), depth, SINGLE_PASS);
      members := [];
      ItemsNone(goal);
      HoldsNone(level);
      while true
        invariant Valid() && old(pos) <= pos
        invariant goal == After(members, ParseMembers(Left(), depth, SINGLE_PASS))
        invariant LevelHolds(level, members)
        decreases |src| - pos
      {
        ghost var here := Left();
        MembersUnfold(here, depth, SINGLE_PASS);
        ghost var member;
        ok, member := OneMember(level, depth, members);
        if !ok {
          return false, members;
        }
        ghost var after := Left();
        if after != [] {
          AfterTwice(members, member, ParseMembers(after[1..], depth, SINGLE_PASS));
        }
        var comma := At(COMMA);
        var closed := At(RBRACE);
        if comma {
          Advance();
          members := members + [member];
        } else if closed {
          Advance();
          return true, members + [member];
        } else {
          return false, members;
        }
      }
    }
  }

  lemma HoldsNone(level: Level)
    requires level.members == [] && level.keys.bytes == [] && level.values.bytes == []
    ensures LevelHolds(level, [])
  {
  }

  lemma HoldsOneMore(spans: seq<Span>, keys: Bytes, values: Bytes, members: seq<Member<Json.Value>>, m: Member<Json.Value>, span: Span)
    requires Holds(spans, keys, values, NormalMembers(members))
    requires span == Span(|keys|, |keys + m.key|, |values|, |values + Canonical(m.value)|)
    ensures Holds(spans + [span], keys + m.key, values + Canonical(m.value), NormalMembers(members + [m]))
  {
    hide Print, Normal;
    HoldsAppended(spans, keys, values, NormalMembers(members), m.key, Canonical(m.value));
    assert NormalMembers(members + [m]) == NormalMembers(members) + [Member(m.key, Normal(m.value))];
  }

  lemma EmptyObject()
    ensures Canonical(Object([])) == [LBRACE, RBRACE]
  {
  }

  lemma HoldsLength(spans: seq<Span>, keys: Bytes, values: Bytes, members: seq<Member<Json.Value>>)
    requires Holds(spans, keys, values, members)
    ensures |spans| == |members|
  {
  }

  lemma HoldsAt(spans: seq<Span>, keys: Bytes, values: Bytes, members: seq<Member<Json.Value>>, i: nat)
    requires Holds(spans, keys, values, members) && i < |spans|
    ensures |spans| == |members|
    ensures spans[i].keyStart <= spans[i].keyEnd <= |keys| && keys[spans[i].keyStart..spans[i].keyEnd] == members[i].key
    ensures spans[i].valStart <= spans[i].valEnd <= |values| && values[spans[i].valStart..spans[i].valEnd] == Print(members[i].value)
  {
    assert HoldsOne(spans[i], keys, values, members[i]);
  }

  /** What sorting the spans says of the members: a repeated key is side by side, and otherwise the order is the sorted one. */
  lemma SortedApart(members: seq<Member<Json.Value>>, arranged: seq<Member<Json.Value>>)
    requires multiset(arranged) == multiset(NormalMembers(members)) && Ascending(arranged)
    ensures DistinctKeys(members) <==> forall i :: 0 < i < |arranged| ==> arranged[i].key != arranged[i - 1].key
    ensures DistinctKeys(members) ==> arranged == SortMembers(NormalMembers(members))
    ensures |arranged| == |members|
  {
    hide Normal;
    AscendingIsSorted(NormalMembers(members), arranged);
    RepeatIsAdjacent(arranged);
    NormalKeepsKeys(members);
    assert |multiset(arranged)| == |arranged|;
    assert |multiset(NormalMembers(members))| == |members|;
  }

  lemma NormalKeepsKeys(members: seq<Member<Json.Value>>)
    ensures DistinctKeys(NormalMembers(members)) == DistinctKeys(members)
  {
    hide Normal;
    var normal := NormalMembers(members);
    assert forall i :: 0 <= i < |members| ==> normal[i].key == members[i].key;
  }

  /** The members written before index, commas between them. */
  function EmittedSoFar(members: seq<Member<Json.Value>>, index: nat): Bytes
    requires index <= |members|
  {
    if index == 0 then [] else MembersSoFar(members[..index - 1]) + PrintMember(members[index - 1])
  }

  lemma EmitNone(members: seq<Member<Json.Value>>)
    ensures EmittedSoFar(members, 0) == []
  {
  }

  lemma EmitStep(base: Bytes, members: seq<Member<Json.Value>>, index: nat)
    requires index < |members|
    ensures var m := members[index];
            base + EmittedSoFar(members, index) + (if index > 0 then [COMMA] else []) + CanonicalString(m.key) + [COLON] + Print(m.value)
            == base + EmittedSoFar(members, index + 1)
  {
    hide CanonicalString, Print, MembersSoFar;
    var m := members[index];
    var comma := if index > 0 then [COMMA] else [];
    Flatten(base, EmittedSoFar(members, index), comma, CanonicalString(m.key), [COLON], Print(m.value));
    SoFarStep(members, index);
  }

  lemma SoFarStep(members: seq<Member<Json.Value>>, index: nat)
    requires index < |members|
    ensures MembersSoFar(members[..index]) == EmittedSoFar(members, index) + if index > 0 then [COMMA] else []
  {
    hide PrintMember;
    if index > 0 {
      assert members[..index][..index - 1] == members[..index - 1];
    }
  }

  lemma Flatten(a: Bytes, b: Bytes, c: Bytes, d: Bytes, e: Bytes, f: Bytes)
    ensures a + b + c + d + e + f == a + (b + c + (d + e + f))
  {
  }

  lemma EmitEnd(base: Bytes, members: seq<Member<Json.Value>>, arranged: seq<Member<Json.Value>>)
    requires members != [] && |arranged| == |members|
    requires arranged == SortMembers(NormalMembers(members))
    ensures base + [LBRACE] + EmittedSoFar(arranged, |arranged|) + [RBRACE] == base + Canonical(Object(members))
  {
    hide SortMembers, NormalMembers, Canonical, EmittedSoFar, PrintMembers;
    FullObject(members);
    AllEmitted(arranged);
    Enclosed(base, EmittedSoFar(arranged, |arranged|));
  }

  lemma Enclosed(base: Bytes, inner: Bytes)
    ensures base + [LBRACE] + inner + [RBRACE] == base + ([LBRACE] + (inner + [RBRACE]))
  {
  }

  lemma AllEmitted(arranged: seq<Member<Json.Value>>)
    requires arranged != []
    ensures EmittedSoFar(arranged, |arranged|) + [RBRACE] == PrintMembers(arranged)
  {
    hide PrintMember, MembersSoFar, PrintMembers;
    var n := |arranged|;
    MembersContinue(arranged[..n - 1], [arranged[n - 1]]);
    PrintOne(arranged[n - 1]);
    assert arranged == arranged[..n - 1] + [arranged[n - 1]];
    Regroup(MembersSoFar(arranged[..n - 1]), PrintMember(arranged[n - 1]), [RBRACE]);
  }

  lemma PrintOne(m: Member<Json.Value>)
    ensures PrintMembers([m]) == PrintMember(m) + [RBRACE]
  {
    hide PrintMember;
  }

  lemma FullObject(members: seq<Member<Json.Value>>)
    requires members != []
    ensures Canonical(Object(members)) == [LBRACE] + PrintMembers(SortMembers(NormalMembers(members)))
  {
    SortPermutes(NormalMembers(members));
  }

  /** Reads four hexadecimal digits from start. */
  method DecodeHexQuad(payload: Bytes, start: nat) returns (value: nat, ok: bool)
    requires start <= |payload|
    ensures ok == HexQuad(payload[start..]).Some?
    ensures ok ==> value == HexQuad(payload[start..]).value
  {
    if start + 4 > |payload| {
      return 0, false;
    }
    value := 0;
    ghost var quad := payload[start..];
    for i := 0 to 4
      invariant forall k :: 0 <= k < i ==> HexValue(quad[k]).Some?
      invariant i == 0 ==> value == 0
      invariant i == 1 ==> value == HexValue(quad[0]).value
      invariant i == 2 ==> value == HexValue(quad[0]).value * 16 + HexValue(quad[1]).value
      invariant i == 3 ==> value == HexValue(quad[0]).value * 256 + HexValue(quad[1]).value * 16 + HexValue(quad[2]).value
      invariant i == 4 ==> value == HexValue(quad[0]).value * 4096 + HexValue(quad[1]).value * 256 + HexValue(quad[2]).value * 16 + HexValue(quad[3]).value
    {
      assert payload[start + i] == quad[i];
      match HexValue(payload[start + i]) {
        case Some(digit) => value := (value * 16 + digit) % 0x10000;
        case None => return 0, false;
      }
    }
    ok := true;
  }

  /** The storage calls share: one scratch, and one working set for every depth. */
  class Pool {
    const scratch: Buffer
    const levels: seq<Level>
    var grown: nat

    ghost predicate Valid()
      reads this
    {
      grown <= |levels| == MAX_DEPTH + 1 && Separate(levels, scratch)
    }

    ghost function Storage(): set<object> {
      {scratch} +
      (set i | 0 <= i < |levels| :: levels[i]) +
      (set i | 0 <= i < |levels| :: levels[i].keys) +
      (set i | 0 <= i < |levels| :: levels[i].values)
    }

    constructor ()
      ensures Valid() && fresh(Storage())
    {
      var scratch := new Buffer();
      var levels: seq<Level> := [];
      while |levels| < MAX_DEPTH + 1
        invariant |levels| <= MAX_DEPTH + 1
        invariant fresh(scratch)
        invariant forall i :: 0 <= i < |levels| ==> fresh(levels[i]) && fresh(levels[i].keys) && fresh(levels[i].values)
        invariant Separate(levels, scratch)
      {
        var level := new Level();
        levels := levels + [level];
      }
      this.scratch, this.levels, this.grown := scratch, levels, 0;
    }

    /**
     * Appends the canonical form of one document, or declines it. Whatever earlier calls left in
     * the pool has no part in the answer.
     */
    method CanonicalStreamV2(dst: Buffer, src: Bytes) returns (ok: bool)
      requires Valid() && dst !in Storage()
      modifies this, dst, Storage()
      ensures Valid()
      ensures ok == ParseDocument(src, SINGLE_PASS).Parsed?
      ensures ok ==> dst.bytes == old(dst.bytes) + Canonical(ParseDocument(src, SINGLE_PASS).value)
    {
      hide ParseDocument, Canonical, Separate;
      var stream := new CanonicalStream(src, scratch, levels, grown);
      ok := stream.Document(dst);
      grown := stream.grown;
    }
  }

  /** No two levels share an arena, and none shares the scratch. */
  ghost predicate Separate(levels: seq<Level>, scratch: Buffer) {
    && (forall i :: 0 <= i < |levels| ==> levels[i].keys != levels[i].values && levels[i].keys != scratch && levels[i].values != scratch)
    && (forall i, j :: 0 <= i < j < |levels| ==>
          && levels[i] != levels[j]
          && levels[i].keys != levels[j].keys && levels[i].keys != levels[j].values
          && levels[i].values != levels[j].keys && levels[i].values != levels[j].values)
  }

  /** A token is inexact exactly when its fraction or its exponent is not empty. */
  lemma TokenMarks(s: Bytes)
    requires NumberEnd(s).Some?
    ensures var i := IntegerEnd(s).value;
            Inexact(s[..NumberEnd(s).value]) <==> i < NumberEnd(s).value
  {
    var i := IntegerEnd(s).value;
    var end := NumberEnd(s).value;
    var token := s[..end];
    if i < end {
      assert token[i] == s[i];
    }
    forall k | 0 <= k < i ensures s[k] != 0x2E && s[k] != 0x65 && s[k] != 0x45 {
      var start := if s[0] == 0x2D then 1 else 0;
      if start <= k && s[start] != 0x30 {
        assert Digit(s[start..][k - start]);
      }
    }
  }

  lemma ItemPrinted(base: Bytes, items: seq<Json.Value>, item: Json.Value)
    ensures base + ItemsSoFar(NormalItems(items)) + Canonical(item) + [COMMA] == base + ItemsSoFar(NormalItems(items + [item]))
    ensures base + ItemsSoFar(NormalItems(items)) + Canonical(item) + [RBRACKET] == base + PrintItems(NormalItems(items + [item]))
  {
    hide Print;
    var done := NormalItems(items);
    var more := NormalItems(items + [item]);
    assert more == done + [Normal(item)];
    assert more[..|more| - 1] == done;
    ItemsContinue(done, [Normal(item)]);
    assert PrintItems([Normal(item)]) == Print(Normal(item)) + [RBRACKET];
  }

  lemma NothingPrinted(base: Bytes)
    ensures base + ItemsSoFar(NormalItems([])) == base
  {
  }

  lemma EmptyArray()
    ensures Canonical(Array([])) == [LBRACKET] + [RBRACKET]
  {
  }

  lemma FullArray(items: seq<Json.Value>)
    requires items != []
    ensures Canonical(Array(items)) == [LBRACKET] + PrintItems(NormalItems(items))
  {
    assert Normal(Array(items)) == Array(NormalItems(items));
  }
}
