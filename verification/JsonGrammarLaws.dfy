// The parser accepts exactly the texts of the grammar, within its limits, and gives what they mean.
module JsonGrammarLaws {
  import opened Bytes
  import opened JsonNumber
  import opened JsonValue
  import opened JsonWriter
  import opened JsonParser
  import JsonRoundTrip
  import opened JsonGrammar
  import Utf8

  // ----- blanks

  lemma {:induction false} BlanksAreSkipped(input: Bytes, at: nat, blanks: Bytes)
    requires StandsAt(input, at, blanks) && IsBlank(blanks)
    requires at + |blanks| < |input| ==> !IsSpace(input[at + |blanks|])
    ensures SkipSpace(input, at) == at + |blanks|
    decreases |blanks|
  {
    if blanks != [] {
      FirstByte(input, at, blanks);
      assert blanks == [blanks[0]] + blanks[1..];
      StandsAtSplit(input, at, [blanks[0]], blanks[1..]);
      BlanksAreSkipped(input, at + 1, blanks[1..]);
    }
  }

  lemma {:induction false} SkippedAreBlanks(s: Bytes, at: nat)
    requires at <= |s|
    ensures IsBlank(s[at..SkipSpace(s, at)]) && StandsAt(s, at, s[at..SkipSpace(s, at)])
    ensures SkipSpace(s, at) < |s| ==> !IsSpace(s[SkipSpace(s, at)])
    decreases |s| - at
  {
    if at < |s| && IsSpace(s[at]) {
      SkippedAreBlanks(s, at + 1);
      assert s[at..SkipSpace(s, at)] == [s[at]] + s[at + 1..SkipSpace(s, at + 1)];
    }
  }

  lemma NoBlanks()
    ensures IsBlank([])
  {
  }

  // ----- a spelled character is read

  lemma HexIsRead(h: Hex)
    requires HexHolds(h)
    ensures HexValue(HexSpelled(h)) == Some(h.value)
  {
  }

  /** The digit that a byte spells. */
  lemma ReadIsHex(b: Byte) returns (h: Hex)
    requires HexValue(b).Some?
    ensures HexHolds(h) && HexSpelled(h) == b && h.value == HexValue(b).value
  {
    h := Hex(HexValue(b).value, 'A' as int <= b <= 'F' as int);
  }

  lemma UnitIsRead(unit: Unit, input: Bytes, at: nat)
    requires UnitHolds(unit) && StandsAt(input, at, UnitSpelled(unit))
    ensures HexQuad(input, at) == Ok(UnitValue(unit), at + 4)
  {
    hide HexHolds, HexSpelled, HexValue;
    HexIsRead(unit.a);
    HexIsRead(unit.b);
    HexIsRead(unit.c);
    HexIsRead(unit.d);
    var text := UnitSpelled(unit);
    Utf8.BytesStanding(input, at, text);
    assert input[at + 0] == text[0] && input[at + 1] == text[1] && input[at + 2] == text[2] && input[at + 3] == text[3];
    var a, b, c, d := unit.a.value, unit.b.value, unit.c.value, unit.d.value;
    assert HexTail(input, at + 3, 1, (a * 16 + b) * 16 + c) == HexTail(input, at + 4, 0, UnitValue(unit));
    assert HexTail(input, at + 2, 2, a * 16 + b) == HexTail(input, at + 3, 1, (a * 16 + b) * 16 + c);
    assert HexTail(input, at + 1, 3, a) == HexTail(input, at + 2, 2, a * 16 + b);
    assert HexTail(input, at, 4, 0) == HexTail(input, at + 1, 3, a);
  }

  lemma MarkedIsRead(unit: Unit, input: Bytes, at: nat)
    requires UnitHolds(unit) && StandsAt(input, at, UnitEscape(unit))
    ensures ByteAt(input, at, BACKSLASH) && ByteAt(input, at + 1, LETTER_U)
    ensures HexQuad(input, at + 2) == Ok(UnitValue(unit), at + 6)
  {
    hide HexQuad, UnitValue, UnitHolds, UnitSpelled;
    var mark: Bytes := [BACKSLASH, LETTER_U];
    StandsAtSplit(input, at, mark, UnitSpelled(unit));
    Utf8.BytesStanding(input, at, mark);
    assert input[at + 0] == mark[0] && input[at + 1] == mark[1];
    UnitIsRead(unit, input, at + 2);
  }

  lemma EscapeStep(input: Bytes, at: nat, codepoint: Utf8.Scalar, end: nat)
    requires at + 2 <= |input| && ByteAt(input, at, BACKSLASH) && ByteAt(input, at + 1, LETTER_U)
    requires UnicodeEscape(input, at + 2) == Ok(codepoint, end)
    ensures CharAt(input, at) == Ok(Utf8.Encode(codepoint), end)
  {
    hide Utf8.Encode, UnicodeEscape;
  }

  lemma EscapeIsRead(unit: Unit, input: Bytes, at: nat)
    requires CharHolds(Escape(unit)) && StandsAt(input, at, CharSpelled(Escape(unit)))
    ensures CharAt(input, at) == Ok(CharMeaning(Escape(unit)), at + |CharSpelled(Escape(unit))|)
  {
    hide HexQuad, UnitValue, StandsAt, Utf8.Encode, CharAt;
    MarkedIsRead(unit, input, at);
    EscapeStep(input, at, UnitValue(unit), at + 6);
  }

  lemma PairIsRead(high: Unit, low: Unit, input: Bytes, at: nat)
    requires CharHolds(Pair(high, low)) && StandsAt(input, at, CharSpelled(Pair(high, low)))
    ensures CharAt(input, at) == Ok(CharMeaning(Pair(high, low)), at + |CharSpelled(Pair(high, low))|)
  {
    hide HexQuad, UnitValue, StandsAt, Utf8.Encode, CharAt;
    StandsAtSplit(input, at, UnitEscape(high), UnitEscape(low));
    MarkedIsRead(high, input, at);
    MarkedIsRead(low, input, at + 6);
    assert LowSurrogate(input, at + 6) == Ok(UnitValue(low), at + 12);
    EscapeStep(input, at, 0x10000 + (UnitValue(high) - 0xd800) * 0x400 + (UnitValue(low) - 0xdc00), at + 12);
  }

  lemma PlainIsRead(codepoint: Utf8.Scalar, input: Bytes, at: nat)
    requires CharHolds(Plain(codepoint)) && StandsAt(input, at, Utf8.Encode(codepoint))
    ensures input[at] != QUOTE && CharAt(input, at) == Ok(Utf8.Encode(codepoint), at + |Utf8.Encode(codepoint)|)
  {
    var text := Utf8.Encode(codepoint);
    FirstByte(input, at, text);
    if codepoint >= 0x80 { Utf8.EncodingIsMeasured(input, at, codepoint); }
  }

  lemma CharIsRead(c: Char, input: Bytes, at: nat)
    requires CharHolds(c) && StandsAt(input, at, CharSpelled(c))
    ensures at < |input| && input[at] != QUOTE
    ensures CharAt(input, at) == Ok(CharMeaning(c), at + |CharSpelled(c)|)
  {
    match c
    case Plain(codepoint) => PlainIsRead(codepoint, input, at);
    case Short(letter) =>
      Utf8.BytesStanding(input, at, CharSpelled(c));
      assert input[at + 0] == BACKSLASH && input[at + 1] == letter;
    case Escape(unit) =>
      FirstByte(input, at, CharSpelled(c));
      EscapeIsRead(unit, input, at);
    case Pair(high, low) =>
      FirstByte(input, at, CharSpelled(c));
      PairIsRead(high, low, input, at);
  }

  lemma OneByte(input: Bytes, at: nat, b: Byte)
    ensures StandsAt(input, at, [b]) <==> ByteAt(input, at, b)
  {
    if StandsAt(input, at, [b]) { FirstByte(input, at, [b]); }
    if ByteAt(input, at, b) { assert input[at..at + 1] == [b]; }
  }

  /** How a string, an array or an object lies in the text. */
  lemma BodyLies(open: Byte, body: Bytes, close: Byte, input: Bytes, at: nat)
    ensures StandsAt(input, at, [open] + body + [close])
            <==> ByteAt(input, at, open) && StandsAt(input, at + 1, body) && ByteAt(input, at + 1 + |body|, close)
  {
    hide StandsAt, ByteAt;
    StandsAtSplit(input, at, [open] + body, [close]);
    StandsAtSplit(input, at, [open], body);
    OneByte(input, at, open);
    OneByte(input, at + 1 + |body|, close);
  }

  lemma {:induction false} CharsAreRead(chars: seq<Char>, result: Bytes, input: Bytes, at: nat, o: ParseOptions)
    requires CharsHold(chars) && StandsAt(input, at, CharsSpelled(chars))
    requires ByteAt(input, at + |CharsSpelled(chars)|, QUOTE)
    requires |result| + |CharsMeaning(chars)| <= o.maxStringBytes
    ensures StringRest(input, at, result, o) == Ok(result + CharsMeaning(chars), at + |CharsSpelled(chars)| + 1)
    decreases |chars|
  {
    hide CharSpelled, CharMeaning, CharAt, CharHolds;
    if chars == [] {
      assert result + [] == result;
    } else {
      var c, rest := chars[0], chars[1..];
      StandsAtSplit(input, at, CharSpelled(c), CharsSpelled(rest));
      CharIsRead(c, input, at);
      Associate(result, CharMeaning(c), CharsMeaning(rest));
      CharsAreRead(rest, result + CharMeaning(c), input, at + |CharSpelled(c)|, o);
    }
  }

  lemma StringIsRead(chars: seq<Char>, input: Bytes, at: nat, o: ParseOptions)
    requires CharsHold(chars) && StandsAt(input, at, StringSpelled(chars)) && |CharsMeaning(chars)| <= o.maxStringBytes
    ensures at < |input| && input[at] == QUOTE
    ensures ParseString(input, at, o) == Ok(CharsMeaning(chars), at + |StringSpelled(chars)|)
  {
    hide StandsAt, CharsSpelled, CharsMeaning, CharsHold, StringRest;
    BodyLies(QUOTE, CharsSpelled(chars), QUOTE, input, at);
    CharsAreRead(chars, [], input, at + 1, o);
    assert [] + CharsMeaning(chars) == CharsMeaning(chars);
  }

  // ----- a character that is read is spelled

  lemma ReadIsUnit(s: Bytes, at: nat) returns (unit: Unit)
    requires at <= |s| && HexQuad(s, at).Ok?
    ensures UnitHolds(unit) && StandsAt(s, at, UnitSpelled(unit)) && UnitValue(unit) == HexQuad(s, at).value
  {
    hide HexHolds, HexSpelled, HexValue;
    assert HexTail(s, at, 4, 0).Ok?;
    var a := ReadIsHex(s[at]);
    assert HexTail(s, at, 4, 0) == HexTail(s, at + 1, 3, a.value);
    var b := ReadIsHex(s[at + 1]);
    assert HexTail(s, at + 1, 3, a.value) == HexTail(s, at + 2, 2, a.value * 16 + b.value);
    var c := ReadIsHex(s[at + 2]);
    assert HexTail(s, at + 2, 2, a.value * 16 + b.value) == HexTail(s, at + 3, 1, (a.value * 16 + b.value) * 16 + c.value);
    var d := ReadIsHex(s[at + 3]);
    unit := Unit(a, b, c, d);
    assert s[at..at + 4] == UnitSpelled(unit);
    UnitIsRead(unit, s, at);
  }

  /** A marked unit that is read stands there. */
  lemma ReadIsMarked(s: Bytes, at: nat) returns (unit: Unit)
    requires ByteAt(s, at, BACKSLASH) && ByteAt(s, at + 1, LETTER_U) && HexQuad(s, at + 2).Ok?
    ensures UnitHolds(unit) && StandsAt(s, at, UnitEscape(unit)) && UnitValue(unit) == HexQuad(s, at + 2).value
  {
    hide HexQuad, UnitValue, UnitHolds, UnitSpelled;
    var mark: Bytes := [BACKSLASH, LETTER_U];
    assert s[at..at + 2] == mark;
    unit := ReadIsUnit(s, at + 2);
    StandsAtSplit(s, at, mark, UnitSpelled(unit));
  }

  lemma ReadIsEscape(s: Bytes, at: nat) returns (c: Char)
    requires at + 1 < |s| && s[at] == BACKSLASH && s[at + 1] == LETTER_U && CharAt(s, at).Ok?
    ensures CharHolds(c) && StandsAt(s, at, CharSpelled(c))
    ensures CharAt(s, at) == Ok(CharMeaning(c), at + |CharSpelled(c)|)
  {
    hide HexQuad, UnitValue, UnitHolds, UnitSpelled, StandsAt, Utf8.Encode;
    var unit := ReadIsMarked(s, at);
    if IsHigh(unit) {
      var low := ReadIsMarked(s, at + 6);
      c := Pair(unit, low);
      StandsAtSplit(s, at, UnitEscape(unit), UnitEscape(low));
      PairIsRead(unit, low, s, at);
    } else {
      c := Escape(unit);
      EscapeIsRead(unit, s, at);
    }
  }

  lemma ReadIsPlain(s: Bytes, at: nat) returns (c: Char)
    requires at < |s| && s[at] != QUOTE && s[at] != BACKSLASH && CharAt(s, at).Ok?
    ensures CharHolds(c) && StandsAt(s, at, CharSpelled(c))
    ensures CharAt(s, at) == Ok(CharMeaning(c), at + |CharSpelled(c)|)
  {
    if s[at] < 0x80 {
      c := Plain(s[at]);
    } else {
      Utf8.MeasuredIsEncoding(s, at);
      var codepoint := Utf8.ScalarAt(s, at);
      FirstByte(s, at, Utf8.Encode(codepoint));
      c := Plain(codepoint);
    }
  }

  lemma ReadIsChar(s: Bytes, at: nat) returns (c: Char)
    requires at < |s| && s[at] != QUOTE && CharAt(s, at).Ok?
    ensures CharHolds(c) && StandsAt(s, at, CharSpelled(c))
    ensures CharAt(s, at) == Ok(CharMeaning(c), at + |CharSpelled(c)|)
  {
    if s[at] != BACKSLASH {
      c := ReadIsPlain(s, at);
    } else if s[at + 1] == LETTER_U {
      c := ReadIsEscape(s, at);
    } else {
      c := Short(s[at + 1]);
      assert s[at..at + 2] == CharSpelled(c);
    }
  }

  lemma {:induction false} ReadAreChars(s: Bytes, at: nat, result: Bytes, o: ParseOptions) returns (chars: seq<Char>)
    requires at <= |s| && StringRest(s, at, result, o).Ok?
    ensures CharsHold(chars) && StandsAt(s, at, CharsSpelled(chars)) && ByteAt(s, at + |CharsSpelled(chars)|, QUOTE)
    ensures StringRest(s, at, result, o) == Ok(result + CharsMeaning(chars), at + |CharsSpelled(chars)| + 1)
    decreases |s| - at
  {
    hide CharSpelled, CharMeaning, CharAt, CharHolds;
    if s[at] == QUOTE {
      chars := [];
      assert result + [] == result;
    } else {
      var c := ReadIsChar(s, at);
      var next := at + |CharSpelled(c)|;
      var rest := ReadAreChars(s, next, result + CharMeaning(c), o);
      chars := [c] + rest;
      assert chars[1..] == rest;
      StandsAtSplit(s, at, CharSpelled(c), CharsSpelled(rest));
      Associate(result, CharMeaning(c), CharsMeaning(rest));
    }
  }

  lemma ReadIsString(s: Bytes, at: nat, o: ParseOptions) returns (chars: seq<Char>)
    requires at <= |s| && ParseString(s, at, o).Ok?
    ensures CharsHold(chars) && StandsAt(s, at, StringSpelled(chars))
    ensures ParseString(s, at, o) == Ok(CharsMeaning(chars), at + |StringSpelled(chars)|)
  {
    hide StandsAt, StringRest, CharsSpelled, CharsMeaning, CharsHold;
    assert StringRest(s, at + 1, [], o).Ok?;
    chars := ReadAreChars(s, at + 1, [], o);
    BodyLies(QUOTE, CharsSpelled(chars), QUOTE, s, at);
    assert [] + CharsMeaning(chars) == CharsMeaning(chars);
  }

  // ----- a spelled value is read

  /** A value ends before a blank, a comma, a closing byte or the end of the text. */
  ghost predicate Ends(s: Bytes, at: nat) {
    at < |s| ==> IsSpace(s[at]) || s[at] == COMMA || s[at] == CLOSE_BRACKET || s[at] == CLOSE_BRACE
  }

  /** After blanks stands a byte that ends a value, so the value ends before the blanks. */
  lemma EndsBeforeBlanks(s: Bytes, at: nat, blanks: Bytes)
    requires StandsAt(s, at, blanks) && IsBlank(blanks) && Ends(s, at + |blanks|)
    ensures Ends(s, at)
  {
    if blanks != [] { FirstByte(s, at, blanks); }
  }

  lemma TreeStarts(t: Tree)
    requires TreeHolds(t)
    ensures Spelled(t) != [] && !IsSpace(Spelled(t)[0]) && Spelled(t)[0] != CLOSE_BRACKET
    ensures t.NumberTree? ==> Spelled(t)[0] == MINUS || IsDigit(Spelled(t)[0])
  {
    if t.NumberTree? {
      ValidNumberIsGrammar(t.text);
      assert ScanInteger(t.text, ScanSign(t.text, 0)).End?;
    }
  }

  lemma NumberIsRead(text: Bytes, input: Bytes, at: nat)
    requires IsNumber(text) && StandsAt(input, at, text) && Ends(input, at + |text|)
    ensures ParseNumber(input, at) == Ok(Number(text), at + |text|)
  {
    hide IsNumber, ScanNumber;
    ValidNumberIsGrammar(text);
    NumberIsScanned(input, at, text);
  }

  lemma LiteralIsRead(t: Tree, input: Bytes, at: nat, depth: nat, o: ParseOptions)
    requires (t.NullTree? || t.BoolTree?) && depth <= o.maxDepth && StandsAt(input, at, Spelled(t))
    ensures ParseValue(input, at, depth, o) == Ok(Meaning(t), at + |Spelled(t)|)
  {
    FirstByte(input, at, Spelled(t));
  }

  lemma {:induction false} TreeIsRead(t: Tree, input: Bytes, at: nat, depth: nat, o: ParseOptions)
    requires TreeHolds(t) && Fits(Meaning(t), depth, o)
    requires StandsAt(input, at, Spelled(t)) && Ends(input, at + |Spelled(t)|)
    ensures ParseValue(input, at, depth, o) == Ok(Meaning(t), at + |Spelled(t)|)
    decreases t, 0
  {
    hide ParseArray, ParseObject, ParseString, ParseNumber, ItemsSpelled, EntriesSpelled, IsNumber, CharsHold;
    TreeStarts(t);
    FirstByte(input, at, Spelled(t));
    match t {
      case NumberTree(text) => NumberIsRead(text, input, at);
      case StringTree(chars) => StringIsRead(chars, input, at, o);
      case ArrayTree(_, _) => ArrayIsRead(t, input, at, depth, o);
      case ObjectTree(_, _) => ObjectIsRead(t, input, at, depth, o);
      case _ => LiteralIsRead(t, input, at, depth, o);
    }
  }

  lemma {:induction false} ArrayIsRead(t: Tree, input: Bytes, at: nat, depth: nat, o: ParseOptions)
    requires t.ArrayTree? && TreeHolds(t) && Fits(Meaning(t), depth, o) && StandsAt(input, at, Spelled(t))
    ensures ParseArray(input, at, depth, o) == Ok(Meaning(t), at + |Spelled(t)|)
    decreases t.items, 4
  {
    hide StandsAt, ParseArray;
    if t.items == [] {
      EmptyArrayIsRead(t.blanks, input, at, depth, o);
    } else {
      assert ItemsFit(t.items, depth + 1, o);
      FullArrayIsRead(t.items, input, at, depth, o);
    }
  }

  lemma EmptyArrayIsRead(blanks: Bytes, input: Bytes, at: nat, depth: nat, o: ParseOptions)
    requires IsBlank(blanks) && StandsAt(input, at, [OPEN_BRACKET] + blanks + [CLOSE_BRACKET])
    ensures ParseArray(input, at, depth, o) == Ok(Array([]), at + |blanks| + 2)
  {
    hide StandsAt, SkipSpace;
    BodyLies(OPEN_BRACKET, blanks, CLOSE_BRACKET, input, at);
    BlanksAreSkipped(input, at + 1, blanks);
  }

  lemma {:induction false} FullArrayIsRead(items: seq<Item>, input: Bytes, at: nat, depth: nat, o: ParseOptions)
    requires items != [] && ItemHolds(items[0]) && ItemsFit(items, depth + 1, o) && |items| <= o.maxContainerEntries
    requires StandsAt(input, at, [OPEN_BRACKET] + ItemsSpelled(items) + [CLOSE_BRACKET])
    ensures ParseArray(input, at, depth, o) == Ok(Array(Listed(items, depth + 1, o)), at + |ItemsSpelled(items)| + 2)
    decreases items, 3
  {
    hide *;
    BodyLies(OPEN_BRACKET, ItemsSpelled(items), CLOSE_BRACKET, input, at);
    ItemsStart(items, input, at + 1);
    ItemsAreRead(items, input, at + 1, depth, o, []);
    assert [] + Listed(items, depth + 1, o) == Listed(items, depth + 1, o);
    ArrayStep(input, at, depth, o);
  }

  /** An array whose first byte after the blanks is no closing bracket has items. */
  lemma ArrayStep(input: Bytes, at: nat, depth: nat, o: ParseOptions)
    requires at < |input| && !ByteAt(input, SkipSpace(input, at + 1), CLOSE_BRACKET)
    ensures ParseArray(input, at, depth, o) == ParseItems(input, SkipSpace(input, at + 1), depth, o, [])
  {
    hide SkipSpace, ParseItems;
  }

  /** How an item lies in the text. */
  lemma ItemLies(item: Item, input: Bytes, at: nat)
    ensures |ItemSpelled(item)| == |item.before| + |Spelled(item.tree)| + |item.after|
    ensures var start := at + |item.before|;
            StandsAt(input, at, ItemSpelled(item))
            <==> StandsAt(input, at, item.before) && StandsAt(input, start, Spelled(item.tree))
                 && StandsAt(input, start + |Spelled(item.tree)|, item.after)
  {
    hide Spelled, StandsAt;
    StandsAtSplit(input, at, item.before + Spelled(item.tree), item.after);
    StandsAtSplit(input, at, item.before, Spelled(item.tree));
  }

  /** How two texts with a comma between them lie. */
  lemma CommaLies(head: Bytes, rest: Bytes, input: Bytes, at: nat)
    ensures var after := at + |head|;
            StandsAt(input, at, head + [COMMA] + rest)
            <==> StandsAt(input, at, head) && ByteAt(input, after, COMMA) && StandsAt(input, after + 1, rest)
  {
    hide StandsAt, ByteAt;
    StandsAtSplit(input, at, head + [COMMA], rest);
    StandsAtSplit(input, at, head, [COMMA]);
    OneByte(input, at + |head|, COMMA);
  }

  /** How the first of some items lies in the text. */
  lemma FirstItemLies(items: seq<Item>, input: Bytes, at: nat)
    requires items != []
    ensures |items| == 1 ==> ItemsSpelled(items) == ItemSpelled(items[0])
    ensures |items| > 1 ==> |ItemsSpelled(items)| == |ItemSpelled(items[0])| + 1 + |ItemsSpelled(items[1..])|
    ensures var after := at + |ItemSpelled(items[0])|;
            |items| > 1 ==>
              (StandsAt(input, at, ItemsSpelled(items))
               <==> StandsAt(input, at, ItemSpelled(items[0])) && ByteAt(input, after, COMMA)
                    && StandsAt(input, after + 1, ItemsSpelled(items[1..])))
  {
    hide ItemSpelled, StandsAt, ByteAt;
    if |items| > 1 { CommaLies(ItemSpelled(items[0]), ItemsSpelled(items[1..]), input, at); }
  }

  /** The first item starts after its blanks. */
  lemma ItemsStart(items: seq<Item>, input: Bytes, at: nat)
    requires items != [] && ItemHolds(items[0]) && StandsAt(input, at, ItemsSpelled(items))
    ensures SkipSpace(input, at) == at + |items[0].before|
    ensures !ByteAt(input, at + |items[0].before|, CLOSE_BRACKET)
  {
    hide ItemsSpelled, ItemSpelled, Spelled;
    FirstItemLies(items, input, at);
    ItemLies(items[0], input, at);
    TreeStarts(items[0].tree);
    FirstByte(input, at + |items[0].before|, Spelled(items[0].tree));
    BlanksAreSkipped(input, at, items[0].before);
  }

  /** The first item is read, and the byte after it tells whether there is another one. */
  lemma {:induction false} FirstItemIsRead(items: seq<Item>, input: Bytes, at: nat, depth: nat, o: ParseOptions)
    returns (start: nat, end: nat, next: nat)
    requires items != [] && ItemHolds(items[0]) && Fits(Meaning(items[0].tree), depth + 1, o)
    requires StandsAt(input, at, ItemsSpelled(items))
    requires |items| == 1 ==> ByteAt(input, at + |ItemsSpelled(items)|, CLOSE_BRACKET)
    ensures start == SkipSpace(input, at) && start <= |input| && end <= |input| && next <= |input|
    ensures ParseValue(input, start, depth + 1, o) == Ok(Meaning(items[0].tree), end)
    ensures if |items| == 1 then
              && next == at + |ItemsSpelled(items)| + 1
              && Separator(input, end, CLOSE_BRACKET, ExpectedCommaOrBracket) == Ok(true, next)
            else
              && StandsAt(input, next, ItemsSpelled(items[1..]))
              && next + |ItemsSpelled(items[1..])| == at + |ItemsSpelled(items)|
              && Separator(input, end, CLOSE_BRACKET, ExpectedCommaOrBracket) == Ok(false, SkipSpace(input, next))
    decreases items, 0
  {
    hide ItemsSpelled, ItemSpelled, Spelled, Meaning, ParseValue, Fits, SkipSpace, TreeHolds;
    var item := items[0];
    start := at + |item.before|;
    end := start + |Spelled(item.tree)|;
    next := end + |item.after| + 1;
    FirstItemLies(items, input, at);
    ItemLies(item, input, at);
    ItemsStart(items, input, at);
    EndsBeforeBlanks(input, end, item.after);
    BlanksAreSkipped(input, end, item.after);
    TreeIsRead(item.tree, input, start, depth + 1, o);
  }

  /** What the items need so that they are read. */
  ghost predicate ItemsFit(items: seq<Item>, depth: nat, o: ParseOptions) {
    && (forall i | 0 <= i < |items| :: ItemHolds(items[i]))
    && forall i | 0 <= i < |items| :: Fits(ItemsMeaning(items)[i], depth, o)
  }

  /** The values of the items. */
  ghost function Listed(items: seq<Item>, depth: nat, o: ParseOptions): seq<Value>
    requires ItemsFit(items, depth, o)
  {
    ItemsMeaning(items)
  }

  lemma FirstOfItems(items: seq<Item>, values: seq<Value>, depth: nat, o: ParseOptions)
    requires items != [] && ItemsFit(items, depth, o)
    ensures ItemHolds(items[0]) && Fits(Meaning(items[0].tree), depth, o) && ItemsFit(items[1..], depth, o)
    ensures values + Listed(items, depth, o)
            == if |items| == 1 then values + [Meaning(items[0].tree)]
               else (values + [Meaning(items[0].tree)]) + Listed(items[1..], depth, o)
  {
    assert ItemHolds(items[0]);
    hide ItemHolds, Meaning, Fits, TreeHolds;
    var rest := items[1..];
    assert ItemsMeaning(items)[0] == Meaning(items[0].tree);
    forall i | 0 <= i < |rest| ensures Fits(ItemsMeaning(rest)[i], depth, o) {
      assert ItemsMeaning(rest)[i] == ItemsMeaning(items)[i + 1];
    }
  }

  lemma {:induction false} ItemsAreRead(items: seq<Item>, input: Bytes, at: nat, depth: nat, o: ParseOptions, values: seq<Value>)
    requires items != [] && ItemsFit(items, depth + 1, o) && |values| + |items| <= o.maxContainerEntries
    requires StandsAt(input, at, ItemsSpelled(items)) && ByteAt(input, at + |ItemsSpelled(items)|, CLOSE_BRACKET)
    ensures ParseItems(input, SkipSpace(input, at), depth, o, values)
            == Ok(Array(values + Listed(items, depth + 1, o)), at + |ItemsSpelled(items)| + 1)
    decreases items, 2
  {
    hide ItemsSpelled, ParseItems, SkipSpace, StandsAt, Fits, ItemsFit, Listed, Meaning, TreeHolds, IsBlank;
    FirstOfItems(items, values, depth + 1, o);
    var v := Meaning(items[0].tree);
    var next := ItemsTurn(items, input, at, depth, o, values);
    if |items| > 1 { ItemsAreRead(items[1..], input, next, depth, o, values + [v]); }
  }

  /** The first item is read and put after the values. */
  lemma {:induction false} ItemsTurn(items: seq<Item>, input: Bytes, at: nat, depth: nat, o: ParseOptions, values: seq<Value>)
    returns (next: nat)
    requires items != [] && ItemHolds(items[0]) && Fits(Meaning(items[0].tree), depth + 1, o)
    requires |values| != o.maxContainerEntries && StandsAt(input, at, ItemsSpelled(items))
    requires |items| == 1 ==> ByteAt(input, at + |ItemsSpelled(items)|, CLOSE_BRACKET)
    ensures next <= |input|
    ensures if |items| == 1 then
              ParseItems(input, SkipSpace(input, at), depth, o, values)
              == Ok(Array(values + [Meaning(items[0].tree)]), at + |ItemsSpelled(items)| + 1)
            else
              && StandsAt(input, next, ItemsSpelled(items[1..]))
              && next + |ItemsSpelled(items[1..])| == at + |ItemsSpelled(items)|
              && ParseItems(input, SkipSpace(input, at), depth, o, values)
                 == ParseItems(input, SkipSpace(input, next), depth, o, values + [Meaning(items[0].tree)])
    decreases items, 1
  {
    var v := Meaning(items[0].tree);
    hide *;
    var start, end, after := FirstItemIsRead(items, input, at, depth, o);
    next := after;
    ItemStep(input, start, depth, o, values, v, end, |items| == 1, if |items| == 1 then next else SkipSpace(input, next));
  }

  lemma ItemStep(input: Bytes, at: nat, depth: nat, o: ParseOptions, values: seq<Value>, v: Value, after: nat,
                 closed: bool, next: nat)
    requires at <= |input| && after <= |input| && next <= |input| && |values| != o.maxContainerEntries
    requires ParseValue(input, at, depth + 1, o) == Ok(v, after)
    requires Separator(input, after, CLOSE_BRACKET, ExpectedCommaOrBracket) == Ok(closed, next)
    ensures ParseItems(input, at, depth, o, values)
            == if closed then Ok(Array(values + [v]), next) else ParseItems(input, next, depth, o, values + [v])
  {
  }

  // ----- objects

  /** What a list of members asks of the map that they are put into: new keys, no key twice. */
  ghost predicate AllNew(members: seq<Member>, more: seq<Member>) {
    && (forall i | 0 <= i < |more| :: !HasKey(members, more[i].key))
    && (forall i, j | 0 <= i < j < |more| :: more[i].key != more[j].key)
  }

  lemma {:induction false} EmplacedHas(members: seq<Member>, m: Member)
    ensures forall k :: k in Emplaced(members, m) <==> k in members || k == m
    decreases |members|
  {
    if members != [] && !Less(m.key, members[0].key) {
      EmplacedHas(members[1..], m);
      assert members == [members[0]] + members[1..];
    }
  }

  lemma KeyIsThere(members: seq<Member>, key: Bytes)
    ensures HasKey(members, key) <==> exists m | m in members :: m.key == key
  {
    if m :| m in members && m.key == key {
      var i :| 0 <= i < |members| && members[i] == m;
    }
  }

  /** The map grows by one key. */
  lemma EmplacedKeys(members: seq<Member>, m: Member, key: Bytes)
    ensures HasKey(Emplaced(members, m), key) <==> HasKey(members, key) || m.key == key
  {
    EmplacedHas(members, m);
    KeyIsThere(members, key);
    KeyIsThere(Emplaced(members, m), key);
    if HasKey(members, key) {
      var k :| k in members && k.key == key;
      assert k in Emplaced(members, m);
    }
    if m.key == key { assert m in Emplaced(members, m); }
  }

  /** One member after the other. */
  lemma AllNewFirst(members: seq<Member>, more: seq<Member>)
    requires more != []
    ensures AllNew(members, more) <==> !HasKey(members, more[0].key) && AllNew(Emplaced(members, more[0]), more[1..])
  {
    hide HasKey, Emplaced;
    var rest := more[1..];
    forall i | 0 <= i < |rest|
      ensures rest[i] == more[i + 1]
      ensures HasKey(Emplaced(members, more[0]), rest[i].key) <==> HasKey(members, rest[i].key) || more[0].key == rest[i].key
    {
      EmplacedKeys(members, more[0], rest[i].key);
    }
    if !HasKey(members, more[0].key) && AllNew(Emplaced(members, more[0]), rest) {
      forall i | 0 <= i < |more| ensures !HasKey(members, more[i].key) {
        if i > 0 { assert rest[i - 1] == more[i]; }
      }
      forall i, j | 0 <= i < j < |more| ensures more[i].key != more[j].key {
        assert rest[j - 1] == more[j];
        if i > 0 { assert rest[i - 1] == more[i]; }
      }
    }
  }

  lemma {:induction false} GatheredHas(members: seq<Member>, more: seq<Member>)
    ensures forall m :: m in Gathered(members, more) <==> m in members || m in more
    ensures |Gathered(members, more)| == |members| + |more|
    decreases |more|
  {
    if more != [] {
      EmplacedHas(members, more[0]);
      GatheredHas(Emplaced(members, more[0]), more[1..]);
      assert more == [more[0]] + more[1..];
    }
  }

  lemma {:induction false} EntriesMeaningAt(entries: seq<Entry>, i: nat)
    requires i < |entries| && forall k | 0 <= k < |entries| :: EntryHolds(entries[k])
    ensures EntriesMeaning(entries)[i] == EntryMeaning(entries[i])
    decreases |entries|
  {
    hide EntryHolds, EntryMeaning;
    if i > 0 { EntriesMeaningAt(entries[1..], i - 1); }
  }

  /** The entries of a tree differ in their keys exactly when their members do. */
  lemma KeysAreNew(entries: seq<Entry>)
    requires forall i | 0 <= i < |entries| :: EntryHolds(entries[i])
    requires forall i | 0 <= i < |entries| :: CharsHold(entries[i].key)
    ensures KeysDiffer(entries) <==> AllNew([], EntriesMeaning(entries))
  {
    var members := EntriesMeaning(entries);
    forall i | 0 <= i < |entries| ensures members[i].key == CharsMeaning(entries[i].key) { EntriesMeaningAt(entries, i); }
  }

  lemma EntryStarts(e: Entry)
    ensures EntrySpelled(e) != []
    ensures StringSpelled(e.key) != [] && StringSpelled(e.key)[0] == QUOTE
    ensures MemberSpelled(e) != [] && MemberSpelled(e)[0] == QUOTE
  {
    hide CharsSpelled, Spelled;
  }

  /** How an entry lies in the text, its member between two runs of blanks. */
  lemma EntryLies(e: Entry, input: Bytes, at: nat)
    ensures |EntrySpelled(e)| == |e.before| + |MemberSpelled(e)| + |e.after|
    ensures var start := at + |e.before|;
            StandsAt(input, at, EntrySpelled(e))
            <==> StandsAt(input, at, e.before) && StandsAt(input, start, MemberSpelled(e))
                 && StandsAt(input, start + |MemberSpelled(e)|, e.after)
  {
    hide MemberSpelled, StandsAt;
    StandsAtSplit(input, at, e.before + MemberSpelled(e), e.after);
    StandsAtSplit(input, at, e.before, MemberSpelled(e));
  }

  /** How the first of some entries lies in the text. */
  lemma FirstEntryLies(entries: seq<Entry>, input: Bytes, at: nat)
    requires entries != []
    ensures |entries| == 1 ==> EntriesSpelled(entries) == EntrySpelled(entries[0])
    ensures |entries| > 1 ==> |EntriesSpelled(entries)| == |EntrySpelled(entries[0])| + 1 + |EntriesSpelled(entries[1..])|
    ensures var after := at + |EntrySpelled(entries[0])|;
            |entries| > 1 ==>
              (StandsAt(input, at, EntriesSpelled(entries))
               <==> StandsAt(input, at, EntrySpelled(entries[0])) && ByteAt(input, after, COMMA)
                    && StandsAt(input, after + 1, EntriesSpelled(entries[1..])))
  {
    hide EntrySpelled, StandsAt, ByteAt;
    if |entries| > 1 { CommaLies(EntrySpelled(entries[0]), EntriesSpelled(entries[1..]), input, at); }
  }

  lemma EntriesStart(entries: seq<Entry>, input: Bytes, at: nat)
    requires entries != [] && EntryHolds(entries[0]) && StandsAt(input, at, EntriesSpelled(entries))
    ensures SkipSpace(input, at) == at + |entries[0].before|
    ensures ByteAt(input, at + |entries[0].before|, QUOTE)
  {
    hide EntriesSpelled, EntrySpelled, MemberSpelled;
    var e := entries[0];
    FirstEntryLies(entries, input, at);
    EntryLies(e, input, at);
    EntryStarts(e);
    FirstByte(input, at + |e.before|, MemberSpelled(e));
    BlanksAreSkipped(input, at, e.before);
  }

  /** How a key, its colon and its value lie in the text. */
  lemma MemberLies(e: Entry, input: Bytes, at: nat)
    ensures |MemberSpelled(e)| == |StringSpelled(e.key)| + |e.beforeColon| + 1 + |e.afterColon| + |Spelled(e.tree)|
    ensures var first := at + |StringSpelled(e.key)|;
            var colon := first + |e.beforeColon|;
            StandsAt(input, at, MemberSpelled(e))
            <==> StandsAt(input, at, StringSpelled(e.key)) && StandsAt(input, first, e.beforeColon)
                 && ByteAt(input, colon, COLON) && StandsAt(input, colon + 1, e.afterColon)
                 && StandsAt(input, colon + 1 + |e.afterColon|, Spelled(e.tree))
  {
    hide Spelled, StringSpelled, StandsAt, ByteAt;
    var key, tree := StringSpelled(e.key), Spelled(e.tree);
    StandsAtSplit(input, at, key + e.beforeColon + [COLON] + e.afterColon, tree);
    StandsAtSplit(input, at, key + e.beforeColon + [COLON], e.afterColon);
    StandsAtSplit(input, at, key + e.beforeColon, [COLON]);
    StandsAtSplit(input, at, key, e.beforeColon);
    OneByte(input, at + |key| + |e.beforeColon|, COLON);
  }

  lemma MemberStep(input: Bytes, at: nat, depth: nat, o: ParseOptions, key: Bytes, first: nat, colon: nat, value: nat,
                   v: Value, end: nat)
    requires at <= |input| && first <= |input| && ByteAt(input, at, QUOTE) && ParseString(input, at, o) == Ok(key, first)
    requires SkipSpace(input, first) == colon && ByteAt(input, colon, COLON)
    requires value <= |input| && SkipSpace(input, colon + 1) == value
    requires ParseValue(input, value, depth + 1, o) == Ok(v, end)
    ensures ParseMember(input, at, depth, o) == Ok(Member(key, v), end)
  {
    hide ParseString, ParseValue, SkipSpace;
  }

  /** A key, its colon and its value are read as a member. */
  lemma {:induction false} EntryIsRead(e: Entry, input: Bytes, at: nat, depth: nat, o: ParseOptions)
    requires EntryHolds(e) && |CharsMeaning(e.key)| <= o.maxStringBytes && Fits(Meaning(e.tree), depth + 1, o)
    requires StandsAt(input, at, MemberSpelled(e)) && Ends(input, at + |MemberSpelled(e)|)
    ensures ParseMember(input, at, depth, o) == Ok(EntryMeaning(e), at + |MemberSpelled(e)|)
    decreases e, 0
  {
    hide Spelled, StringSpelled, MemberSpelled, ParseString, ParseValue, ParseMember, Meaning, Fits, TreeHolds, SkipSpace,
      CharsHold, CharsMeaning, IsBlank;
    var first := at + |StringSpelled(e.key)|;
    var colon := first + |e.beforeColon|;
    var value := colon + 1 + |e.afterColon|;
    MemberLies(e, input, at);
    StringIsRead(e.key, input, at, o);
    BlanksAreSkipped(input, first, e.beforeColon);
    TreeStarts(e.tree);
    FirstByte(input, value, Spelled(e.tree));
    BlanksAreSkipped(input, colon + 1, e.afterColon);
    TreeIsRead(e.tree, input, value, depth + 1, o);
    MemberStep(input, at, depth, o, CharsMeaning(e.key), first, colon, value, Meaning(e.tree), at + |MemberSpelled(e)|);
  }

  lemma {:induction false} FirstEntryIsRead(entries: seq<Entry>, input: Bytes, at: nat, depth: nat, o: ParseOptions)
    returns (start: nat, end: nat, next: nat)
    requires entries != [] && EntryHolds(entries[0]) && |EntryMeaning(entries[0]).key| <= o.maxStringBytes
    requires Fits(EntryMeaning(entries[0]).value, depth + 1, o)
    requires StandsAt(input, at, EntriesSpelled(entries))
    requires |entries| == 1 ==> ByteAt(input, at + |EntriesSpelled(entries)|, CLOSE_BRACE)
    ensures start == SkipSpace(input, at) && start <= |input| && end <= |input| && next <= |input|
    ensures ParseMember(input, start, depth, o) == Ok(EntryMeaning(entries[0]), end)
    ensures if |entries| == 1 then
              && next == at + |EntriesSpelled(entries)| + 1
              && Separator(input, end, CLOSE_BRACE, ExpectedCommaOrBrace) == Ok(true, next)
            else
              && StandsAt(input, next, EntriesSpelled(entries[1..]))
              && next + |EntriesSpelled(entries[1..])| == at + |EntriesSpelled(entries)|
              && Separator(input, end, CLOSE_BRACE, ExpectedCommaOrBrace) == Ok(false, SkipSpace(input, next))
    decreases entries, 1
  {
    hide EntriesSpelled, EntrySpelled, MemberSpelled, Meaning, ParseMember, Fits, SkipSpace, TreeHolds, CharsHold,
      CharsMeaning, IsBlank, StandsAt;
    var e := entries[0];
    FirstEntryLies(entries, input, at);
    EntryLies(e, input, at);
    start := at + |e.before|;
    end := start + |MemberSpelled(e)|;
    next := end + |e.after| + 1;
    EntriesStart(entries, input, at);
    EndsBeforeBlanks(input, end, e.after);
    BlanksAreSkipped(input, end, e.after);
    EntryIsRead(e, input, start, depth, o);
  }

  lemma EntryStep(input: Bytes, at: nat, depth: nat, o: ParseOptions, members: seq<Member>, m: Member, after: nat,
                  closed: bool, next: nat)
    requires at <= |input| && after <= |input| && next <= |input| && |members| != o.maxContainerEntries
    requires ParseMember(input, at, depth, o) == Ok(m, after) && !HasKey(members, m.key)
    requires Separator(input, after, CLOSE_BRACE, ExpectedCommaOrBrace) == Ok(closed, next)
    ensures ParseMembers(input, at, depth, o, members)
            == if closed then Ok(Object(Emplaced(members, m)), next)
               else ParseMembers(input, next, depth, o, Emplaced(members, m))
  {
    hide ParseMember, Separator, HasKey, Emplaced;
  }

  ghost predicate MemberFits(m: Member, depth: nat, o: ParseOptions) {
    |m.key| <= o.maxStringBytes && Fits(m.value, depth, o)
  }

  /** What the entries need so that they are read as members of a map that holds `members` already. */
  ghost predicate Welcome(entries: seq<Entry>, members: seq<Member>, depth: nat, o: ParseOptions) {
    && (forall i | 0 <= i < |entries| :: EntryHolds(entries[i]))
    && |members| + |entries| <= o.maxContainerEntries && AllNew(members, EntriesMeaning(entries))
    && forall m | m in EntriesMeaning(entries) :: MemberFits(m, depth, o)
  }

  /** What the entries make of the map. */
  ghost function Filled(entries: seq<Entry>, members: seq<Member>, depth: nat, o: ParseOptions): seq<Member>
    requires Welcome(entries, members, depth, o)
  {
    Gathered(members, EntriesMeaning(entries))
  }

  lemma {:induction false} EntriesAreRead(entries: seq<Entry>, input: Bytes, at: nat, depth: nat, o: ParseOptions,
                                          members: seq<Member>)
    requires entries != [] && Welcome(entries, members, depth + 1, o)
    requires StandsAt(input, at, EntriesSpelled(entries)) && ByteAt(input, at + |EntriesSpelled(entries)|, CLOSE_BRACE)
    ensures ParseMembers(input, SkipSpace(input, at), depth, o, members)
            == Ok(Object(Filled(entries, members, depth + 1, o)), at + |EntriesSpelled(entries)| + 1)
    decreases entries, 2
  {
    hide EntriesSpelled, EntryMeaning, ParseMember, ParseMembers, Fits, SkipSpace, EntryHolds, Separator, HasKey, Emplaced,
      Welcome, Filled, StandsAt;
    FirstMember(entries, members, depth + 1, o);
    var m, rest := EntryMeaning(entries[0]), entries[1..];
    var start, end, next := FirstEntryIsRead(entries, input, at, depth, o);
    if rest == [] {
      EntryStep(input, start, depth, o, members, m, end, true, next);
    } else {
      EntryStep(input, start, depth, o, members, m, end, false, SkipSpace(input, next));
      EntriesAreRead(rest, input, next, depth, o, Emplaced(members, m));
    }
  }

  /** The map takes the member of the first entry first. */
  lemma FirstOfMeaning(entries: seq<Entry>, members: seq<Member>)
    requires entries != [] && forall i | 0 <= i < |entries| :: EntryHolds(entries[i])
    ensures var m, more := EntryMeaning(entries[0]), EntriesMeaning(entries[1..]);
            && EntriesMeaning(entries) == [m] + more
            && (AllNew(members, [m] + more) <==> !HasKey(members, m.key) && AllNew(Emplaced(members, m), more))
            && Gathered(members, [m] + more) == Gathered(Emplaced(members, m), more)
            && (|entries| == 1 ==> Gathered(Emplaced(members, m), more) == Emplaced(members, m))
  {
    hide EntryHolds, EntryMeaning, HasKey, AllNew, Emplaced;
    var m, more := EntryMeaning(entries[0]), EntriesMeaning(entries[1..]);
    assert ([m] + more)[1..] == more;
    AllNewFirst(members, [m] + more);
  }

  /** Taking the first entry off: what is asked of the entries is asked of it and of the rest. */
  lemma FirstMember(entries: seq<Entry>, members: seq<Member>, depth: nat, o: ParseOptions)
    requires entries != [] && Welcome(entries, members, depth, o)
    ensures EntryHolds(entries[0]) && |members| < o.maxContainerEntries
    ensures var m := EntryMeaning(entries[0]);
            && !HasKey(members, m.key) && |m.key| <= o.maxStringBytes && Fits(m.value, depth, o)
            && Welcome(entries[1..], Emplaced(members, m), depth, o)
            && Filled(entries, members, depth, o)
               == if |entries| == 1 then Emplaced(members, m) else Filled(entries[1..], Emplaced(members, m), depth, o)
  {
    FirstOfMeaning(entries, members);
    var m, more := EntryMeaning(entries[0]), EntriesMeaning(entries[1..]);
    hide EntryHolds, EntryMeaning, EntriesMeaning, HasKey, AllNew, Fits, Emplaced, Gathered;
    assert MemberFits(m, depth, o) by { assert m in [m] + more; }
    assert forall k | k in more :: k in [m] + more;
  }

  lemma {:induction false} ObjectIsRead(t: Tree, input: Bytes, at: nat, depth: nat, o: ParseOptions)
    requires t.ObjectTree? && TreeHolds(t) && Fits(Meaning(t), depth, o) && StandsAt(input, at, Spelled(t))
    ensures ParseObject(input, at, depth, o) == Ok(Meaning(t), at + |Spelled(t)|)
    decreases t.entries, 4
  {
    hide StandsAt, ParseObject;
    if t.entries == [] {
      EmptyObjectIsRead(t.blanks, input, at, depth, o);
    } else {
      ObjectFits(t, depth, o);
      FullObjectIsRead(t.entries, input, at, depth, o);
    }
  }

  lemma EmptyObjectIsRead(blanks: Bytes, input: Bytes, at: nat, depth: nat, o: ParseOptions)
    requires IsBlank(blanks) && StandsAt(input, at, [OPEN_BRACE] + blanks + [CLOSE_BRACE])
    ensures ParseObject(input, at, depth, o) == Ok(Object([]), at + |blanks| + 2)
  {
    hide StandsAt, SkipSpace;
    BodyLies(OPEN_BRACE, blanks, CLOSE_BRACE, input, at);
    BlanksAreSkipped(input, at + 1, blanks);
  }

  lemma {:induction false} FullObjectIsRead(entries: seq<Entry>, input: Bytes, at: nat, depth: nat, o: ParseOptions)
    requires entries != [] && EntryHolds(entries[0]) && Welcome(entries, [], depth + 1, o)
    requires StandsAt(input, at, [OPEN_BRACE] + EntriesSpelled(entries) + [CLOSE_BRACE])
    ensures ParseObject(input, at, depth, o)
            == Ok(Object(Filled(entries, [], depth + 1, o)), at + |EntriesSpelled(entries)| + 2)
    decreases entries, 3
  {
    hide *;
    BodyLies(OPEN_BRACE, EntriesSpelled(entries), CLOSE_BRACE, input, at);
    EntriesStart(entries, input, at + 1);
    EntriesAreRead(entries, input, at + 1, depth, o, []);
    ObjectStep(input, at, depth, o);
  }

  /** An object whose first byte after the blanks is no closing brace has members. */
  lemma ObjectStep(input: Bytes, at: nat, depth: nat, o: ParseOptions)
    requires at < |input| && ByteAt(input, SkipSpace(input, at + 1), QUOTE)
    ensures ParseObject(input, at, depth, o) == ParseMembers(input, SkipSpace(input, at + 1), depth, o, [])
  {
    hide SkipSpace, ParseMembers;
  }

  lemma ObjectFits(t: Tree, depth: nat, o: ParseOptions)
    requires t.ObjectTree? && TreeHolds(t) && Fits(Meaning(t), depth, o)
    ensures Welcome(t.entries, [], depth + 1, o) && Meaning(t) == Object(Filled(t.entries, [], depth + 1, o))
    ensures t.entries != [] ==> EntryHolds(t.entries[0])
  {
    assert forall i | 0 <= i < |t.entries| :: EntryHolds(t.entries[i]) && CharsHold(t.entries[i].key);
    hide EntryHolds, EntriesMeaning, CharsHold, CharsMeaning;
    var more := EntriesMeaning(t.entries);
    var all := Gathered([], more);
    KeysAreNew(t.entries);
    GatheredHas([], more);
    forall m | m in more ensures MemberFits(m, depth + 1, o) {
      assert m in all;
      var i :| 0 <= i < |all| && all[i] == m;
      assert |all[i].key| <= o.maxStringBytes && Fits(all[i].value, depth + 1, o);
    }
  }

  // ----- a value that is read is spelled

  lemma NumberIsDerived(s: Bytes, at: nat) returns (t: Tree)
    requires at <= |s| && ParseNumber(s, at).Ok?
    ensures t.NumberTree? && TreeHolds(t) && StandsAt(s, at, Spelled(t))
    ensures ParseNumber(s, at) == Ok(Meaning(t), at + |Spelled(t)|)
  {
    hide IsNumber, ScanNumber, ValidNumber;
    t := NumberTree(s[at..ScanNumber(s, at).at]);
    ValidNumberIsGrammar(t.text);
  }

  lemma LiteralIsDerived(s: Bytes, at: nat, depth: nat, o: ParseOptions) returns (t: Tree)
    requires at < |s| && s[at] in {NULL_WORD[0], TRUE_WORD[0], FALSE_WORD[0]} && ParseValue(s, at, depth, o).Ok?
    ensures TreeHolds(t) && StandsAt(s, at, Spelled(t))
    ensures ParseValue(s, at, depth, o) == Ok(Meaning(t), at + |Spelled(t)|)
  {
    t := if s[at] == NULL_WORD[0] then NullTree else BoolTree(s[at] == TRUE_WORD[0]);
  }

  /** Every value that is read has a tree. */
  lemma {:induction false} TreeIsDerived(s: Bytes, at: nat, depth: nat, o: ParseOptions) returns (t: Tree)
    requires at <= |s| && ParseValue(s, at, depth, o).Ok?
    ensures TreeHolds(t) && StandsAt(s, at, Spelled(t))
    ensures ParseValue(s, at, depth, o) == Ok(Meaning(t), at + |Spelled(t)|)
    decreases |s| - at, 2
  {
    hide ParseArray, ParseObject, ParseString, ParseNumber, ItemsSpelled, EntriesSpelled, IsNumber, CharsHold, StringSpelled,
      StandsAt, ItemHolds, EntryHolds;
    if s[at] in {NULL_WORD[0], TRUE_WORD[0], FALSE_WORD[0]} {
      t := LiteralIsDerived(s, at, depth, o);
    } else if s[at] == QUOTE {
      var chars := ReadIsString(s, at, o);
      t := StringTree(chars);
    } else if s[at] == OPEN_BRACKET {
      t := ArrayIsDerived(s, at, depth, o);
    } else if s[at] == OPEN_BRACE {
      t := ObjectIsDerived(s, at, depth, o);
    } else {
      t := NumberIsDerived(s, at);
    }
  }

  lemma {:induction false} ArrayIsDerived(s: Bytes, at: nat, depth: nat, o: ParseOptions) returns (t: Tree)
    requires ByteAt(s, at, OPEN_BRACKET) && ParseArray(s, at, depth, o).Ok?
    ensures TreeHolds(t) && StandsAt(s, at, Spelled(t))
    ensures ParseArray(s, at, depth, o) == Ok(Meaning(t), at + |Spelled(t)|)
    decreases |s| - at, 1
  {
    hide ParseItems, ItemHolds, ItemsSpelled, ItemsMeaning, StandsAt, SkipSpace, IsBlank, TreeHolds, Meaning, Spelled;
    NoBlanks();
    var first := SkipSpace(s, at + 1);
    if ByteAt(s, first, CLOSE_BRACKET) {
      SkippedAreBlanks(s, at + 1);
      t := ArrayTree(s[at + 1..first], []);
      ArrayLies(t, s, at);
    } else {
      var items := ItemsAreDerived(s, at + 1, depth, o, []);
      t := ArrayTree([], items);
      ArrayLies(t, s, at);
      assert [] + ItemsMeaning(items) == ItemsMeaning(items);
    }
  }

  /** An array's tree from its parts: its meaning, and where its text stands. */
  lemma ArrayLies(t: Tree, s: Bytes, at: nat)
    requires t.ArrayTree? && IsBlank(t.blanks) && forall i | 0 <= i < |t.items| :: ItemHolds(t.items[i])
    ensures TreeHolds(t) && Meaning(t) == Array(ItemsMeaning(t.items))
    ensures var body := if t.items == [] then t.blanks else ItemsSpelled(t.items);
            |Spelled(t)| == |body| + 2
            && (StandsAt(s, at, Spelled(t))
                <==> ByteAt(s, at, OPEN_BRACKET) && StandsAt(s, at + 1, body) && ByteAt(s, at + 1 + |body|, CLOSE_BRACKET))
  {
    hide ItemHolds, ItemsSpelled, ItemsMeaning, StandsAt, IsBlank;
    BodyLies(OPEN_BRACKET, if t.items == [] then t.blanks else ItemsSpelled(t.items), CLOSE_BRACKET, s, at);
  }

  /** The item that is read where a text of items starts, and the offset of the byte after it. */
  lemma {:induction false} ItemIsDerived(s: Bytes, from: nat, depth: nat, o: ParseOptions) returns (item: Item, end: nat)
    requires from <= |s| && ParseValue(s, SkipSpace(s, from), depth, o).Ok?
    ensures ItemHolds(item) && StandsAt(s, from, ItemSpelled(item))
    ensures ParseValue(s, SkipSpace(s, from), depth, o) == Ok(Meaning(item.tree), end)
    ensures end <= |s| && SkipSpace(s, end) == from + |ItemSpelled(item)|
    decreases |s| - SkipSpace(s, from), 3
  {
    hide ParseValue, SkipSpace, Spelled, Meaning, StandsAt, TreeHolds, IsBlank, ItemSpelled;
    var start := SkipSpace(s, from);
    var t := TreeIsDerived(s, start, depth, o);
    end := start + |Spelled(t)|;
    SkippedAreBlanks(s, from);
    SkippedAreBlanks(s, end);
    item := Item(s[from..start], t, s[end..SkipSpace(s, end)]);
    ItemLies(item, s, from);
  }

  lemma {:induction false} ItemsAreDerived(s: Bytes, from: nat, depth: nat, o: ParseOptions, values: seq<Value>)
    returns (items: seq<Item>)
    requires from <= |s| && ParseItems(s, SkipSpace(s, from), depth, o, values).Ok?
    ensures items != [] && forall i | 0 <= i < |items| :: ItemHolds(items[i])
    ensures StandsAt(s, from, ItemsSpelled(items)) && ByteAt(s, from + |ItemsSpelled(items)|, CLOSE_BRACKET)
    ensures ParseItems(s, SkipSpace(s, from), depth, o, values)
            == Ok(Array(values + ItemsMeaning(items)), from + |ItemsSpelled(items)| + 1)
    decreases |s| - SkipSpace(s, from), 4
  {
    hide ParseValue, SkipSpace, ItemSpelled, ItemsSpelled, Meaning, StandsAt, TreeHolds, Spelled, IsBlank;
    var start := SkipSpace(s, from);
    assert ParseValue(s, start, depth + 1, o).Ok?;
    var item, end := ItemIsDerived(s, from, depth + 1, o);
    var v, after := Meaning(item.tree), from + |ItemSpelled(item)|;
    assert Separator(s, end, CLOSE_BRACKET, ExpectedCommaOrBracket).Ok?;
    if ByteAt(s, after, CLOSE_BRACKET) {
      ItemStep(s, start, depth, o, values, v, end, true, after + 1);
      items := [item];
      FirstItemLies(items, s, from);
      assert ItemsMeaning(items) == [v];
    } else {
      ItemStep(s, start, depth, o, values, v, end, false, SkipSpace(s, after + 1));
      var rest := ItemsAreDerived(s, after + 1, depth, o, values + [v]);
      items := [item] + rest;
      assert items[1..] == rest;
      FirstItemLies(items, s, from);
      assert ItemsMeaning(items) == [v] + ItemsMeaning(rest) by { assert items[1..] == rest; }
      Associate(values, [v], ItemsMeaning(rest));
    }
  }

  // ----- an object that is read is spelled

  lemma {:induction false} ObjectIsDerived(s: Bytes, at: nat, depth: nat, o: ParseOptions) returns (t: Tree)
    requires ByteAt(s, at, OPEN_BRACE) && ParseObject(s, at, depth, o).Ok?
    ensures TreeHolds(t) && StandsAt(s, at, Spelled(t))
    ensures ParseObject(s, at, depth, o) == Ok(Meaning(t), at + |Spelled(t)|)
    decreases |s| - at, 1
  {
    hide ParseMembers, EntryHolds, EntriesSpelled, EntriesMeaning, AllNew, StandsAt, SkipSpace, CharsHold, CharsMeaning;
    var first := SkipSpace(s, at + 1);
    if ByteAt(s, first, CLOSE_BRACE) {
      SkippedAreBlanks(s, at + 1);
      t := ObjectTree(s[at + 1..first], []);
      assert EntriesMeaning([]) == [];
      BodyLies(OPEN_BRACE, t.blanks, CLOSE_BRACE, s, at);
    } else {
      var entries := EntriesAreDerived(s, at + 1, depth, o, []);
      t := ObjectTree([], entries);
      KeysOfEntries(entries);
      KeysAreNew(entries);
      BodyLies(OPEN_BRACE, EntriesSpelled(entries), CLOSE_BRACE, s, at);
    }
  }

  lemma KeysOfEntries(entries: seq<Entry>)
    requires forall i | 0 <= i < |entries| :: EntryHolds(entries[i])
    ensures forall i | 0 <= i < |entries| :: CharsHold(entries[i].key)
  {
    hide TreeHolds, CharsHold;
  }

  /** The key, the colon and the value that are read as a member. */
  lemma {:induction false} MemberIsDerived(s: Bytes, at: nat, depth: nat, o: ParseOptions) returns (e: Entry)
    requires at <= |s| && ParseMember(s, at, depth, o).Ok?
    ensures EntryHolds(e) && e.before == [] && e.after == [] && StandsAt(s, at, MemberSpelled(e))
    ensures ParseMember(s, at, depth, o) == Ok(EntryMeaning(e), at + |MemberSpelled(e)|)
    decreases |s| - at, 3
  {
    hide ParseString, ParseValue, SkipSpace, Spelled, StringSpelled, Meaning, StandsAt, TreeHolds, CharsHold, CharsMeaning,
      MemberSpelled;
    var key := ReadIsString(s, at, o);
    var first := at + |StringSpelled(key)|;
    var colon := SkipSpace(s, first);
    var value := SkipSpace(s, colon + 1);
    SkippedAreBlanks(s, first);
    SkippedAreBlanks(s, colon + 1);
    var t := TreeIsDerived(s, value, depth + 1, o);
    e := Entry([], key, s[first..colon], s[colon + 1..value], t, []);
    MemberLies(e, s, at);
  }

  /** The entry that is read where a text of entries starts, and the offset of the byte after its member. */
  lemma {:induction false} EntryIsDerived(s: Bytes, from: nat, depth: nat, o: ParseOptions) returns (e: Entry, end: nat)
    requires from <= |s| && ParseMember(s, SkipSpace(s, from), depth, o).Ok?
    ensures EntryHolds(e) && StandsAt(s, from, EntrySpelled(e))
    ensures ParseMember(s, SkipSpace(s, from), depth, o) == Ok(EntryMeaning(e), end)
    ensures end <= |s| && SkipSpace(s, end) == from + |EntrySpelled(e)|
    decreases |s| - SkipSpace(s, from), 4
  {
    hide ParseMember, SkipSpace, StringSpelled, Spelled, CharsMeaning, CharsHold, StandsAt, TreeHolds, Meaning, IsBlank,
      EntrySpelled;
    var start := SkipSpace(s, from);
    var m := MemberIsDerived(s, start, depth, o);
    end := start + |MemberSpelled(m)|;
    SkippedAreBlanks(s, from);
    SkippedAreBlanks(s, end);
    e := m.(before := s[from..start], after := s[end..SkipSpace(s, end)]);
    assert MemberSpelled(e) == MemberSpelled(m);
    hide MemberSpelled;
    EntryLies(e, s, from);
  }

  lemma {:induction false} EntriesAreDerived(s: Bytes, from: nat, depth: nat, o: ParseOptions, members: seq<Member>)
    returns (entries: seq<Entry>)
    requires from <= |s| && ParseMembers(s, SkipSpace(s, from), depth, o, members).Ok?
    ensures entries != [] && (forall i | 0 <= i < |entries| :: EntryHolds(entries[i]))
    ensures AllNew(members, EntriesMeaning(entries))
    ensures StandsAt(s, from, EntriesSpelled(entries)) && ByteAt(s, from + |EntriesSpelled(entries)|, CLOSE_BRACE)
    ensures ParseMembers(s, SkipSpace(s, from), depth, o, members)
            == Ok(Object(Gathered(members, EntriesMeaning(entries))), from + |EntriesSpelled(entries)| + 1)
    decreases |s| - SkipSpace(s, from), 5
  {
    hide ParseMember, ParseValue, SkipSpace, EntrySpelled, EntryHolds, EntryMeaning, AllNew, HasKey, Emplaced, StandsAt;
    var start := SkipSpace(s, from);
    assert ParseMember(s, start, depth, o).Ok?;
    var e, end := EntryIsDerived(s, from, depth, o);
    var m, after := EntryMeaning(e), from + |EntrySpelled(e)|;
    assert Separator(s, end, CLOSE_BRACE, ExpectedCommaOrBrace).Ok?;
    if ByteAt(s, after, CLOSE_BRACE) {
      EntryStep(s, start, depth, o, members, m, end, true, after + 1);
      entries := [e];
      OneEntry(e, members);
    } else {
      EntryStep(s, start, depth, o, members, m, end, false, SkipSpace(s, after + 1));
      var rest := EntriesAreDerived(s, after + 1, depth, o, Emplaced(members, m));
      entries := [e] + rest;
      assert entries[1..] == rest;
      FirstEntryLies(entries, s, from);
      EntryAhead(e, rest, members);
    }
  }

  lemma OneEntry(e: Entry, members: seq<Member>)
    requires EntryHolds(e) && !HasKey(members, EntryMeaning(e).key)
    ensures EntriesSpelled([e]) == EntrySpelled(e)
    ensures AllNew(members, EntriesMeaning([e]))
    ensures Gathered(members, EntriesMeaning([e])) == Emplaced(members, EntryMeaning(e))
  {
    hide EntryHolds, EntryMeaning, EntrySpelled, HasKey, Emplaced;
    assert EntriesMeaning([e]) == [EntryMeaning(e)];
  }

  /** An entry put before others: the map takes its member first. */
  lemma EntryAhead(e: Entry, rest: seq<Entry>, members: seq<Member>)
    requires EntryHolds(e) && (forall i | 0 <= i < |rest| :: EntryHolds(rest[i]))
    requires !HasKey(members, EntryMeaning(e).key)
    requires AllNew(Emplaced(members, EntryMeaning(e)), EntriesMeaning(rest))
    ensures forall i | 0 <= i < |rest| + 1 :: EntryHolds(([e] + rest)[i])
    ensures AllNew(members, EntriesMeaning([e] + rest))
    ensures Gathered(members, EntriesMeaning([e] + rest))
            == Gathered(Emplaced(members, EntryMeaning(e)), EntriesMeaning(rest))
  {
    hide EntryHolds, EntryMeaning, EntriesMeaning, HasKey, AllNew, Emplaced, Gathered;
    assert ([e] + rest)[1..] == rest;
    FirstOfMeaning([e] + rest, members);
  }

  // ----- whole texts

  /** A text is read as a value exactly when it is a text of the grammar that means the value, and the value keeps to
      the limits. */
  lemma {:induction false} ParsesExactly(s: Bytes, o: ParseOptions, v: Value)
    ensures Parse(s, o) == Ok(v, |s|) <==> IsTextOf(s, v) && Fits(v, 1, o)
  {
    if Parse(s, o) == Ok(v, |s|) { TextIsDerived(s, o); }
    if IsTextOf(s, v) && Fits(v, 1, o) {
      var before, t, after :| Derives(s, before, t, after) && Meaning(t) == v;
      TextIsRead(s, before, t, after, o);
    }
  }

  /** No text of the grammar means two values. */
  lemma GrammarIsUnambiguous(s: Bytes, v: Value, w: Value)
    requires IsTextOf(s, v) && IsTextOf(s, w)
    ensures v == w
  {
    hide Fits, Parse, IsTextOf;
    var one := SomeLimitsFit(v, 1);
    var other := SomeLimitsFit(w, 1);
    var o := Larger(one, other);
    FitsLarger(v, 1, one, o);
    FitsLarger(w, 1, other, o);
    ParsesExactly(s, o, v);
    ParsesExactly(s, o, w);
  }

  lemma TextIsDerived(s: Bytes, o: ParseOptions)
    requires Parse(s, o).Ok?
    ensures IsTextOf(s, Parse(s, o).value) && Fits(Parse(s, o).value, 1, o)
  {
    hide ParseValue, TreeHolds, Meaning, Spelled, SkipSpace, Fits;
    var start := SkipSpace(s, 0);
    var t := TreeIsDerived(s, start, 1, o);
    var end := start + |Spelled(t)|;
    SkippedAreBlanks(s, 0);
    SkippedAreBlanks(s, end);
    assert s == s[..start] + s[start..end] + s[end..];
    assert Derives(s, s[0..start], t, s[end..SkipSpace(s, end)]);
    JsonRoundTrip.ParsedIsSound(s, start, 1, o);
  }

  lemma TextIsRead(s: Bytes, before: Bytes, t: Tree, after: Bytes, o: ParseOptions)
    requires Derives(s, before, t, after) && Fits(Meaning(t), 1, o)
    ensures Parse(s, o) == Ok(Meaning(t), |s|)
  {
    hide ParseValue, TreeHolds, Meaning, Spelled, SkipSpace, Fits, IsBlank;
    var text := Spelled(t);
    var start, end := |before|, |before| + |text|;
    assert s[0..|s|] == s;
    StandsAtSplit(s, 0, before + text, after);
    StandsAtSplit(s, 0, before, text);
    TreeStarts(t);
    FirstByte(s, start, text);
    BlanksAreSkipped(s, 0, before);
    BlanksAreSkipped(s, end, after);
    EndsBeforeBlanks(s, end, after);
    TreeIsRead(t, s, start, 1, o);
  }
}
