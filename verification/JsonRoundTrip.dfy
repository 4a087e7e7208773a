// Writing and parsing undo each other, exactly within the parser's limits.
module JsonRoundTrip {
  import opened Bytes
  import opened JsonNumber
  import opened JsonValue
  import opened JsonWriter
  import opened JsonParser
  import Utf8

  // ----- every parsed value is well formed, writable and within the limits

  lemma CharIsValid(s: Bytes, at: nat)
    requires at < |s| && s[at] != QUOTE && CharAt(s, at).Ok?
    ensures Utf8.Valid(CharAt(s, at).value)
  {
    if s[at] == BACKSLASH {
      var letter := s[at + 1];
      if letter == LETTER_U {
        Utf8.EncodingIsValid(UnicodeEscape(s, at + 2).value);
      } else {
        Utf8.EncodingIsValid(SimpleEscape(letter).value);
      }
    } else if s[at] < 0x80 {
      Utf8.EncodingIsValid(s[at]);
    } else {
      Utf8.PieceIsValid(s, at);
    }
  }

  lemma {:induction false} StringRestIsValid(s: Bytes, at: nat, result: Bytes, o: ParseOptions)
    requires at <= |s| && Utf8.Valid(result) && |result| <= o.maxStringBytes
    requires StringRest(s, at, result, o).Ok?
    ensures Utf8.Valid(StringRest(s, at, result, o).value)
    ensures |StringRest(s, at, result, o).value| <= o.maxStringBytes
    decreases |s| - at
  {
    if s[at] != QUOTE {
      var chunk := CharAt(s, at);
      CharIsValid(s, at);
      Utf8.ValidConcat(result, chunk.value);
      StringRestIsValid(s, chunk.at, result + chunk.value, o);
    }
  }

  ghost predicate Sound(v: Value, depth: nat, o: ParseOptions) {
    WellFormed(v) && Writable(v) && Fits(v, depth, o)
  }

  ghost predicate SoundMember(m: Member, depth: nat, o: ParseOptions) {
    Utf8.Valid(m.key) && |m.key| <= o.maxStringBytes && Sound(m.value, depth, o)
  }

  /** The parser never builds a value the writer refuses or the limits forbid. */
  lemma {:induction false} ParsedIsSound(s: Bytes, at: nat, depth: nat, o: ParseOptions)
    requires at <= |s| && ParseValue(s, at, depth, o).Ok?
    ensures Sound(ParseValue(s, at, depth, o).value, depth, o)
    decreases |s| - at, 2
  {
    if s[at] == QUOTE {
      StringRestIsValid(s, at + 1, [], o);
    } else if s[at] == OPEN_BRACKET {
      var first := SkipSpace(s, at + 1);
      if !ByteAt(s, first, CLOSE_BRACKET) { ItemsAreSound(s, first, depth, o, []); }
    } else if s[at] == OPEN_BRACE {
      var first := SkipSpace(s, at + 1);
      if !ByteAt(s, first, CLOSE_BRACE) { MembersAreSound(s, first, depth, o, []); }
    }
  }

  lemma {:induction false} ItemsAreSound(s: Bytes, at: nat, depth: nat, o: ParseOptions, items: seq<Value>)
    requires at <= |s| && depth <= o.maxDepth && |items| <= o.maxContainerEntries
    requires forall i | 0 <= i < |items| :: Sound(items[i], depth + 1, o)
    requires ParseItems(s, at, depth, o, items).Ok?
    ensures Sound(ParseItems(s, at, depth, o, items).value, depth, o)
    decreases |s| - at, 3
  {
    ParsedIsSound(s, at, depth + 1, o);
    var item := ParseValue(s, at, depth + 1, o);
    var separator := Separator(s, item.at, CLOSE_BRACKET, ExpectedCommaOrBracket);
    if !separator.value {
      ItemsAreSound(s, separator.at, depth, o, items + [item.value]);
    }
  }

  lemma MemberIsSound(s: Bytes, at: nat, depth: nat, o: ParseOptions)
    requires at <= |s| && ParseMember(s, at, depth, o).Ok?
    ensures SoundMember(ParseMember(s, at, depth, o).value, depth + 1, o)
    decreases |s| - at, 3
  {
    StringRestIsValid(s, at + 1, [], o);
    var colon := SkipSpace(s, ParseString(s, at, o).at);
    ParsedIsSound(s, SkipSpace(s, colon + 1), depth + 1, o);
  }

  lemma EmplacedIsSound(members: seq<Member>, m: Member, depth: nat, o: ParseOptions)
    requires Sorted(members) && !HasKey(members, m.key) && SoundMember(m, depth, o)
    requires forall i | 0 <= i < |members| :: SoundMember(members[i], depth, o)
    ensures Sorted(Emplaced(members, m))
    ensures forall i | 0 <= i <= |members| :: SoundMember(Emplaced(members, m)[i], depth, o)
  {
    EmplacedKeepsOrder(members, m);
    var at := EmplacedAt(members, m);
  }

  lemma {:induction false} MembersAreSound(s: Bytes, at: nat, depth: nat, o: ParseOptions, members: seq<Member>)
    requires at <= |s| && depth <= o.maxDepth && |members| <= o.maxContainerEntries
    requires Sorted(members) && forall i | 0 <= i < |members| :: SoundMember(members[i], depth + 1, o)
    requires ParseMembers(s, at, depth, o, members).Ok?
    ensures Sound(ParseMembers(s, at, depth, o, members).value, depth, o)
    decreases |s| - at, 4
  {
    MemberIsSound(s, at, depth, o);
    var member := ParseMember(s, at, depth, o);
    EmplacedIsSound(members, member.value, depth + 1, o);
    var more := Emplaced(members, member.value);
    var separator := Separator(s, member.at, CLOSE_BRACE, ExpectedCommaOrBrace);
    if separator.value {
      assert ParseMembers(s, at, depth, o, members).value == Object(more);
    } else {
      MembersAreSound(s, separator.at, depth, o, more);
    }
  }

  /** `Parser::number` never hands `JsonValue::number` text it rejects. */
  lemma NumberTextIsNeverRejected(s: Bytes, at: nat)
    requires at <= |s|
    ensures ParseNumber(s, at) != Err(ParseNumber(s, at).at, InvalidNumberText)
  {
    if ScanNumber(s, at).End? {
      ScannedIsNumber(s, at);
      ValidNumberIsGrammar(s[at..ScanNumber(s, at).at]);
    }
  }

  // ----- written text parses back

  lemma EscapedCharReads(value: Bytes, i: nat, input: Bytes, at: nat)
    requires i < |value| && value[i] < 0x20 && ShortEscape(value[i]).None?
    requires StandsAt(input, at, CharText(value, i))
    ensures CharAt(input, at) == Ok([value[i]], at + 6)
  {
    var b := value[i];
    Utf8.BytesStanding(input, at, CharText(value, i));
    var text := CharText(value, i);
    assert input[at + 0] == text[0] && input[at + 1] == text[1] && input[at + 2] == text[2];
    assert input[at + 3] == text[3] && input[at + 4] == text[4] && input[at + 5] == text[5];
    assert HexTail(input, at + 5, 1, b / 16) == HexTail(input, at + 6, 0, b);
    assert HexTail(input, at + 4, 2, 0) == HexTail(input, at + 5, 1, b / 16);
    assert HexTail(input, at + 3, 3, 0) == HexTail(input, at + 4, 2, 0);
    assert HexTail(input, at + 2, 4, 0) == HexTail(input, at + 3, 3, 0);
    assert HexQuad(input, at + 2) == Ok(b, at + 6);
  }

  lemma CharReads(value: Bytes, i: nat, input: Bytes, at: nat)
    requires i < |value| && Utf8.Length(value, i) > 0
    requires StandsAt(input, at, CharText(value, i))
    ensures input[at] != QUOTE
    ensures CharAt(input, at) == Ok(value[i..i + Utf8.Length(value, i)], at + |CharText(value, i)|)
  {
    var text := CharText(value, i);
    FirstByte(input, at, text);
    if ShortEscape(value[i]).Some? {
      assert input[at + 1] == input[at..at + 2][1] == text[1];
      assert value[i..i + 1] == [value[i]];
    } else if value[i] < 0x20 {
      EscapedCharReads(value, i, input, at);
      assert value[i..i + 1] == [value[i]];
    } else if value[i] < 0x80 {
      assert value[i..i + 1] == [value[i]];
    } else {
      Utf8.MeasuredIsEncoding(value, i);
      Utf8.EncodingIsMeasured(input, at, Utf8.ScalarAt(value, i));
    }
  }

  lemma StringRestSteps(value: Bytes, i: nat, input: Bytes, at: nat, o: ParseOptions)
    requires i < |value| <= o.maxStringBytes && Utf8.Length(value, i) > 0
    requires StandsAt(input, at, CharText(value, i))
    ensures StringRest(input, at, value[..i], o)
            == StringRest(input, at + |CharText(value, i)|, value[..i + Utf8.Length(value, i)], o)
  {
    CharReads(value, i, input, at);
    var n := Utf8.Length(value, i);
    assert value[..i] + value[i..i + n] == value[..i + n];
  }

  lemma {:induction false} StringRestReads(value: Bytes, i: nat, input: Bytes, at: nat, o: ParseOptions)
    requires i <= |value| <= o.maxStringBytes && Utf8.ValidFrom(value, i)
    requires StandsAt(input, at, StringTail(value, i)) && ByteAt(input, at + |StringTail(value, i)|, QUOTE)
    ensures StringRest(input, at, value[..i], o) == Ok(value, at + |StringTail(value, i)| + 1)
    decreases |value| - i
  {
    hide CharText, CharAt, Utf8.Length;
    if i == |value| {
      assert value[..i] == value;
    } else {
      var n := Utf8.Length(value, i);
      StandsAtSplit(input, at, CharText(value, i), StringTail(value, i + n));
      StringRestSteps(value, i, input, at, o);
      StringRestReads(value, i + n, input, at + |CharText(value, i)|, o);
    }
  }

  lemma StringReads(value: Bytes, input: Bytes, at: nat, o: ParseOptions)
    requires Utf8.Valid(value) && |value| <= o.maxStringBytes
    requires StandsAt(input, at, StringText(value))
    ensures input[at] == QUOTE && ParseString(input, at, o) == Ok(value, at + |StringText(value)|)
  {
    var tail := StringTail(value, 0);
    StandsAtSplit(input, at, [QUOTE] + tail, [QUOTE]);
    StandsAtSplit(input, at, [QUOTE], tail);
    FirstByte(input, at, StringText(value));
    FirstByte(input, at + 1 + |tail|, [QUOTE]);
    assert value[..0] == [];
    StringRestReads(value, 0, input, at + 1, o);
  }

  /** What the writer puts after a value: nothing, a comma or a closing byte. */
  ghost predicate Closed(s: Bytes, at: nat) {
    at < |s| ==> s[at] == COMMA || s[at] == CLOSE_BRACKET || s[at] == CLOSE_BRACE
  }

  /** The first byte of a value decides which branch reads it. */
  lemma TextStarts(v: Value)
    requires Writable(v) && WellFormed(v)
    ensures Text(v) != []
    ensures !IsSpace(Text(v)[0]) && Text(v)[0] != CLOSE_BRACKET
    ensures v.Number? ==> Text(v)[0] == MINUS || IsDigit(Text(v)[0])
  {
    if v.Number? {
      assert ScanInteger(v.text, ScanSign(v.text, 0)).End?;
    }
  }

  lemma SkipsNothing(s: Bytes, at: nat)
    requires at <= |s| && (at < |s| ==> !IsSpace(s[at]))
    ensures SkipSpace(s, at) == at
  {
  }

  lemma NumberReads(text: Bytes, input: Bytes, at: nat)
    requires ValidNumber(text) && StandsAt(input, at, text) && Closed(input, at + |text|)
    ensures ParseNumber(input, at) == Ok(Number(text), at + |text|)
  {
    hide IsNumber, ScanNumber;
    ValidNumberIsGrammar(text);
    NumberIsScanned(input, at, text);
  }

  /** A written value parses back from wherever it stands. */
  lemma {:induction false} ValueReads(v: Value, input: Bytes, at: nat, depth: nat, o: ParseOptions)
    requires Writable(v) && WellFormed(v) && Fits(v, depth, o)
    requires StandsAt(input, at, Text(v)) && Closed(input, at + |Text(v)|)
    ensures ParseValue(input, at, depth, o) == Ok(v, at + |Text(v)|)
    decreases v, 0
  {
    TextStarts(v);
    FirstByte(input, at, Text(v));
    match v {
      case Null =>
      case Bool(_) =>
      case Number(text) => NumberReads(text, input, at);
      case String(bytes) => StringReads(bytes, input, at, o);
      case Array(items) => ArrayReads(items, input, at, depth, o);
      case Object(members) => ObjectReads(members, input, at, depth, o);
    }
  }

  /** How the items from `from` on lie in the text. */
  lemma ItemsLie(items: seq<Value>, from: nat, input: Bytes, at: nat)
    requires Writable(Array(items)) && WellFormed(Array(items)) && from < |items|
    requires StandsAt(input, at, ItemsText(items, from))
    ensures var start := if from == 0 then at else at + 1;
            && (from > 0 ==> ByteAt(input, at, COMMA))
            && start < |input| && !IsSpace(input[start]) && input[start] != CLOSE_BRACKET
            && StandsAt(input, start, Text(items[from]))
            && StandsAt(input, start + |Text(items[from])|, ItemsText(items, from + 1))
            && start + |Text(items[from])| + |ItemsText(items, from + 1)| == at + |ItemsText(items, from)|
  {
    hide Text;
    var comma: Bytes := if from == 0 then [] else [COMMA];
    var text := Text(items[from]);
    StandsAtSplit(input, at, comma + text, ItemsText(items, from + 1));
    StandsAtSplit(input, at, comma, text);
    if from > 0 { FirstByte(input, at, comma); }
    TextStarts(items[from]);
    FirstByte(input, at + |comma|, text);
  }

  lemma ArrayLies(items: seq<Value>, input: Bytes, at: nat)
    requires Writable(Array(items)) && StandsAt(input, at, Text(Array(items)))
    ensures var body := ItemsText(items, 0);
            && StandsAt(input, at + 1, body) && ByteAt(input, at + 1 + |body|, CLOSE_BRACKET)
            && |Text(Array(items))| == |body| + 2
  {
    var body := ItemsText(items, 0);
    StandsAtSplit(input, at, [OPEN_BRACKET] + body, [CLOSE_BRACKET]);
    StandsAtSplit(input, at, [OPEN_BRACKET], body);
    FirstByte(input, at + 1 + |body|, [CLOSE_BRACKET]);
  }

  lemma {:induction false} ArrayReads(items: seq<Value>, input: Bytes, at: nat, depth: nat, o: ParseOptions)
    requires Writable(Array(items)) && WellFormed(Array(items)) && Fits(Array(items), depth, o)
    requires StandsAt(input, at, Text(Array(items)))
    ensures ParseArray(input, at, depth, o) == Ok(Array(items), at + |Text(Array(items))|)
    decreases items, |items| + 1
  {
    hide ParseValue, ParseItems, Separator, Text;
    var body := ItemsText(items, 0);
    ArrayLies(items, input, at);
    if items == [] {
      SkipsNothing(input, at + 1);
    } else {
      ItemsLie(items, 0, input, at + 1);
      SkipsNothing(input, at + 1);
      assert items[..0] == [];
      ItemsRead(items, 0, input, at + 1, depth, o);
    }
  }

  lemma SeparatorCloses(input: Bytes, at: nat, close: Byte, missing: Reason)
    requires ByteAt(input, at, close) && !IsSpace(close)
    ensures Separator(input, at, close, missing) == Ok(true, at + 1)
  {
    SkipsNothing(input, at);
  }

  lemma SeparatorContinues(input: Bytes, at: nat, close: Byte, missing: Reason)
    requires ByteAt(input, at, COMMA) && close != COMMA && at + 1 < |input| && !IsSpace(input[at + 1])
    ensures Separator(input, at, close, missing) == Ok(false, at + 1)
  {
    SkipsNothing(input, at);
    SkipsNothing(input, at + 1);
  }

  lemma ItemsStep(items: seq<Value>, from: nat, input: Bytes, at: nat, depth: nat, o: ParseOptions,
                  after: nat, closed: bool, next: nat)
    requires from < |items| <= o.maxContainerEntries
    requires at <= |input| && after <= |input| && next <= |input|
    requires ParseValue(input, at, depth + 1, o) == Ok(items[from], after)
    requires Separator(input, after, CLOSE_BRACKET, ExpectedCommaOrBracket) == Ok(closed, next)
    ensures ParseItems(input, at, depth, o, items[..from])
            == if closed then Ok(Array(items[..from + 1]), next)
               else ParseItems(input, next, depth, o, items[..from + 1])
  {
    assert items[..from] + [items[from]] == items[..from + 1];
  }

  lemma {:induction false} ItemsRead(items: seq<Value>, from: nat, input: Bytes, at: nat, depth: nat, o: ParseOptions)
    requires Writable(Array(items)) && WellFormed(Array(items)) && Fits(Array(items), depth, o)
    requires from < |items|
    requires StandsAt(input, at, Text(items[from]))
    requires StandsAt(input, at + |Text(items[from])|, ItemsText(items, from + 1))
    requires ByteAt(input, at + |Text(items[from])| + |ItemsText(items, from + 1)|, CLOSE_BRACKET)
    ensures ParseItems(input, at, depth, o, items[..from])
            == Ok(Array(items), at + |Text(items[from])| + |ItemsText(items, from + 1)| + 1)
    decreases items, |items| - from
  {
    hide ParseValue, ParseItems, SkipSpace, Separator, Text, StandsAt;
    var sep := at + |Text(items[from])|;
    if from + 1 == |items| {
      assert items[..from + 1] == items;
      ValueReads(items[from], input, at, depth + 1, o);
      SeparatorCloses(input, sep, CLOSE_BRACKET, ExpectedCommaOrBracket);
      ItemsStep(items, from, input, at, depth, o, sep, true, sep + 1);
    } else {
      ItemsLie(items, from + 1, input, sep);
      ValueReads(items[from], input, at, depth + 1, o);
      SeparatorContinues(input, sep, CLOSE_BRACKET, ExpectedCommaOrBracket);
      ItemsStep(items, from, input, at, depth, o, sep, false, sep + 1);
      ItemsRead(items, from + 1, input, sep + 1, depth, o);
    }
  }

  lemma MemberStarts(m: Member)
    requires Utf8.Valid(m.key) && Writable(m.value)
    ensures MemberText(m) != [] && MemberText(m)[0] == QUOTE
  {
  }

  /** How the members from `from` on lie in the text. */
  lemma MembersLie(members: seq<Member>, from: nat, input: Bytes, at: nat)
    requires Writable(Object(members)) && from < |members|
    requires StandsAt(input, at, MembersText(members, from))
    ensures var start := if from == 0 then at else at + 1;
            && (from > 0 ==> ByteAt(input, at, COMMA))
            && ByteAt(input, start, QUOTE)
            && StandsAt(input, start, MemberText(members[from]))
            && StandsAt(input, start + |MemberText(members[from])|, MembersText(members, from + 1))
            && start + |MemberText(members[from])| + |MembersText(members, from + 1)|
               == at + |MembersText(members, from)|
  {
    var comma: Bytes := if from == 0 then [] else [COMMA];
    var text := MemberText(members[from]);
    StandsAtSplit(input, at, comma + text, MembersText(members, from + 1));
    StandsAtSplit(input, at, comma, text);
    if from > 0 { FirstByte(input, at, comma); }
    MemberStarts(members[from]);
    FirstByte(input, at + |comma|, text);
  }

  lemma ObjectLies(members: seq<Member>, input: Bytes, at: nat)
    requires Writable(Object(members)) && StandsAt(input, at, Text(Object(members)))
    ensures var body := MembersText(members, 0);
            && StandsAt(input, at + 1, body) && ByteAt(input, at + 1 + |body|, CLOSE_BRACE)
            && |Text(Object(members))| == |body| + 2 && (members == [] ==> body == [])
  {
    var body := MembersText(members, 0);
    StandsAtSplit(input, at, [OPEN_BRACE] + body, [CLOSE_BRACE]);
    StandsAtSplit(input, at, [OPEN_BRACE], body);
    FirstByte(input, at + 1 + |body|, [CLOSE_BRACE]);
  }

  lemma {:induction false} ObjectReads(members: seq<Member>, input: Bytes, at: nat, depth: nat, o: ParseOptions)
    requires Writable(Object(members)) && WellFormed(Object(members)) && Fits(Object(members), depth, o)
    requires StandsAt(input, at, Text(Object(members)))
    ensures ParseObject(input, at, depth, o) == Ok(Object(members), at + |Text(Object(members))|)
    decreases members, |members| + 1
  {
    hide ParseMembers, ParseMember, MemberText, Text, MembersText;
    var body := MembersText(members, 0);
    ObjectLies(members, input, at);
    if members == [] {
      SkipsNothing(input, at + 1);
    } else {
      MembersLie(members, 0, input, at + 1);
      SkipsNothing(input, at + 1);
      assert members[..0] == [];
      MembersRead(members, 0, input, at + 1, depth, o, at + 1 + |body|);
    }
  }

  lemma {:induction false} MemberReads(m: Member, input: Bytes, at: nat, depth: nat, o: ParseOptions)
    requires Utf8.Valid(m.key) && Writable(m.value) && WellFormed(m.value)
    requires |m.key| <= o.maxStringBytes && Fits(m.value, depth + 1, o)
    requires StandsAt(input, at, MemberText(m)) && Closed(input, at + |MemberText(m)|)
    ensures ParseMember(input, at, depth, o) == Ok(m, at + |MemberText(m)|)
    decreases m, 0
  {
    hide ParseValue, StringText, StringRest, Text, Writable, WellFormed, Fits, ParseString;
    var key, text := StringText(m.key), Text(m.value);
    StandsAtSplit(input, at, key + [COLON], text);
    StandsAtSplit(input, at, key, [COLON]);
    StringReads(m.key, input, at, o);
    var colon := at + |key|;
    FirstByte(input, colon, [COLON]);
    SkipsNothing(input, colon);
    TextStarts(m.value);
    FirstByte(input, colon + 1, text);
    SkipsNothing(input, colon + 1);
    ValueReads(m.value, input, colon + 1, depth + 1, o);
  }

  lemma MembersGrow(members: seq<Member>, from: nat)
    requires Sorted(members) && from < |members|
    ensures !HasKey(members[..from], members[from].key)
    ensures Emplaced(members[..from], members[from]) == members[..from + 1]
  {
    assert members[..from] + [members[from]] == members[..from + 1];
    EmplacedLast(members[..from], members[from]);
  }

  lemma MembersStep(members: seq<Member>, from: nat, input: Bytes, at: nat, depth: nat, o: ParseOptions,
                    after: nat, closed: bool, next: nat)
    requires Sorted(members) && from < |members| <= o.maxContainerEntries
    requires at <= |input| && after <= |input| && next <= |input|
    requires ParseMember(input, at, depth, o) == Ok(members[from], after)
    requires Separator(input, after, CLOSE_BRACE, ExpectedCommaOrBrace) == Ok(closed, next)
    ensures ParseMembers(input, at, depth, o, members[..from])
            == if closed then Ok(Object(members[..from + 1]), next)
               else ParseMembers(input, next, depth, o, members[..from + 1])
  {
    MembersGrow(members, from);
  }

  /** One written member is read, and the parser stands at the next one. */
  lemma {:induction false} MembersAdvance(members: seq<Member>, from: nat, input: Bytes, at: nat, depth: nat, o: ParseOptions)
    requires Writable(Object(members)) && WellFormed(Object(members)) && Fits(Object(members), depth, o)
    requires from < |members| && StandsAt(input, at, MemberText(members[from]))
    requires var sep := at + |MemberText(members[from])|;
             if from + 1 == |members| then ByteAt(input, sep, CLOSE_BRACE)
             else ByteAt(input, sep, COMMA) && ByteAt(input, sep + 1, QUOTE)
    ensures ParseMembers(input, at, depth, o, members[..from])
            == var next := at + |MemberText(members[from])| + 1;
               if from + 1 == |members| then Ok(Object(members), next)
               else ParseMembers(input, next, depth, o, members[..from + 1])
    decreases members, |members| - from, 0
  {
    hide ParseMember, ParseMembers, ParseValue, MemberText;
    var sep := at + |MemberText(members[from])|;
    MemberReads(members[from], input, at, depth, o);
    if from + 1 == |members| {
      assert members[..from + 1] == members;
      SeparatorCloses(input, sep, CLOSE_BRACE, ExpectedCommaOrBrace);
      MembersStep(members, from, input, at, depth, o, sep, true, sep + 1);
    } else {
      SeparatorContinues(input, sep, CLOSE_BRACE, ExpectedCommaOrBrace);
      MembersStep(members, from, input, at, depth, o, sep, false, sep + 1);
    }
  }

  lemma {:induction false} MembersRead(members: seq<Member>, from: nat, input: Bytes, at: nat, depth: nat,
                                       o: ParseOptions, end: nat)
    requires Writable(Object(members)) && WellFormed(Object(members)) && Fits(Object(members), depth, o)
    requires from < |members|
    requires StandsAt(input, at, MemberText(members[from]))
    requires StandsAt(input, at + |MemberText(members[from])|, MembersText(members, from + 1))
    requires end == at + |MemberText(members[from])| + |MembersText(members, from + 1)|
    requires ByteAt(input, end, CLOSE_BRACE)
    ensures ParseMembers(input, at, depth, o, members[..from]) == Ok(Object(members), end + 1)
    decreases members, |members| - from, 1
  {
    hide ParseMember, ParseMembers, SkipSpace, Separator, MemberText, StandsAt, WellFormed, Fits;
    if from + 1 < |members| {
      var sep := at + |MemberText(members[from])|;
      MembersLie(members, from + 1, input, sep);
      MembersAdvance(members, from, input, at, depth, o);
      MembersRead(members, from + 1, input, sep + 1, depth, o, end);
    } else {
      MembersAdvance(members, from, input, at, depth, o);
    }
  }

  // ----- the two laws

  /** parse(write(v)) == v exactly for the values that are well formed and within the limits. */
  lemma WrittenParsesBack(v: Value, o: ParseOptions)
    requires Writable(v)
    ensures Parse(Text(v), o) == Ok(v, |Text(v)|) <==> WellFormed(v) && Fits(v, 1, o)
  {
    var text := Text(v);
    if WellFormed(v) && Fits(v, 1, o) {
      TextStarts(v);
      SkipsNothing(text, 0);
      assert text[0..|text|] == text;
      ValueReads(v, text, 0, 1, o);
      SkipsNothing(text, |text|);
    }
    if Parse(text, o) == Ok(v, |text|) {
      ParsedIsSound(text, SkipSpace(text, 0), 1, o);
    }
  }

  /** Whatever text the parser accepts, the writer accepts its value, and parsing that again gives it back. */
  lemma ParsedWritesAndParsesBack(s: Bytes, o: ParseOptions)
    requires Parse(s, o).Ok?
    ensures Writable(Parse(s, o).value)
    ensures Parse(Text(Parse(s, o).value), o) == Ok(Parse(s, o).value, |Text(Parse(s, o).value)|)
  {
    ParsedIsSound(s, SkipSpace(s, 0), 1, o);
    WrittenParsesBack(Parse(s, o).value, o);
  }

  /** Different values are never written alike. */
  lemma WritingIsInjective(v: Value, w: Value)
    requires Writable(v) && WellFormed(v) && Writable(w) && WellFormed(w)
    requires Text(v) == Text(w)
    ensures v == w
  {
    hide Text, Writable, WellFormed, Fits, Parse;
    var one := SomeLimitsFit(v, 1);
    var other := SomeLimitsFit(w, 1);
    var o := Larger(one, other);
    FitsLarger(v, 1, one, o);
    FitsLarger(w, 1, other, o);
    WrittenParsesBack(v, o);
    WrittenParsesBack(w, o);
  }
}
