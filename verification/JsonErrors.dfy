// Where the parser stops and why: the offset of an error points at the bytes that the reason speaks of.
module JsonErrors {
  import opened Bytes
  import opened JsonNumber
  import opened JsonValue
  import opened JsonWriter
  import opened JsonParser
  import JsonRoundTrip
  import opened JsonGrammar
  import JsonGrammarLaws
  import Utf8

  // ----- reasons, in the bytes

  predicate At(s: Bytes, at: int, b: Byte) {
    0 <= at < |s| && s[at] == b
  }

  predicate HexAt(s: Bytes, at: int) {
    0 <= at < |s| && exists v | 0 <= v < 16 :: Denotes(s[at], v)
  }

  predicate DecimalAt(s: Bytes, at: int) {
    0 <= at < |s| && '0' as int <= s[at] <= '9' as int
  }

  predicate BlankAt(s: Bytes, at: int) {
    0 <= at < |s| && (s[at] == 0x20 || s[at] == 0x09 || s[at] == 0x0a || s[at] == 0x0d)
  }

  /** Four hex digits of that value end here. */
  ghost predicate QuadEndsAt(s: Bytes, at: int, unit: nat) {
    && 4 <= at <= |s|
    && exists u: Unit :: UnitHolds(u) && StandsAt(s, at - 4, UnitSpelled(u)) && UnitValue(u) == unit
  }

  /** A letter that may follow a backslash. */
  predicate EscapeLetterAt(s: Bytes, at: int) {
    At(s, at, '"' as int) || At(s, at, '\\' as int) || At(s, at, '/' as int) || At(s, at, 'b' as int)
    || At(s, at, 'f' as int) || At(s, at, 'n' as int) || At(s, at, 'r' as int) || At(s, at, 't' as int)
    || At(s, at, 'u' as int)
  }

  /** A byte that the first letter of a literal, a quote, a bracket, a brace, a minus or a digit begins a value with. */
  predicate BeginsValueAt(s: Bytes, at: int) {
    At(s, at, 'n' as int) || At(s, at, 't' as int) || At(s, at, 'f' as int) || At(s, at, '"' as int)
    || At(s, at, '[' as int) || At(s, at, '{' as int) || At(s, at, '-' as int) || DecimalAt(s, at)
  }

  ghost predicate LiteralAt(s: Bytes, at: nat) {
    || StandsAt(s, at, ['n' as int, 'u' as int, 'l' as int, 'l' as int])
    || StandsAt(s, at, ['t' as int, 'r' as int, 'u' as int, 'e' as int])
    || StandsAt(s, at, ['f' as int, 'a' as int, 'l' as int, 's' as int, 'e' as int])
  }

  /** What stands at the offset of an error of this reason, and right before it. */
  ghost predicate Blames(s: Bytes, at: nat, reason: Reason) {
    at <= |s| &&
    match reason
    case TrailingData => at < |s| && !BlankAt(s, at)
    case DepthExceeded => true
    case ExpectedValue => !BeginsValueAt(s, at) || (At(s, at - 1, '-' as int) && !DecimalAt(s, at))
    case InvalidLiteral =>
      (At(s, at, 'n' as int) || At(s, at, 't' as int) || At(s, at, 'f' as int)) && !LiteralAt(s, at)
    case IncompleteUnicodeEscape =>
      |s| - at < 4 && At(s, at - 2, '\\' as int) && At(s, at - 1, 'u' as int)
    case InvalidUnicodeEscape => at > 0 && !HexAt(s, at - 1)
    case StringTooLong => true
    case ExpectedString => false
    case ControlCharacter => at < |s| && s[at] < 0x20
    case IncompleteEscape => at == |s| && At(s, at - 1, '\\' as int)
    case MissingLowSurrogate => !At(s, at, '\\' as int) || (At(s, at - 1, '\\' as int) && !At(s, at, 'u' as int))
    case InvalidLowSurrogate => exists unit: nat :: QuadEndsAt(s, at, unit) && !(0xdc00 <= unit <= 0xdfff)
    case UnpairedLowSurrogate => exists unit: nat :: QuadEndsAt(s, at, unit) && 0xdc00 <= unit <= 0xdfff
    case InvalidEscape => At(s, at - 2, '\\' as int) && !EscapeLetterAt(s, at - 1)
    case InvalidUtf8 => at < |s| && s[at] >= 0x80
                        && !(exists c: Utf8.Scalar :: StandsAt(s, at, Utf8.Encode(c)))
    case UnterminatedString => at == |s|
    case LeadingZero => At(s, at - 1, '0' as int) && DecimalAt(s, at)
    case InvalidFraction => At(s, at - 1, '.' as int) && !DecimalAt(s, at)
    case InvalidExponent =>
      && !DecimalAt(s, at)
      && (At(s, at - 1, 'e' as int) || At(s, at - 1, 'E' as int) || At(s, at - 1, '+' as int) || At(s, at - 1, '-' as int))
    case TooManyEntries => true
    case ExpectedCommaOrBracket => !BlankAt(s, at) && !At(s, at, ',' as int) && !At(s, at, ']' as int)
    case ExpectedObjectKey => !At(s, at, '"' as int)
    case ExpectedColon => !BlankAt(s, at) && !At(s, at, ':' as int)
    case DuplicateKey => at > 0
    case ExpectedCommaOrBrace => !BlankAt(s, at) && !At(s, at, ',' as int) && !At(s, at, '}' as int)
    case InvalidNumberText => false
  }

  // ----- strings

  lemma NoHex(b: Byte)
    requires HexValue(b).None?
    ensures forall v | 0 <= v < 16 :: !Denotes(b, v)
  {
    forall v: nat | v < 16 ensures !Denotes(b, v) { HexValueExactly(b, v); }
  }

  lemma {:induction false} HexTailFails(s: Bytes, at: nat, digits: nat, result: nat)
    requires digits <= 4 && at + digits <= |s| && result < HexLimit(digits)
    requires HexTail(s, at, digits, result).Err?
    ensures Blames(s, HexTail(s, at, digits, result).at, HexTail(s, at, digits, result).reason)
    decreases digits
  {
    match HexValue(s[at])
    case None => NoHex(s[at]);
    case Some(digit) => HexTailFails(s, at + 1, digits - 1, result * 16 + digit);
  }

  lemma HexQuadFails(s: Bytes, at: nat)
    requires 2 <= at <= |s| && At(s, at - 2, '\\' as int) && At(s, at - 1, 'u' as int) && HexQuad(s, at).Err?
    ensures Blames(s, HexQuad(s, at).at, HexQuad(s, at).reason)
  {
    hide Blames;
    if |s| - at >= 4 { HexTailFails(s, at, 4, 0); } else { ShortQuad(s, at); }
  }

  lemma ShortQuad(s: Bytes, at: nat)
    requires 2 <= at <= |s| && |s| - at < 4 && At(s, at - 2, '\\' as int) && At(s, at - 1, 'u' as int)
    ensures Blames(s, at, IncompleteUnicodeEscape)
  {
  }

  lemma QuadIs(s: Bytes, at: nat)
    requires at <= |s| && HexQuad(s, at).Ok?
    ensures QuadEndsAt(s, at + 4, HexQuad(s, at).value)
  {
    hide HexQuad, UnitHolds, UnitSpelled, UnitValue;
    var u := JsonGrammarLaws.ReadIsUnit(s, at);
    assert at + 4 <= |s| by { QuadFits(s, at); }
  }

  lemma QuadFits(s: Bytes, at: nat)
    requires at <= |s| && HexQuad(s, at).Ok?
    ensures at + 4 <= |s|
  {
  }

  lemma LowSurrogateFails(s: Bytes, at: nat)
    requires at <= |s| && LowSurrogate(s, at).Err?
    ensures Blames(s, LowSurrogate(s, at).at, LowSurrogate(s, at).reason)
  {
    hide HexQuad, QuadEndsAt;
    if ByteAt(s, at, BACKSLASH) && ByteAt(s, at + 1, LETTER_U) {
      if HexQuad(s, at + 2).Err? { HexQuadFails(s, at + 2); } else { QuadIs(s, at + 2); }
    }
  }

  lemma EscapeFails(s: Bytes, at: nat)
    requires 1 <= at <= |s| && At(s, at - 1, '\\' as int) && EscapeAt(s, at).Err?
    ensures Blames(s, EscapeAt(s, at).at, EscapeAt(s, at).reason)
  {
    hide HexQuad, QuadEndsAt, LowSurrogate, Utf8.Encode;
    if at < |s| && s[at] == LETTER_U {
      if HexQuad(s, at + 1).Err? {
        HexQuadFails(s, at + 1);
      } else {
        QuadIs(s, at + 1);
        if LowSurrogate(s, HexQuad(s, at + 1).at).Err? { LowSurrogateFails(s, HexQuad(s, at + 1).at); }
      }
    }
  }

  lemma NoEncoding(s: Bytes, at: nat)
    requires at < |s| && s[at] >= 0x80 && Utf8.Length(s, at) == 0
    ensures forall c: Utf8.Scalar :: !StandsAt(s, at, Utf8.Encode(c))
  {
    forall c: Utf8.Scalar ensures !StandsAt(s, at, Utf8.Encode(c)) {
      if StandsAt(s, at, Utf8.Encode(c)) {
        Utf8.EncodingIsMeasured(s, at, c);
        Utf8.EncodingIsNotEmpty(c);
      }
    }
  }

  lemma CharFails(s: Bytes, at: nat)
    requires at < |s| && s[at] != QUOTE && CharAt(s, at).Err?
    ensures Blames(s, CharAt(s, at).at, CharAt(s, at).reason)
  {
    hide EscapeAt, Utf8.Length, Utf8.Encode, StandsAt;
    if s[at] == BACKSLASH { EscapeFails(s, at + 1); }
    else if s[at] >= 0x80 { NoEncoding(s, at); }
  }

  lemma {:induction false} StringRestFails(s: Bytes, at: nat, result: Bytes, o: ParseOptions)
    requires at <= |s| && StringRest(s, at, result, o).Err?
    ensures Blames(s, StringRest(s, at, result, o).at, StringRest(s, at, result, o).reason)
    decreases |s| - at
  {
    hide CharAt, Blames;
    if at == |s| {
      EndsOpen(s);
    } else if CharAt(s, at).Err? {
      CharFails(s, at);
    } else if |result + CharAt(s, at).value| > o.maxStringBytes {
      LimitsBlame(s, CharAt(s, at).at);
    } else {
      StringRestFails(s, CharAt(s, at).at, result + CharAt(s, at).value, o);
    }
  }

  lemma EndsOpen(s: Bytes)
    ensures Blames(s, |s|, UnterminatedString)
  {
  }

  lemma LimitsBlame(s: Bytes, at: nat)
    requires at <= |s|
    ensures Blames(s, at, StringTooLong) && Blames(s, at, DepthExceeded) && Blames(s, at, TooManyEntries)
    ensures at > 0 ==> Blames(s, at, DuplicateKey)
  {
  }

  // ----- numbers and words

  lemma NumberFails(s: Bytes, at: nat)
    requires at < |s| && ScanNumber(s, at).Stop?
    requires At(s, at, '-' as int) || DecimalAt(s, at) || !BeginsValueAt(s, at)
    ensures Blames(s, ScanNumber(s, at).at, ScanNumber(s, at).reason)
  {
    var sign := ScanSign(s, at);
    if ScanInteger(s, sign).End? {
      var fraction := ScanFraction(s, ScanInteger(s, sign).at);
    }
  }

  lemma ParsedNumberFails(s: Bytes, at: nat)
    requires at < |s| && ParseNumber(s, at).Err?
    requires At(s, at, '-' as int) || DecimalAt(s, at) || !BeginsValueAt(s, at)
    ensures Blames(s, ParseNumber(s, at).at, ParseNumber(s, at).reason)
  {
    JsonRoundTrip.NumberTextIsNeverRejected(s, at);
    hide Blames, ScanNumber;
    if ScanNumber(s, at).Stop? { NumberFails(s, at); }
  }

  lemma LiteralFails(s: Bytes, at: nat, word: Bytes, v: Value)
    requires at < |s| && word in {NULL_WORD, TRUE_WORD, FALSE_WORD} && s[at] == word[0] && Literal(s, at, word, v).Err?
    ensures Blames(s, Literal(s, at, word, v).at, Literal(s, at, word, v).reason)
  {
    if StandsAt(s, at, NULL_WORD) { FirstByte(s, at, NULL_WORD); }
    if StandsAt(s, at, TRUE_WORD) { FirstByte(s, at, TRUE_WORD); }
    if StandsAt(s, at, FALSE_WORD) { FirstByte(s, at, FALSE_WORD); }
  }

  lemma {:induction false} SkippedToDark(s: Bytes, at: nat)
    requires at <= |s|
    ensures !BlankAt(s, SkipSpace(s, at))
    decreases |s| - at
  {
    if at < |s| && IsSpace(s[at]) { SkippedToDark(s, at + 1); }
  }

  lemma SeparatorFails(s: Bytes, at: nat, close: Byte, missing: Reason)
    requires at <= |s| && Separator(s, at, close, missing).Err?
    requires (close == CLOSE_BRACKET && missing == ExpectedCommaOrBracket)
             || (close == CLOSE_BRACE && missing == ExpectedCommaOrBrace)
    ensures Blames(s, Separator(s, at, close, missing).at, Separator(s, at, close, missing).reason)
  {
    hide SkipSpace;
    SkippedToDark(s, at);
  }

  // ----- values

  lemma {:induction false} ValueFails(s: Bytes, at: nat, depth: nat, o: ParseOptions)
    requires at <= |s| && ParseValue(s, at, depth, o).Err?
    ensures Blames(s, ParseValue(s, at, depth, o).at, ParseValue(s, at, depth, o).reason)
    decreases |s| - at, 2
  {
    hide Blames, ParseArray, ParseObject, ParseNumber, StringRest, Literal;
    LimitsBlame(s, at);
    if depth > o.maxDepth {
    } else if at == |s| {
      NothingBegins(s);
    } else if s[at] == NULL_WORD[0] {
      LiteralFails(s, at, NULL_WORD, Null);
    } else if s[at] == TRUE_WORD[0] {
      LiteralFails(s, at, TRUE_WORD, Bool(true));
    } else if s[at] == FALSE_WORD[0] {
      LiteralFails(s, at, FALSE_WORD, Bool(false));
    } else if s[at] == QUOTE {
      StringRestFails(s, at + 1, [], o);
    } else if s[at] == OPEN_BRACKET {
      ArrayFails(s, at, depth, o);
    } else if s[at] == OPEN_BRACE {
      ObjectFails(s, at, depth, o);
    } else {
      ParsedNumberFails(s, at);
    }
  }

  lemma NothingBegins(s: Bytes)
    ensures Blames(s, |s|, ExpectedValue)
  {
  }

  lemma {:induction false} ArrayFails(s: Bytes, at: nat, depth: nat, o: ParseOptions)
    requires at < |s| && ParseArray(s, at, depth, o).Err?
    ensures Blames(s, ParseArray(s, at, depth, o).at, ParseArray(s, at, depth, o).reason)
    decreases |s| - at, 1
  {
    hide Blames, ParseItems, SkipSpace;
    ItemsFail(s, SkipSpace(s, at + 1), depth, o, []);
  }

  lemma {:induction false} ItemsFail(s: Bytes, at: nat, depth: nat, o: ParseOptions, items: seq<Value>)
    requires at <= |s| && ParseItems(s, at, depth, o, items).Err?
    ensures Blames(s, ParseItems(s, at, depth, o, items).at, ParseItems(s, at, depth, o, items).reason)
    decreases |s| - at, 3
  {
    hide Blames, ParseValue, Separator;
    LimitsBlame(s, at);
    if |items| != o.maxContainerEntries {
      var first := ParseValue(s, at, depth + 1, o);
      if first.Err? {
        ValueFails(s, at, depth + 1, o);
      } else {
        var next := Separator(s, first.at, CLOSE_BRACKET, ExpectedCommaOrBracket);
        if next.Err? {
          SeparatorFails(s, first.at, CLOSE_BRACKET, ExpectedCommaOrBracket);
        } else {
          ItemsFail(s, next.at, depth, o, items + [first.value]);
        }
      }
    }
  }

  lemma {:induction false} ObjectFails(s: Bytes, at: nat, depth: nat, o: ParseOptions)
    requires at < |s| && ParseObject(s, at, depth, o).Err?
    ensures Blames(s, ParseObject(s, at, depth, o).at, ParseObject(s, at, depth, o).reason)
    decreases |s| - at, 1
  {
    hide Blames, ParseMembers, SkipSpace;
    MembersFail(s, SkipSpace(s, at + 1), depth, o, []);
  }

  lemma {:induction false} MemberFails(s: Bytes, at: nat, depth: nat, o: ParseOptions)
    requires at <= |s| && ParseMember(s, at, depth, o).Err?
    ensures Blames(s, ParseMember(s, at, depth, o).at, ParseMember(s, at, depth, o).reason)
    decreases |s| - at, 3
  {
    hide ParseValue, StringRest, SkipSpace, QuadEndsAt, StandsAt;
    if ByteAt(s, at, QUOTE) {
      var key := ParseString(s, at, o);
      if key.Err? {
        StringRestFails(s, at + 1, [], o);
      } else {
        var colon := SkipSpace(s, key.at);
        SkippedToDark(s, key.at);
        if ByteAt(s, colon, COLON) { ValueFails(s, SkipSpace(s, colon + 1), depth + 1, o); }
      }
    }
  }

  lemma {:induction false} MembersFail(s: Bytes, at: nat, depth: nat, o: ParseOptions, members: seq<Member>)
    requires at <= |s| && ParseMembers(s, at, depth, o, members).Err?
    ensures Blames(s, ParseMembers(s, at, depth, o, members).at, ParseMembers(s, at, depth, o, members).reason)
    decreases |s| - at, 4
  {
    hide Blames, ParseMember, Separator, HasKey, Emplaced;
    LimitsBlame(s, at);
    if |members| != o.maxContainerEntries {
      var first := ParseMember(s, at, depth, o);
      if first.Err? {
        MemberFails(s, at, depth, o);
      } else if HasKey(members, first.value.key) {
        LimitsBlame(s, first.at);
      } else {
        var next := Separator(s, first.at, CLOSE_BRACE, ExpectedCommaOrBrace);
        if next.Err? {
          SeparatorFails(s, first.at, CLOSE_BRACE, ExpectedCommaOrBrace);
        } else {
          MembersFail(s, next.at, depth, o, Emplaced(members, first.value));
        }
      }
    }
  }

  /** Whatever text is refused, the error points into it, at bytes that give its reason. */
  lemma ErrorsPointAtTheirReason(s: Bytes, o: ParseOptions)
    requires Parse(s, o).Err?
    ensures Blames(s, Parse(s, o).at, Parse(s, o).reason)
  {
    hide ParseValue, SkipSpace, QuadEndsAt, StandsAt;
    var start := SkipSpace(s, 0);
    if ParseValue(s, start, 1, o).Err? {
      ValueFails(s, start, 1, o);
    } else {
      SkippedToDark(s, ParseValue(s, start, 1, o).at);
    }
  }
}
