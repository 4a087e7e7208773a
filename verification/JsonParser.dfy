// The recursive-descent parser of json.cpp. The functions say what parsing from an offset gives,
// failures with their offset included; class `Parser` is the code, which moves one cursor.
module JsonParser {
  import opened Bytes
  import opened JsonNumber
  import opened JsonValue
  import opened JsonWriter
  import Utf8

  /** A value and the offset after it, or the offset and the reason of the failure. */
  datatype Parsed<+T> = Ok(value: T, at: nat) | Err(at: nat, reason: Reason)

  const SLASH: Byte := 0x2f

  predicate IsSpace(b: Byte) {
    b == 0x20 || b == 0x09 || b == 0x0a || b == 0x0d
  }

  function SkipSpace(s: Bytes, at: nat): (end: nat)
    requires at <= |s|
    ensures at <= end <= |s|
    decreases |s| - at
  {
    if at < |s| && IsSpace(s[at]) then SkipSpace(s, at + 1) else at
  }

  predicate ByteAt(s: Bytes, at: nat, wanted: Byte) {
    at < |s| && s[at] == wanted
  }

  predicate WordAt(s: Bytes, at: nat, word: Bytes) {
    at + |word| <= |s| && s[at..at + |word|] == word
  }

  /** The first value that no digits read so far can have reached, with `digits` still to read. */
  function HexLimit(digits: nat): nat {
    if digits == 4 then 1 else if digits == 3 then 0x10 else if digits == 2 then 0x100
    else if digits == 1 then 0x1000 else 0x10000
  }

  function HexTail(s: Bytes, at: nat, digits: nat, result: nat): (r: Parsed<nat>)
    requires digits <= 4 && at + digits <= |s| && result < HexLimit(digits)
    ensures r.Ok? ==> r.at == at + digits && r.value < 0x10000
    ensures at <= r.at <= |s|
    decreases digits
  {
    if digits == 0 then Ok(result, at)
    else match HexValue(s[at])
      case None => Err(at + 1, InvalidUnicodeEscape)
      case Some(digit) => HexTail(s, at + 1, digits - 1, result * 16 + digit)
  }

  function HexQuad(s: Bytes, at: nat): (r: Parsed<nat>)
    requires at <= |s|
    ensures at <= r.at <= |s|
    ensures r.Ok? ==> r.at == at + 4 && r.value < 0x10000
  {
    if |s| - at < 4 then Err(at, IncompleteUnicodeEscape) else HexTail(s, at, 4, 0)
  }

  /** The second half of a surrogate pair, from its backslash on. */
  function LowSurrogate(s: Bytes, at: nat): (r: Parsed<nat>)
    requires at <= |s|
    ensures at <= r.at <= |s|
    ensures r.Ok? ==> 0xdc00 <= r.value <= 0xdfff
  {
    if !ByteAt(s, at, BACKSLASH) then Err(at, MissingLowSurrogate)
    else if !ByteAt(s, at + 1, LETTER_U) then Err(at + 1, MissingLowSurrogate)
    else match HexQuad(s, at + 2)
      case Err(where, why) => Err(where, why)
      case Ok(low, next) =>
        if low < 0xdc00 || low > 0xdfff then Err(next, InvalidLowSurrogate) else Ok(low, next)
  }

  /** The scalar value of the escape whose four digits start at `at`, with its low surrogate where it needs one. */
  function UnicodeEscape(s: Bytes, at: nat): (r: Parsed<Utf8.Scalar>)
    requires at <= |s|
    ensures at <= r.at <= |s|
  {
    match HexQuad(s, at)
    case Err(where, why) => Err(where, why)
    case Ok(unit, next) =>
      if 0xd800 <= unit <= 0xdbff then
        match LowSurrogate(s, next)
        case Err(where, why) => Err(where, why)
        case Ok(low, end) => Ok(0x10000 + (unit - 0xd800) * 0x400 + (low - 0xdc00), end)
      else if 0xdc00 <= unit <= 0xdfff then Err(next, UnpairedLowSurrogate)
      else Ok(unit, next)
  }

  /** The character of a two-character escape. */
  function SimpleEscape(letter: Byte): Option<Byte> {
    if letter == QUOTE || letter == BACKSLASH || letter == SLASH then Some(letter)
    else if letter == 0x62 then Some(0x08)
    else if letter == 0x66 then Some(0x0c)
    else if letter == 0x6e then Some(0x0a)
    else if letter == 0x72 then Some(0x0d)
    else if letter == 0x74 then Some(0x09)
    else None
  }

  /** What follows a backslash. */
  function EscapeAt(s: Bytes, at: nat): (r: Parsed<Bytes>)
    requires at <= |s|
    ensures at <= r.at <= |s|
  {
    if at == |s| then Err(at, IncompleteEscape)
    else if s[at] == LETTER_U then
      match UnicodeEscape(s, at + 1)
      case Err(where, why) => Err(where, why)
      case Ok(codepoint, next) => Ok(Utf8.Encode(codepoint), next)
    else match SimpleEscape(s[at])
      case Some(b) => Ok([b], at + 1)
      case None => Err(at + 1, InvalidEscape)
  }

  /** One character of a string, escaped or not. */
  function CharAt(s: Bytes, at: nat): (r: Parsed<Bytes>)
    requires at < |s| && s[at] != QUOTE
    ensures at <= r.at <= |s| && (r.Ok? ==> at < r.at)
  {
    if s[at] < 0x20 then Err(at, ControlCharacter)
    else if s[at] == BACKSLASH then EscapeAt(s, at + 1)
    else if s[at] < 0x80 then Ok([s[at]], at + 1)
    else
      var length := Utf8.Length(s, at);
      if length == 0 then Err(at, InvalidUtf8) else Ok(s[at..at + length], at + length)
  }

  /** The rest of a string after its opening quote and the characters already in `result`. */
  function StringRest(s: Bytes, at: nat, result: Bytes, o: ParseOptions): (r: Parsed<Bytes>)
    requires at <= |s|
    ensures at <= r.at <= |s| && (r.Ok? ==> at < r.at)
    decreases |s| - at
  {
    if at == |s| then Err(at, UnterminatedString)
    else if s[at] == QUOTE then Ok(result, at + 1)
    else match CharAt(s, at)
      case Err(where, why) => Err(where, why)
      case Ok(chunk, next) =>
        if |result + chunk| > o.maxStringBytes then Err(next, StringTooLong)
        else StringRest(s, next, result + chunk, o)
  }

  function ParseString(s: Bytes, at: nat, o: ParseOptions): (r: Parsed<Bytes>)
    requires at <= |s|
    ensures at <= r.at <= |s| && (r.Ok? ==> at < r.at)
  {
    if ByteAt(s, at, QUOTE) then StringRest(s, at + 1, [], o) else Err(at, ExpectedString)
  }

  function ParseNumber(s: Bytes, at: nat): (r: Parsed<Value>)
    requires at <= |s|
    ensures at <= r.at <= |s| && (r.Ok? ==> at < r.at)
  {
    var scanned := ScanNumber(s, at);
    if scanned.Stop? then Err(scanned.at, scanned.reason)
    else if !ValidNumber(s[at..scanned.at]) then Err(scanned.at, InvalidNumberText)
    else Ok(Number(s[at..scanned.at]), scanned.at)
  }

  function Literal(s: Bytes, at: nat, word: Bytes, v: Value): (r: Parsed<Value>)
    requires at <= |s| && word != []
    ensures at <= r.at <= |s| && (r.Ok? ==> at < r.at)
  {
    if WordAt(s, at, word) then Ok(v, at + |word|) else Err(at, InvalidLiteral)
  }

  /** What stands after an entry: the closing byte (true), or a comma and the next entry (false). */
  function Separator(s: Bytes, at: nat, close: Byte, missing: Reason): (r: Parsed<bool>)
    requires at <= |s|
    ensures at <= r.at <= |s|
  {
    var next := SkipSpace(s, at);
    if ByteAt(s, next, close) then Ok(true, next + 1)
    else if !ByteAt(s, next, COMMA) then Err(next, missing)
    else Ok(false, SkipSpace(s, next + 1))
  }

  function ParseValue(s: Bytes, at: nat, depth: nat, o: ParseOptions): (r: Parsed<Value>)
    requires at <= |s|
    ensures at <= r.at <= |s| && (r.Ok? ==> at < r.at)
    decreases |s| - at, 2
  {
    if depth > o.maxDepth then Err(at, DepthExceeded)
    else if at == |s| then Err(at, ExpectedValue)
    else if s[at] == NULL_WORD[0] then Literal(s, at, NULL_WORD, Null)
    else if s[at] == TRUE_WORD[0] then Literal(s, at, TRUE_WORD, Bool(true))
    else if s[at] == FALSE_WORD[0] then Literal(s, at, FALSE_WORD, Bool(false))
    else if s[at] == QUOTE then
      (match ParseString(s, at, o)
       case Ok(bytes, next) => Ok(String(bytes), next)
       case Err(where, why) => Err(where, why))
    else if s[at] == OPEN_BRACKET then ParseArray(s, at, depth, o)
    else if s[at] == OPEN_BRACE then ParseObject(s, at, depth, o)
    else ParseNumber(s, at)
  }

  function ParseArray(s: Bytes, at: nat, depth: nat, o: ParseOptions): (r: Parsed<Value>)
    requires at < |s|
    ensures at <= r.at <= |s| && (r.Ok? ==> at < r.at)
    decreases |s| - at, 1
  {
    var first := SkipSpace(s, at + 1);
    if ByteAt(s, first, CLOSE_BRACKET) then Ok(Array([]), first + 1)
    else ParseItems(s, first, depth, o, [])
  }

  /** The array from an item on, with `items` already read. */
  function ParseItems(s: Bytes, at: nat, depth: nat, o: ParseOptions, items: seq<Value>): (r: Parsed<Value>)
    requires at <= |s|
    ensures at <= r.at <= |s| && (r.Ok? ==> at < r.at)
    decreases |s| - at, 3
  {
    if |items| == o.maxContainerEntries then Err(at, TooManyEntries)
    else match ParseValue(s, at, depth + 1, o)
      case Err(where, why) => Err(where, why)
      case Ok(v, after) =>
        match Separator(s, after, CLOSE_BRACKET, ExpectedCommaOrBracket)
        case Err(where, why) => Err(where, why)
        case Ok(closed, next) =>
          if closed then Ok(Array(items + [v]), next) else ParseItems(s, next, depth, o, items + [v])
  }

  function ParseObject(s: Bytes, at: nat, depth: nat, o: ParseOptions): (r: Parsed<Value>)
    requires at < |s|
    ensures at <= r.at <= |s| && (r.Ok? ==> at < r.at)
    decreases |s| - at, 1
  {
    var first := SkipSpace(s, at + 1);
    if ByteAt(s, first, CLOSE_BRACE) then Ok(Object([]), first + 1)
    else ParseMembers(s, first, depth, o, [])
  }

  /** One member of an object: its key, the colon, its value. */
  function ParseMember(s: Bytes, at: nat, depth: nat, o: ParseOptions): (r: Parsed<Member>)
    requires at <= |s|
    ensures at <= r.at <= |s| && (r.Ok? ==> at < r.at)
    decreases |s| - at, 3
  {
    if !ByteAt(s, at, QUOTE) then Err(at, ExpectedObjectKey)
    else match ParseString(s, at, o)
      case Err(where, why) => Err(where, why)
      case Ok(key, after) =>
        var colon := SkipSpace(s, after);
        if !ByteAt(s, colon, COLON) then Err(colon, ExpectedColon)
        else match ParseValue(s, SkipSpace(s, colon + 1), depth + 1, o)
          case Err(where, why) => Err(where, why)
          case Ok(v, end) => Ok(Member(key, v), end)
  }

  /** The object from a member on, with `members` already in the map. */
  function ParseMembers(s: Bytes, at: nat, depth: nat, o: ParseOptions, members: seq<Member>): (r: Parsed<Value>)
    requires at <= |s|
    ensures at <= r.at <= |s| && (r.Ok? ==> at < r.at)
    decreases |s| - at, 4
  {
    if |members| == o.maxContainerEntries then Err(at, TooManyEntries)
    else match ParseMember(s, at, depth, o)
      case Err(where, why) => Err(where, why)
      case Ok(m, after) =>
        if HasKey(members, m.key) then Err(after, DuplicateKey)
        else
          match Separator(s, after, CLOSE_BRACE, ExpectedCommaOrBrace)
          case Err(where, why) => Err(where, why)
          case Ok(closed, next) =>
            if closed then Ok(Object(Emplaced(members, m)), next)
            else ParseMembers(s, next, depth, o, Emplaced(members, m))
  }

  /** What `parse_json` gives for a whole text. */
  function Parse(s: Bytes, o: ParseOptions): Parsed<Value> {
    match ParseValue(s, SkipSpace(s, 0), 1, o)
    case Err(where, why) => Err(where, why)
    case Ok(v, after) =>
      var end := SkipSpace(s, after);
      if end == |s| then Ok(v, end) else Err(end, TrailingData)
  }

  class Parser {
    const input: Bytes
    const options: ParseOptions
    var at: nat

    ghost predicate Valid()
      reads this
    {
      at <= |input|
    }

    constructor (input: Bytes, options: ParseOptions)
      ensures Valid() && at == 0 && this.input == input && this.options == options
    {
      this.input, this.options, this.at := input, options, 0;
    }

    method Skip()
      requires Valid()
      modifies this`at
      ensures Valid() && at == SkipSpace(input, old(at))
    {
      while at < |input| && IsSpace(input[at])
        invariant Valid() && SkipSpace(input, at) == SkipSpace(input, old(at))
      {
        at := at + 1;
      }
    }

    method Take(wanted: Byte) returns (taken: bool)
      requires Valid()
      modifies this`at
      ensures Valid() && taken == ByteAt(input, old(at), wanted)
      ensures at == if taken then old(at) + 1 else old(at)
    {
      taken := at < |input| && input[at] == wanted;
      if taken { at := at + 1; }
    }

    method TakeWord(word: Bytes, v: Value) returns (r: Parsed<Value>)
      requires Valid() && word != []
      modifies this`at
      ensures Valid() && r == Literal(input, old(at), word, v) && at == r.at
    {
      var end := if at + |word| <= |input| then at + |word| else |input|;
      if input[at..end] != word { return Err(at, InvalidLiteral); }
      at := at + |word|;
      return Ok(v, at);
    }

    method Hex() returns (r: Parsed<nat>)
      requires Valid()
      modifies this`at
      ensures Valid() && r == HexQuad(input, old(at)) && at == r.at
    {
      hide HexValue;
      if |input| - at < 4 { return Err(at, IncompleteUnicodeEscape); }
      var result: nat := 0;
      for i := 0 to 4
        invariant Valid() && at == old(at) + i && at + (4 - i) <= |input| && result < HexLimit(4 - i)
        invariant HexTail(input, old(at), 4, 0) == HexTail(input, at, 4 - i, result)
      {
        var ch := input[at];
        at := at + 1;
        match HexValue(ch) {
          case None => return Err(at, InvalidUnicodeEscape);
          case Some(digit) => result := result * 16 + digit;
        }
      }
      return Ok(result, at);
    }

    method Low() returns (r: Parsed<nat>)
      requires Valid()
      modifies this`at
      ensures Valid() && r == LowSurrogate(input, old(at)) && at == r.at
    {
      var slashed := Take(BACKSLASH);
      if !slashed { return Err(at, MissingLowSurrogate); }
      var letter := Take(LETTER_U);
      if !letter { return Err(at, MissingLowSurrogate); }
      var low := Hex();
      if low.Err? { return low; }
      if low.value < 0xdc00 || low.value > 0xdfff { return Err(at, InvalidLowSurrogate); }
      return low;
    }

    method Unicode() returns (r: Parsed<Utf8.Scalar>)
      requires Valid()
      modifies this`at
      ensures Valid() && r == UnicodeEscape(input, old(at)) && at == r.at
    {
      var unit := Hex();
      if unit.Err? { return Err(unit.at, unit.reason); }
      if 0xd800 <= unit.value <= 0xdbff {
        var low := Low();
        if low.Err? { return Err(low.at, low.reason); }
        return Ok(0x10000 + (unit.value - 0xd800) * 0x400 + (low.value - 0xdc00), at);
      }
      if 0xdc00 <= unit.value <= 0xdfff { return Err(at, UnpairedLowSurrogate); }
      return Ok(unit.value, at);
    }

    method Char() returns (r: Parsed<Bytes>)
      requires Valid() && at < |input| && input[at] != QUOTE
      modifies this`at
      ensures Valid() && r == CharAt(input, old(at)) && at == r.at
    {
      var byte := input[at];
      if byte < 0x20 { return Err(at, ControlCharacter); }
      if byte == BACKSLASH {
        at := at + 1;
        if at == |input| { return Err(at, IncompleteEscape); }
        var escaped := input[at];
        at := at + 1;
        if escaped == LETTER_U {
          var codepoint := Unicode();
          if codepoint.Err? { return Err(codepoint.at, codepoint.reason); }
          var bytes := Utf8.AppendUtf8([], codepoint.value);
          assert bytes == Utf8.Encode(codepoint.value);
          return Ok(bytes, at);
        } else {
          match SimpleEscape(escaped) {
            case Some(b) => return Ok([b], at);
            case None => return Err(at, InvalidEscape);
          }
        }
      } else if byte < 0x80 {
        at := at + 1;
        return Ok([byte], at);
      } else {
        var length := Utf8.Utf8Length(input, at);
        if length == 0 { return Err(at, InvalidUtf8); }
        at := at + length;
        return Ok(input[at - length..at], at);
      }
    }

    method StringValue() returns (r: Parsed<Bytes>)
      requires Valid()
      modifies this`at
      ensures Valid() && r == ParseString(input, old(at), options) && at == r.at
    {
      var started := Take(QUOTE);
      if !started { return Err(at, ExpectedString); }
      var result: Bytes := [];
      while at < |input|
        invariant Valid()
        invariant StringRest(input, old(at) + 1, [], options) == StringRest(input, at, result, options)
        decreases |input| - at
      {
        if input[at] == QUOTE {
          at := at + 1;
          return Ok(result, at);
        }
        var chunk := Char();
        if chunk.Err? { return Err(chunk.at, chunk.reason); }
        result := result + chunk.value;
        if |result| > options.maxStringBytes { return Err(at, StringTooLong); }
      }
      return Err(at, UnterminatedString);
    }

    method NumberValue() returns (r: Parsed<Value>)
      requires Valid()
      modifies this`at
      ensures Valid() && r == ParseNumber(input, old(at)) && at == r.at
    {
      var start := at;
      var scanned := NumberParts(input, start);
      at := scanned.at;
      if scanned.Stop? { return Err(at, scanned.reason); }
      var valid := CheckNumber(input[start..at]);
      if !valid { return Err(at, InvalidNumberText); }
      return Ok(Number(input[start..at]), at);
    }

    method Separate(close: Byte, missing: Reason) returns (r: Parsed<bool>)
      requires Valid()
      modifies this`at
      ensures Valid() && r == Separator(input, old(at), close, missing) && at == r.at
    {
      Skip();
      var closed := Take(close);
      if closed { return Ok(true, at); }
      var comma := Take(COMMA);
      if !comma { return Err(at, missing); }
      Skip();
      return Ok(false, at);
    }

    method ValueAt(depth: nat) returns (r: Parsed<Value>)
      requires Valid()
      modifies this`at
      ensures Valid() && r == ParseValue(input, old(at), depth, options) && at == r.at
      decreases |input| - at, 2
    {
      if depth > options.maxDepth { return Err(at, DepthExceeded); }
      if at == |input| { return Err(at, ExpectedValue); }
      var first := input[at];
      if first == NULL_WORD[0] {
        r := TakeWord(NULL_WORD, Null);
      } else if first == TRUE_WORD[0] {
        r := TakeWord(TRUE_WORD, Bool(true));
      } else if first == FALSE_WORD[0] {
        r := TakeWord(FALSE_WORD, Bool(false));
      } else if first == QUOTE {
        var bytes := StringValue();
        r := match bytes case Ok(b, next) => Ok(String(b), next) case Err(where, why) => Err(where, why);
      } else if first == OPEN_BRACKET {
        r := ArrayValue(depth);
      } else if first == OPEN_BRACE {
        r := ObjectValue(depth);
      } else {
        r := NumberValue();
      }
    }

    method ArrayValue(depth: nat) returns (r: Parsed<Value>)
      requires Valid() && at < |input|
      modifies this`at
      ensures Valid() && r == ParseArray(input, old(at), depth, options) && at == r.at
      decreases |input| - at, 1
    {
      at := at + 1;
      Skip();
      var closed := Take(CLOSE_BRACKET);
      if closed { return Ok(Array([]), at); }
      ghost var first := at;
      var result: seq<Value> := [];
      while true
        invariant Valid() && old(at) < first <= at
        invariant ParseItems(input, first, depth, options, [])
                  == ParseItems(input, at, depth, options, result)
        decreases |input| - at
      {
        if |result| == options.maxContainerEntries { return Err(at, TooManyEntries); }
        var item := ValueAt(depth + 1);
        if item.Err? { return Err(item.at, item.reason); }
        result := result + [item.value];
        var separator := Separate(CLOSE_BRACKET, ExpectedCommaOrBracket);
        if separator.Err? { return Err(separator.at, separator.reason); }
        if separator.value { return Ok(Array(result), at); }
      }
    }

    method MemberAt(depth: nat) returns (r: Parsed<Member>)
      requires Valid()
      modifies this`at
      ensures Valid() && r == ParseMember(input, old(at), depth, options) && at == r.at
      decreases |input| - at, 3
    {
      if at == |input| || input[at] != QUOTE { return Err(at, ExpectedObjectKey); }
      var key := StringValue();
      if key.Err? { return Err(key.at, key.reason); }
      Skip();
      var colon := Take(COLON);
      if !colon { return Err(at, ExpectedColon); }
      Skip();
      var value := ValueAt(depth + 1);
      if value.Err? { return Err(value.at, value.reason); }
      return Ok(Member(key.value, value.value), at);
    }

    method ObjectValue(depth: nat) returns (r: Parsed<Value>)
      requires Valid() && at < |input|
      modifies this`at
      ensures Valid() && r == ParseObject(input, old(at), depth, options) && at == r.at
      decreases |input| - at, 1
    {
      at := at + 1;
      Skip();
      var closed := Take(CLOSE_BRACE);
      if closed { return Ok(Object([]), at); }
      ghost var first := at;
      var result: seq<Member> := [];
      while true
        invariant Valid() && old(at) < first <= at
        invariant ParseMembers(input, first, depth, options, [])
                  == ParseMembers(input, at, depth, options, result)
        decreases |input| - at
      {
        if |result| == options.maxContainerEntries { return Err(at, TooManyEntries); }
        var member := MemberAt(depth);
        if member.Err? { return Err(member.at, member.reason); }
        if HasKey(result, member.value.key) { return Err(at, DuplicateKey); }
        result := Emplaced(result, member.value);
        var separator := Separate(CLOSE_BRACE, ExpectedCommaOrBrace);
        if separator.Err? { return Err(separator.at, separator.reason); }
        if separator.value { return Ok(Object(result), at); }
      }
    }

    method WholeText() returns (r: Parsed<Value>)
      requires Valid() && at == 0
      modifies this`at
      ensures r == Parse(input, options)
    {
      Skip();
      r := ValueAt(1);
      if r.Err? { return; }
      Skip();
      if at != |input| { return Err(at, TrailingData); }
      return Ok(r.value, at);
    }
  }

  /** `parse_json`. */
  method ParseJson(input: Bytes, options: ParseOptions) returns (r: Parsed<Value>)
    ensures r == Parse(input, options)
  {
    var parser := new Parser(input, options);
    r := parser.WholeText();
  }
}
