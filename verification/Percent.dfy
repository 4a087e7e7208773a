// Percent-encoding as mcp.cpp, book_source.cpp and rest.cpp do it (RFC 3986, sections 2.1 and 2.3).
module Percent {
  import opened Bytes

  const PERCENT: Byte := '%' as int
  const SLASH: Byte := '/' as int
  const BACKSLASH: Byte := '\\' as int
  const DOT: Byte := '.' as int

  predicate IsUnreserved(b: Byte) {
    || 'A' as int <= b <= 'Z' as int || 'a' as int <= b <= 'z' as int || '0' as int <= b <= '9' as int
    || b == '-' as int || b == '.' as int || b == '_' as int || b == '~' as int
  }

  function HexDigit(v: nat): Byte
    requires v < 0x10
  {
    if v < 10 then '0' as int + v else 'A' as int + (v - 10)
  }

  function EncodeByte(b: Byte): Bytes {
    if IsUnreserved(b) then [b] else [PERCENT, HexDigit(b / 0x10), HexDigit(b % 0x10)]
  }

  function Encode(input: Bytes): Bytes {
    if input == [] then [] else EncodeByte(input[0]) + Encode(input[1..])
  }

  /** `uri_encode` and `encode_segment`. */
  method EncodeSegment(input: Bytes) returns (result: Bytes)
    ensures result == Encode(input)
  {
    result := [];
    for at := 0 to |input|
      invariant result + Encode(input[at..]) == Encode(input)
    {
      var ch := input[at];
      Associate(result, EncodeByte(ch), Encode(input[at + 1..]));
      assert input[at..][1..] == input[at + 1..];
      if IsUnreserved(ch) {
        result := result + [ch];
      } else {
        result := result + [PERCENT, HexDigit(ch / 0x10), HexDigit(ch % 0x10)];
      }
    }
    assert result + [] == result;
  }

  /** What an encoded text is made of: no slash, no question mark, no hash sign, no NUL. */
  lemma {:induction false} EncodedBytes(input: Bytes)
    ensures forall b | b in Encode(input) :: IsUnreserved(b) || b == PERCENT
    ensures |input| <= |Encode(input)|
  {
    if input != [] { EncodedBytes(input[1..]); }
  }

  /** The value of the two hex digits after a percent sign. */
  function Escaped(text: Bytes): (b: Option<Byte>) {
    if |text| < 3 then None
    else match (HexValue(text[1]), HexValue(text[2]))
      case (Some(high), Some(low)) => Some(high * 0x10 + low)
      case _ => None
  }

  lemma EscapeIsRead(b: Byte, rest: Bytes)
    ensures var text := [PERCENT, HexDigit(b / 0x10), HexDigit(b % 0x10)] + rest;
            Escaped(text) == Some(b) && text[3..] == rest && text[0] == PERCENT
  {
  }

  // ----- the strict reader of mcp.cpp

  function Prefixed(b: Byte, rest: Option<Bytes>): Option<Bytes> {
    match rest
    case None => None
    case Some(more) => Some([b] + more)
  }

  /** What a strict reader makes of a text; an escaped slash or NUL is refused. */
  function DecodeStrict(text: Bytes): Option<Bytes> {
    if text == [] then Some([])
    else if text[0] != PERCENT then Prefixed(text[0], DecodeStrict(text[1..]))
    else match Escaped(text)
      case None => None
      case Some(b) => if b == SLASH || b == 0 then None else Prefixed(b, DecodeStrict(text[3..]))
  }

  function After(result: Bytes, rest: Option<Bytes>): Option<Bytes> {
    match rest
    case None => None
    case Some(more) => Some(result + more)
  }

  lemma AfterPrefixed(result: Bytes, b: Byte, rest: Option<Bytes>)
    ensures After(result, Prefixed(b, rest)) == After(result + [b], rest)
    ensures After([], rest) == rest
  {
    if rest.Some? {
      Associate(result, [b], rest.value);
      assert [] + rest.value == rest.value;
    }
  }

  /** `uri_decode`. */
  method UriDecode(input: Bytes) returns (r: Option<Bytes>)
    ensures r == DecodeStrict(input)
  {
    var result: Bytes := [];
    var at := 0;
    assert input[0..] == input;
    AfterPrefixed([], 0, DecodeStrict(input));
    while at < |input|
      invariant at <= |input| && After(result, DecodeStrict(input[at..])) == DecodeStrict(input)
    {
      ghost var text := input[at..];
      if input[at] != PERCENT {
        AfterPrefixed(result, input[at], DecodeStrict(text[1..]));
        assert text[1..] == input[at + 1..];
        result := result + [input[at]];
        at := at + 1;
      } else {
        if at + 2 >= |input| { return None; }
        var high, low := HexValue(input[at + 1]), HexValue(input[at + 2]);
        if high.None? || low.None? { return None; }
        var decoded: Byte := high.value * 0x10 + low.value;
        assert Escaped(text) == Some(decoded);
        if decoded == SLASH || decoded == 0 { return None; }
        AfterPrefixed(result, decoded, DecodeStrict(text[3..]));
        assert text[3..] == input[at + 3..];
        result := result + [decoded];
        at := at + 3;
      }
    }
    assert result + [] == result;
    return Some(result);
  }

  /** An identifier that survives a path: no slash and no NUL. */
  predicate IsPathSafe(id: Bytes) {
    forall k | 0 <= k < |id| :: id[k] != SLASH && id[k] != 0
  }

  /** The strict reader undoes the encoding exactly where no slash and no NUL was encoded, and refuses otherwise. */
  lemma {:induction false} StrictRoundTrip(input: Bytes)
    ensures DecodeStrict(Encode(input)) == if IsPathSafe(input) then Some(input) else None
  {
    if input != [] {
      var b, rest := input[0], Encode(input[1..]);
      StrictRoundTrip(input[1..]);
      assert IsPathSafe(input) <==> b != SLASH && b != 0 && IsPathSafe(input[1..]) by {
        assert forall k | 1 <= k < |input| :: input[k] == input[1..][k - 1];
      }
      assert input == [b] + input[1..];
      if IsUnreserved(b) {
        assert Encode(input)[1..] == rest;
      } else {
        EscapeIsRead(b, rest);
      }
    }
  }

  // ----- the lenient reader of book_source.cpp

  /** What a lenient reader makes of a text: a percent sign that no escape follows stands for itself. */
  function DecodeLenient(text: Bytes): Bytes {
    if text == [] then []
    else if text[0] == PERCENT && Escaped(text).Some? then [Escaped(text).value] + DecodeLenient(text[3..])
    else [text[0]] + DecodeLenient(text[1..])
  }

  /** `decode_segment`. */
  method DecodeSegment(value: Bytes) returns (out: Bytes)
    ensures out == DecodeLenient(value)
  {
    out := [];
    var i := 0;
    assert value[0..] == value;
    while i < |value|
      invariant i <= |value| && out + DecodeLenient(value[i..]) == DecodeLenient(value)
    {
      ghost var text := value[i..];
      assert text[1..] == value[i + 1..];
      if value[i] == PERCENT && i + 2 < |value| {
        var high, low := HexValue(value[i + 1]), HexValue(value[i + 2]);
        if high.Some? && low.Some? {
          var decoded: Byte := high.value * 0x10 + low.value;
          assert Escaped(text) == Some(decoded) && text[3..] == value[i + 3..];
          Associate(out, [decoded], DecodeLenient(value[i + 3..]));
          out := out + [decoded];
          i := i + 3;
          continue;
        }
      }
      Associate(out, [value[i]], DecodeLenient(value[i + 1..]));
      out := out + [value[i]];
      i := i + 1;
    }
    assert out + [] == out;
  }

  /** The lenient reader undoes the encoding of every text. */
  lemma {:induction false} LenientRoundTrip(input: Bytes)
    ensures DecodeLenient(Encode(input)) == input
  {
    if input != [] {
      var b, rest := input[0], Encode(input[1..]);
      LenientRoundTrip(input[1..]);
      assert input == [b] + input[1..];
      if IsUnreserved(b) {
        assert Encode(input)[1..] == rest;
      } else {
        EscapeIsRead(b, rest);
      }
    }
  }
}
