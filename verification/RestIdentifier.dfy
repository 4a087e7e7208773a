// Reading one part of a request address (rest.cpp), and what may then be written as JSON.
module RestIdentifier {
  import opened Bytes
  import opened Percent
  import Utf8
  import JsonValue
  import JsonWriter
  import JsonParser
  import JsonRoundTrip

  const MAX_ENCODED: nat := 8192

  /** Control characters are refused everywhere, slashes of both kinds in a path segment. */
  predicate IsRefused(b: Byte, segment: bool) {
    b < 0x20 || b == 0x7f || (segment && (b == SLASH || b == BACKSLASH))
  }

  /** The bytes that a text spells. */
  function Spelled(text: Bytes, segment: bool): Option<Bytes> {
    if text == [] then Some([])
    else if text[0] == PERCENT then
      match Escaped(text)
      case None => None
      case Some(b) => if IsRefused(b, segment) then None else Prefixed(b, Spelled(text[3..], segment))
    else if IsRefused(text[0], segment) then None
    else Prefixed(text[0], Spelled(text[1..], segment))
  }

  /** The two segments that mean a place rather than a name. */
  predicate IsDots(text: Bytes) {
    text == [DOT] || text == [DOT, DOT]
  }

  ghost function Identifier(encoded: Bytes, segment: bool, allowEmpty: bool): Option<Bytes> {
    if (!allowEmpty && encoded == []) || |encoded| > MAX_ENCODED then None
    else match Spelled(encoded, segment)
      case None => None
      case Some(text) => if !Utf8.Valid(text) || (segment && IsDots(text)) then None else Some(text)
  }

  method Spell(encoded: Bytes, segment: bool) returns (r: Option<Bytes>)
    ensures r == Spelled(encoded, segment)
  {
    var result: Bytes := [];
    var at := 0;
    assert encoded[0..] == encoded;
    AfterPrefixed([], 0, Spelled(encoded, segment));
    while at < |encoded|
      invariant at <= |encoded| && After(result, Spelled(encoded[at..], segment)) == Spelled(encoded, segment)
    {
      ghost var text := encoded[at..];
      var byte := encoded[at];
      var next := at + 1;
      if byte == PERCENT {
        if |encoded| - at < 3 { return None; }
        var high, low := HexValue(encoded[at + 1]), HexValue(encoded[at + 2]);
        if high.None? || low.None? { return None; }
        byte := high.value * 0x10 + low.value;
        assert Escaped(text) == Some(byte);
        next := at + 3;
      }
      assert text[next - at..] == encoded[next..];
      if IsRefused(byte, segment) { return None; }
      AfterPrefixed(result, byte, Spelled(encoded[next..], segment));
      result := result + [byte];
      at := next;
    }
    assert result + [] == result;
    return Some(result);
  }

  /** `decode`. */
  method DecodeIdentifier(encoded: Bytes, segment: bool, allowEmpty: bool) returns (r: Option<Bytes>)
    ensures r == Identifier(encoded, segment, allowEmpty)
  {
    if (!allowEmpty && encoded == []) || |encoded| > MAX_ENCODED { return None; }
    var spelled := Spell(encoded, segment);
    if spelled.None? { return None; }
    var valid := Utf8.ValidUtf8(spelled.value);
    if !valid { return None; }
    if segment && IsDots(spelled.value) { return None; }
    return spelled;
  }

  /** No byte is refused. */
  predicate IsClean(text: Bytes, segment: bool) {
    forall k | 0 <= k < |text| :: !IsRefused(text[k], segment)
  }

  lemma {:induction false} SpelledIsClean(text: Bytes, segment: bool)
    ensures Spelled(text, segment).Some? ==> IsClean(Spelled(text, segment).value, segment)
  {
    if text != [] && Spelled(text, segment).Some? {
      SpelledIsClean(text[if text[0] == PERCENT then 3 else 1..], segment);
    }
  }

  /** Whatever is accepted is well-formed UTF-8 without control characters, and in a path segment it neither holds a
      slash nor is one of the dots; the JSON writer takes it, and the JSON parser gives it back. */
  lemma AcceptedIsWritable(encoded: Bytes, segment: bool, allowEmpty: bool, o: JsonValue.ParseOptions)
    requires Identifier(encoded, segment, allowEmpty).Some?
    ensures var id := Identifier(encoded, segment, allowEmpty).value;
            var value := JsonValue.String(id);
            && IsClean(id, segment) && (segment ==> !IsDots(id)) && JsonValue.Writable(value)
            && (JsonValue.Fits(value, 1, o) ==>
                  JsonParser.Parse(JsonWriter.Text(value), o) == JsonParser.Ok(value, |JsonWriter.Text(value)|))
  {
    hide JsonParser.Parse, JsonWriter.Text;
    SpelledIsClean(encoded, segment);
    JsonRoundTrip.WrittenParsesBack(JsonValue.String(Identifier(encoded, segment, allowEmpty).value), o);
  }

  lemma {:induction false} EncodedSpells(text: Bytes, segment: bool)
    ensures Spelled(Encode(text), segment) == if IsClean(text, segment) then Some(text) else None
  {
    if text != [] {
      var b, rest := text[0], Encode(text[1..]);
      EncodedSpells(text[1..], segment);
      assert IsClean(text, segment) <==> !IsRefused(b, segment) && IsClean(text[1..], segment) by {
        assert forall k | 1 <= k < |text| :: text[k] == text[1..][k - 1];
      }
      assert text == [b] + text[1..];
      if IsUnreserved(b) {
        assert Encode(text)[1..] == rest;
      } else {
        EscapeIsRead(b, rest);
      }
    }
  }

  /** An identifier that was percent-encoded is given back exactly when it is well-formed UTF-8, clean, not too long
      and, in a path, not one of the dots. */
  lemma EncodedIdentifierComesBack(id: Bytes, segment: bool, allowEmpty: bool)
    ensures Identifier(Encode(id), segment, allowEmpty)
            == if (allowEmpty || id != []) && |Encode(id)| <= MAX_ENCODED && IsClean(id, segment) && Utf8.Valid(id)
                  && !(segment && IsDots(id))
               then Some(id) else None
  {
    EncodedSpells(id, segment);
    EncodedBytes(id);
  }
}
