// write_string and write_value: the compact text of a value, or a throw on a string that is not UTF-8.
module JsonWriter {
  import opened Bytes
  import opened JsonValue
  import Utf8

  const QUOTE: Byte := 0x22
  const BACKSLASH: Byte := 0x5c
  const COMMA: Byte := 0x2c
  const COLON: Byte := 0x3a
  const OPEN_BRACKET: Byte := 0x5b
  const CLOSE_BRACKET: Byte := 0x5d
  const OPEN_BRACE: Byte := 0x7b
  const CLOSE_BRACE: Byte := 0x7d
  const LETTER_U: Byte := 0x75

  const NULL_WORD: Bytes := [0x6e, 0x75, 0x6c, 0x6c]
  const TRUE_WORD: Bytes := [0x74, 0x72, 0x75, 0x65]
  const FALSE_WORD: Bytes := [0x66, 0x61, 0x6c, 0x73, 0x65]

  /** The letter of a two-character escape, where the writer uses one. */
  function ShortEscape(b: Byte): Option<Byte> {
    if b == QUOTE then Some(QUOTE)
    else if b == BACKSLASH then Some(BACKSLASH)
    else if b == 0x08 then Some(0x62)
    else if b == 0x0c then Some(0x66)
    else if b == 0x0a then Some(0x6e)
    else if b == 0x0d then Some(0x72)
    else if b == 0x09 then Some(0x74)
    else None
  }

  /** One digit of `%x`. */
  function LowerHex(digit: nat): Byte
    requires digit < 16
  {
    if digit < 10 then 0x30 + digit else 0x61 + digit - 10
  }

  /** What the writer puts out for the character at `at`. */
  function CharText(value: Bytes, at: nat): (text: Bytes)
    requires at < |value| && Utf8.Length(value, at) > 0
    ensures text != []
  {
    var byte := value[at];
    match ShortEscape(byte)
    case Some(letter) => [BACKSLASH, letter]
    case None =>
      if byte < 0x20 then
        [BACKSLASH, LETTER_U, 0x30, 0x30, LowerHex(byte / 16), LowerHex(byte % 16)]
      else
        value[at..at + Utf8.Length(value, at)]
  }

  ghost function StringTail(value: Bytes, at: nat): Bytes
    requires at <= |value| && Utf8.ValidFrom(value, at)
    decreases |value| - at
  {
    if at == |value| then []
    else CharText(value, at) + StringTail(value, at + Utf8.Length(value, at))
  }

  ghost function StringText(value: Bytes): Bytes
    requires Utf8.Valid(value)
  {
    [QUOTE] + StringTail(value, 0) + [QUOTE]
  }

  ghost function Text(v: Value): (text: Bytes)
    requires Writable(v)
    decreases v, 0
  {
    match v
    case Null => NULL_WORD
    case Bool(flag) => if flag then TRUE_WORD else FALSE_WORD
    case Number(text) => text
    case String(bytes) => StringText(bytes)
    case Array(items) => [OPEN_BRACKET] + ItemsText(items, 0) + [CLOSE_BRACKET]
    case Object(members) => [OPEN_BRACE] + MembersText(members, 0) + [CLOSE_BRACE]
  }

  /** The items from index `from` on, each after the comma that the first one does not get. */
  ghost function ItemsText(items: seq<Value>, from: nat): Bytes
    requires from <= |items| && forall i | 0 <= i < |items| :: Writable(items[i])
    decreases items, |items| - from
  {
    if from == |items| then []
    else (if from == 0 then [] else [COMMA]) + Text(items[from]) + ItemsText(items, from + 1)
  }

  ghost function MemberText(m: Member): Bytes
    requires Utf8.Valid(m.key) && Writable(m.value)
    decreases m, 1
  {
    StringText(m.key) + [COLON] + Text(m.value)
  }

  ghost function MembersText(members: seq<Member>, from: nat): Bytes
    requires from <= |members|
    requires forall i | 0 <= i < |members| :: Utf8.Valid(members[i].key) && Writable(members[i].value)
    decreases members, |members| - from
  {
    if from == |members| then []
    else (if from == 0 then [] else [COMMA]) + MemberText(members[from]) + MembersText(members, from + 1)
  }

  /** One turn of the `write_string` loop; `next == at` is the throw. */
  method WriteChar(value: Bytes, at: nat, output: Bytes) returns (out: Bytes, next: nat)
    requires at < |value|
    ensures next == at + Utf8.Length(value, at)
    ensures Utf8.Length(value, at) > 0 ==> out == output + CharText(value, at)
  {
    var byte := value[at];
    match ShortEscape(byte) {
      case Some(letter) =>
        return output + [BACKSLASH, letter], at + 1;
      case None =>
        if byte < 0x20 {
          return output + [BACKSLASH, LETTER_U, 0x30, 0x30, LowerHex(byte / 16), LowerHex(byte % 16)], at + 1;
        } else if byte < 0x80 {
          return output + [byte], at + 1;
        } else {
          var length := Utf8.Utf8Length(value, at);
          return output + value[at..at + length], at + length;
        }
    }
  }

  /** `write_string`: extends the output, or throws exactly when the string is not UTF-8. */
  method WriteString(value: Bytes, output: Bytes) returns (r: Option<Bytes>)
    ensures r.Some? <==> Utf8.Valid(value)
    ensures r.Some? ==> r.value == output + StringText(value)
  {
    hide CharText;
    var out := output + [QUOTE];
    var at := 0;
    while at < |value|
      invariant at <= |value|
      invariant Utf8.Valid(value) == Utf8.ValidFrom(value, at)
      invariant Utf8.Valid(value) ==> out + StringTail(value, at) == output + [QUOTE] + StringTail(value, 0)
    {
      var longer, next := WriteChar(value, at, out);
      if next == at { return None; }
      if Utf8.Valid(value) {
        Associate(out, CharText(value, at), StringTail(value, next));
      }
      out, at := longer, next;
    }
    assert out + StringTail(value, at) == out;
    assert out + [QUOTE] == output + StringText(value);
    return Some(out + [QUOTE]);
  }

  /** `write_value`: extends the output by the text, or throws exactly when some string is not UTF-8. */
  method WriteValue(value: Value, output: Bytes) returns (r: Option<Bytes>)
    ensures r.Some? <==> Writable(value)
    ensures r.Some? ==> r.value == output + Text(value)
    decreases value, 0
  {
    hide ItemsText, MembersText, StringText;
    match value {
      case Null => return Some(output + NULL_WORD);
      case Bool(flag) => return Some(output + if flag then TRUE_WORD else FALSE_WORD);
      case Number(text) => return Some(output + text);
      case String(bytes) => r := WriteString(bytes, output);
      case Array(items) =>
        r := WriteItems(items, output + [OPEN_BRACKET]);
        if r.Some? { r := Some(r.value + [CLOSE_BRACKET]); }
      case Object(members) =>
        r := WriteMembers(members, output + [OPEN_BRACE]);
        if r.Some? { r := Some(r.value + [CLOSE_BRACE]); }
    }
  }

  method WriteItems(items: seq<Value>, output: Bytes) returns (r: Option<Bytes>)
    ensures r.Some? <==> forall i | 0 <= i < |items| :: Writable(items[i])
    ensures r.Some? ==> r.value == output + ItemsText(items, 0)
    decreases items, 0
  {
    hide Text, Writable;
    var out := output;
    var first := true;
    for at := 0 to |items|
      invariant first <==> at == 0
      invariant forall i | 0 <= i < at :: Writable(items[i])
      invariant (forall i | 0 <= i < |items| :: Writable(items[i]))
                ==> out + ItemsText(items, at) == output + ItemsText(items, 0)
    {
      ghost var before := out;
      if !first { out := out + [COMMA]; }
      first := false;
      var written := WriteValue(items[at], out);
      if written.None? { return None; }
      out := written.value;
      if forall i | 0 <= i < |items| :: Writable(items[i]) {
        assert before + ItemsText(items, at) == out + ItemsText(items, at + 1);
      }
    }
    return Some(out);
  }

  lemma MemberFollows(members: seq<Member>, at: nat, before: Bytes, out: Bytes)
    requires at < |members|
    requires forall i | 0 <= i < |members| :: Utf8.Valid(members[i].key) && Writable(members[i].value)
    requires out == (if at == 0 then before else before + [COMMA])
                    + StringText(members[at].key) + [COLON] + Text(members[at].value)
    ensures before + MembersText(members, at) == out + MembersText(members, at + 1)
  {
    var comma: Bytes := if at == 0 then [] else [COMMA];
    assert out == before + (comma + MemberText(members[at]));
    Associate(before, comma + MemberText(members[at]), MembersText(members, at + 1));
  }

  method WriteMembers(members: seq<Member>, output: Bytes) returns (r: Option<Bytes>)
    ensures r.Some? <==> forall i | 0 <= i < |members| :: Utf8.Valid(members[i].key) && Writable(members[i].value)
    ensures r.Some? ==> r.value == output + MembersText(members, 0)
    decreases members, 0
  {
    var out := output;
    var first := true;
    for at := 0 to |members|
      invariant first <==> at == 0
      invariant forall i | 0 <= i < at :: Utf8.Valid(members[i].key) && Writable(members[i].value)
      invariant (forall i | 0 <= i < |members| :: Utf8.Valid(members[i].key) && Writable(members[i].value))
                ==> out + MembersText(members, at) == output + MembersText(members, 0)
    {
      ghost var before := out;
      if !first { out := out + [COMMA]; }
      first := false;
      var key := WriteString(members[at].key, out);
      if key.None? { return None; }
      out := key.value + [COLON];
      var written := WriteValue(members[at].value, out);
      if written.None? { return None; }
      out := written.value;
      if forall i | 0 <= i < |members| :: Utf8.Valid(members[i].key) && Writable(members[i].value) {
        MemberFollows(members, at, before, out);
      }
    }
    return Some(out);
  }

  /** `write_json`. */
  method WriteJson(value: Value) returns (r: Option<Bytes>)
    ensures r.Some? <==> Writable(value)
    ensures r.Some? ==> r.value == Text(value)
  {
    r := WriteValue(value, []);
  }
}
