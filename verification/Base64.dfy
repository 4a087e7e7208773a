// Base64 as mcp.cpp writes and reads it (RFC 4648, section 4).
module Base64 {
  import opened Bytes

  const PAD: Byte := '=' as int

  type Sextet = v: int | 0 <= v < 0x40

  /** The alphabet. */
  function Digit(v: Sextet): Byte {
    if v < 26 then 'A' as int + v
    else if v < 52 then 'a' as int + (v - 26)
    else if v < 62 then '0' as int + (v - 52)
    else if v == 62 then '+' as int
    else '/' as int
  }

  /** The place of a byte in the alphabet. */
  function Find(b: Byte): (v: Option<Sextet>)
    ensures v.Some? ==> Digit(v.value) == b
  {
    if 'A' as int <= b <= 'Z' as int then Some(b - 'A' as int)
    else if 'a' as int <= b <= 'z' as int then Some(b - 'a' as int + 26)
    else if '0' as int <= b <= '9' as int then Some(b - '0' as int + 52)
    else if b == '+' as int then Some(62)
    else if b == '/' as int then Some(63)
    else None
  }

  lemma DigitsAreFound(v: Sextet)
    ensures Find(Digit(v)) == Some(v) && Digit(v) != PAD
  {
  }

  /** Bits `shift` to `shift + 5` of a 24-bit value. */
  function SextetOf(value: nat, shift: nat): Sextet
    requires value < 0x1_00_0000 && shift in {0x4_0000, 0x1000, 0x40, 1}
  {
    value / shift % 0x40
  }

  /** The value of up to three bytes. */
  function ValueOf(input: Bytes): (value: nat)
    requires 0 < |input| <= 3
    ensures value < 0x1_00_0000
  {
    (input[0] as nat) * 0x1_0000
    + (if |input| > 1 then (input[1] as nat) * 0x100 else 0)
    + (if |input| > 2 then input[2] as nat else 0)
  }

  /** The four bytes of one group; padding stands for the bytes that are not there. */
  function Group(input: Bytes): (group: Bytes)
    requires 0 < |input| <= 3
    ensures |group| == 4
  {
    var value := ValueOf(input);
    [Digit(SextetOf(value, 0x4_0000)), Digit(SextetOf(value, 0x1000)),
     if |input| > 1 then Digit(SextetOf(value, 0x40)) else PAD,
     if |input| > 2 then Digit(SextetOf(value, 1)) else PAD]
  }

  function Encode(input: Bytes): (text: Bytes)
    ensures |text| == (|input| + 2) / 3 * 4
  {
    if input == [] then []
    else if |input| <= 3 then Group(input)
    else Group(input[..3]) + Encode(input[3..])
  }

  /** The text of the bytes from `at` on; nothing past the end. */
  function EncodeFrom(input: Bytes, at: nat): Bytes {
    if at <= |input| then Encode(input[at..]) else []
  }

  /** The group that starts at `at`, and what follows it. */
  lemma GroupAt(input: Bytes, at: nat)
    requires at < |input|
    ensures var n := if |input| - at > 3 then 3 else |input| - at;
            EncodeFrom(input, at) == Group(input[at..at + n]) + EncodeFrom(input, at + 3)
  {
    var rest := input[at..];
    if |input| - at > 3 {
      assert rest[..3] == input[at..at + 3] && rest[3..] == input[at + 3..];
    } else {
      assert rest == input[at..at + |rest|];
      assert Group(rest) + [] == Group(rest);
    }
  }

  method EncodeGroup(input: Bytes, at: nat) returns (group: Bytes)
    requires at < |input|
    ensures group == Group(input[at..at + if |input| - at > 3 then 3 else |input| - at])
  {
    var remaining := |input| - at;
    var value: nat := (input[at] as nat) * 0x1_0000;
    if remaining > 1 { value := value + (input[at + 1] as nat) * 0x100; }
    if remaining > 2 { value := value + input[at + 2]; }
    group := [Digit(SextetOf(value, 0x4_0000)), Digit(SextetOf(value, 0x1000))];
    group := group + [if remaining > 1 then Digit(SextetOf(value, 0x40)) else PAD];
    group := group + [if remaining > 2 then Digit(SextetOf(value, 1)) else PAD];
  }

  /** `base64_encode`. */
  method Base64Encode(input: Bytes) returns (result: Bytes)
    ensures result == Encode(input)
  {
    hide Encode, Group;
    result := [];
    var at := 0;
    assert input[0..] == input;
    while at < |input|
      invariant result + EncodeFrom(input, at) == Encode(input)
    {
      GroupAt(input, at);
      var group := EncodeGroup(input, at);
      Associate(result, group, EncodeFrom(input, at + 3));
      result := result + group;
      at := at + 3;
    }
    NothingLeft(input, at);
    assert result + [] == result;
  }

  lemma NothingLeft(input: Bytes, at: nat)
    requires at >= |input|
    ensures EncodeFrom(input, at) == []
  {
  }

  // ----- decoding

  /** What the first bytes of a group have read: their value, and how many of them were padding. */
  datatype Scan = Scan(value: nat, padding: nat)

  function ScanGroup(group: Bytes, k: nat): (scan: Option<Scan>)
    requires k <= |group| <= 4
    ensures scan.Some? ==> scan.value.padding + 2 <= if k < 2 then 2 else k
    ensures scan.Some? ==> scan.value.value < Power64(k)
  {
    if k == 0 then Some(Scan(0, 0))
    else match ScanGroup(group, k - 1)
      case None => None
      case Some(before) =>
        var ch := group[k - 1];
        if ch == PAD then if k - 1 < 2 then None else Some(Scan(before.value * 0x40, before.padding + 1))
        else if before.padding != 0 then None
        else match Find(ch)
          case None => None
          case Some(v) => Some(Scan(before.value * 0x40 + v, 0))
  }

  function Power64(k: nat): nat {
    if k == 0 then 1 else 0x40 * Power64(k - 1)
  }

  /** The bytes of a value, without as many as the padding stands for. */
  function BytesOf(scan: Scan): Bytes
    requires scan.value < 0x100_0000
  {
    [scan.value / 0x1_0000]
    + (if scan.padding < 2 then [scan.value / 0x100 % 0x100] else [])
    + (if scan.padding < 1 then [scan.value % 0x100] else [])
  }

  function DecodeGroup(group: Bytes): Option<Bytes>
    requires |group| == 4
  {
    assert Power64(4) == 0x100_0000 by { assert Power64(1) == 0x40 && Power64(2) == 0x1000 && Power64(3) == 0x4_0000; }
    match ScanGroup(group, 4)
    case None => None
    case Some(scan) => Some(BytesOf(scan))
  }

  function DecodeFrom(text: Bytes, at: nat): Option<Bytes>
    requires |text| % 4 == 0 && at % 4 == 0 && at <= |text|
    decreases |text| - at
  {
    if at == |text| then Some([])
    else match DecodeGroup(text[at..at + 4])
      case None => None
      case Some(bytes) => Prepend(bytes, DecodeFrom(text, at + 4))
  }

  function Prepend(bytes: Bytes, rest: Option<Bytes>): Option<Bytes> {
    match rest
    case None => None
    case Some(more) => Some(bytes + more)
  }

  function Decode(text: Bytes): Option<Bytes> {
    if |text| % 4 != 0 then None else DecodeFrom(text, 0)
  }

  method ReadGroup(input: Bytes, at: nat) returns (scan: Option<Scan>)
    requires at + 4 <= |input|
    ensures scan == ScanGroup(input[at..at + 4], 4)
  {
    var value: nat, padding: nat := 0, 0;
    ghost var group := input[at..at + 4];
    for index := 0 to 4
      invariant ScanGroup(group, index) == Some(Scan(value, padding))
    {
      var ch := input[at + index];
      assert ch == group[index];
      if ScanGroup(group, index + 1).None? { NoneStays(group, index + 1); }
      if ch == PAD {
        if index < 2 { return None; }
        value, padding := value * 0x40, padding + 1;
      } else {
        if padding != 0 { return None; }
        var found := Find(ch);
        if found.None? { return None; }
        value := value * 0x40 + found.value;
      }
    }
    return Some(Scan(value, padding));
  }

  method PushBytes(result: Bytes, scan: Scan) returns (longer: Bytes)
    requires scan.value < 0x100_0000
    ensures longer == result + BytesOf(scan)
  {
    longer := result + [scan.value / 0x1_0000];
    if scan.padding < 2 { longer := longer + [scan.value / 0x100 % 0x100]; }
    if scan.padding < 1 { longer := longer + [scan.value % 0x100]; }
  }

  lemma {:induction false} NoneStays(group: Bytes, k: nat)
    requires k <= |group| == 4 && ScanGroup(group, k).None?
    ensures ScanGroup(group, 4).None?
    decreases 4 - k
  {
    if k < 4 { NoneStays(group, k + 1); }
  }

  /** `base64_decode`. */
  method Base64Decode(input: Bytes) returns (r: Option<Bytes>)
    ensures r == Decode(input)
  {
    hide ScanGroup, BytesOf;
    if |input| % 4 != 0 { return None; }
    var result: Bytes := [];
    var at := 0;
    EmptyFirst(DecodeFrom(input, 0));
    while at < |input|
      invariant at % 4 == 0 && at <= |input|
      invariant DecodeFrom(input, 0) == Prepend(result, DecodeFrom(input, at))
    {
      var scan := ReadGroup(input, at);
      if scan.None? { return None; }
      assert DecodeGroup(input[at..at + 4]) == Some(BytesOf(scan.value));
      PrependTwice(result, BytesOf(scan.value), DecodeFrom(input, at + 4));
      result := PushBytes(result, scan.value);
      at := at + 4;
    }
    assert result + [] == result;
    return Some(result);
  }

  lemma EmptyFirst(rest: Option<Bytes>)
    ensures Prepend([], rest) == rest
  {
    if rest.Some? { assert [] + rest.value == rest.value; }
  }

  lemma PrependTwice(a: Bytes, b: Bytes, rest: Option<Bytes>)
    ensures Prepend(a, Prepend(b, rest)) == Prepend(a + b, rest)
  {
    if rest.Some? { Associate(a, b, rest.value); }
  }

  // ----- one undoes the other

  lemma Quotients(value: nat)
    ensures value / 0x1000 == value / 0x40 / 0x40 && value / 0x4_0000 == value / 0x1000 / 0x40
  {
    assert value == 0x40 * (value / 0x40) + value % 0x40;
    assert value == 0x1000 * (value / 0x1000) + value % 0x1000;
  }

  /** Six bits at a time, a value is read back. */
  lemma Regroup(value: nat)
    requires value < 0x100_0000
    ensures value / 0x4_0000 == SextetOf(value, 0x4_0000)
    ensures value / 0x1000 == value / 0x4_0000 * 0x40 + SextetOf(value, 0x1000)
    ensures value / 0x40 == value / 0x1000 * 0x40 + SextetOf(value, 0x40)
    ensures value == value / 0x40 * 0x40 + SextetOf(value, 1)
  {
    Quotients(value);
  }

  lemma ByteFields(a: Byte, b: Byte, c: Byte)
    ensures var value: nat := (a as nat) * 0x1_0000 + (b as nat) * 0x100 + c;
            value / 0x1_0000 == a && value / 0x100 % 0x100 == b && value % 0x100 == c
  {
    var high: nat := (a as nat) * 0x100 + b;
    var value: nat := high * 0x100 + c;
    assert value / 0x100 == high && value / 0x1_0000 == high / 0x100;
  }

  /** The bytes of a value of up to three bytes. */
  lemma ValueComesBack(input: Bytes)
    requires 0 < |input| <= 3
    ensures BytesOf(Scan(ValueOf(input), 3 - |input|)) == input
  {
    ByteFields(input[0], if |input| > 1 then input[1] else 0, if |input| > 2 then input[2] else 0);
  }

  /** Four digits, the last ones padding, read as the value that they spell. */
  lemma DigitsScan(group: Bytes, a: Sextet, b: Sextet, c: Sextet, d: Sextet, n: nat)
    requires 1 <= n <= 3 && (n < 3 ==> d == 0) && (n < 2 ==> c == 0)
    requires group == [Digit(a), Digit(b), if n > 1 then Digit(c) else PAD, if n > 2 then Digit(d) else PAD]
    ensures var value: nat := (((a as nat) * 0x40 + b) * 0x40 + c) * 0x40 + d;
            ScanGroup(group, 4) == Some(Scan(value, 3 - n))
  {
    hide Digit, Find;
    DigitsAreFound(a);
    DigitsAreFound(b);
    DigitsAreFound(c);
    DigitsAreFound(d);
    var high: nat := (a as nat) * 0x40 + b;
    assert ScanGroup(group, 1) == Some(Scan(a, 0));
    assert ScanGroup(group, 2) == Some(Scan(high, 0));
    assert ScanGroup(group, 3) == Some(Scan(high * 0x40 + c, if n > 1 then 0 else 1));
  }

  lemma LowBitsMissing(input: Bytes)
    requires 0 < |input| <= 3
    ensures |input| < 3 ==> SextetOf(ValueOf(input), 1) == 0
    ensures |input| < 2 ==> SextetOf(ValueOf(input), 0x40) == 0
  {
    var value := ValueOf(input);
    if |input| == 1 {
      assert value == 0x40 * ((input[0] as nat) * 0x400);
      assert value / 0x40 == 0x40 * ((input[0] as nat) * 0x10);
    } else if |input| == 2 {
      assert value == 0x40 * ((input[0] as nat) * 0x400 + (input[1] as nat) * 4);
    }
  }

  lemma GroupComesBack(input: Bytes)
    requires 0 < |input| <= 3
    ensures DecodeGroup(Group(input)) == Some(input)
  {
    hide ScanGroup, SextetOf, Digit, BytesOf;
    var value := ValueOf(input);
    LowBitsMissing(input);
    Regroup(value);
    DigitsScan(Group(input), SextetOf(value, 0x4_0000), SextetOf(value, 0x1000), SextetOf(value, 0x40), SextetOf(value, 1),
               |input|);
    ValueComesBack(input);
  }

  /** Decoding what was encoded gives the bytes back, whatever they are. */
  lemma {:induction false} EncodedDecodes(input: Bytes)
    ensures Decode(Encode(input)) == Some(input)
  {
    if input == [] {
    } else if |input| <= 3 {
      var text := Encode(input);
      GroupComesBack(input);
      assert text[0..4] == text && input + [] == input;
      assert DecodeFrom(text, 4) == Some([]);
    } else {
      var group, rest := Group(input[..3]), Encode(input[3..]);
      GroupComesBack(input[..3]);
      EncodedDecodes(input[3..]);
      DecodeSplits(group, rest);
      assert input == input[..3] + input[3..];
    }
  }

  /** A group is decoded, and then the rest is. */
  lemma DecodeSplits(group: Bytes, rest: Bytes)
    requires |group| == 4 && |rest| % 4 == 0
    ensures Decode(group + rest)
            == match DecodeGroup(group) case None => None case Some(bytes) => Prepend(bytes, Decode(rest))
  {
    hide DecodeGroup;
    var text := group + rest;
    assert text[0..4] == group;
    DecodeShifts(group, rest, 0);
  }

  lemma {:induction false} DecodeShifts(group: Bytes, rest: Bytes, at: nat)
    requires |group| == 4 && |rest| % 4 == 0 && at % 4 == 0 && at <= |rest|
    ensures DecodeFrom(group + rest, at + 4) == DecodeFrom(rest, at)
    decreases |rest| - at
  {
    if at < |rest| {
      assert (group + rest)[at + 4..at + 8] == rest[at..at + 4];
      DecodeShifts(group, rest, at + 4);
    }
  }

  // ----- which texts are their own encoding

  /** Padding ends the text, and the bits that it drops are zero. */
  predicate IsCanonical(text: Bytes)
    requires |text| % 4 == 0
  {
    && (forall k | 0 <= k < |text| - 4 :: text[k] != PAD)
    && (text != [] ==> DropsNothing(text[|text| - 4..]))
  }

  predicate DropsNothing(group: Bytes)
    requires |group| == 4
  {
    if group[2] == PAD then Find(group[1]).Some? && Find(group[1]).value % 0x10 == 0
    else if group[3] == PAD then Find(group[2]).Some? && Find(group[2]).value % 4 == 0
    else true
  }

  /** Dividing a value back into the digits it was read from. */
  lemma DigitsOf(a: Sextet, b: Sextet, c: Sextet, d: Sextet)
    ensures var value: nat := (((a as nat) * 0x40 + b) * 0x40 + c) * 0x40 + d;
            && value < 0x100_0000
            && SextetOf(value, 0x4_0000) == a && SextetOf(value, 0x1000) == b
            && SextetOf(value, 0x40) == c && SextetOf(value, 1) == d
  {
    var high: nat := (a as nat) * 0x40 + b;
    var value: nat := (high * 0x40 + c) * 0x40 + d;
    Quotients(value);
    assert value / 0x40 == high * 0x40 + c;
    assert value / 0x1000 == high;
    assert value / 0x4_0000 == a;
  }

  /** The digits of a group that decodes. */
  lemma GroupDigits(group: Bytes) returns (a: Sextet, b: Sextet, c: Sextet, d: Sextet, n: nat)
    requires |group| == 4 && DecodeGroup(group).Some?
    ensures 1 <= n <= 3 && (n < 3 ==> d == 0) && (n < 2 ==> c == 0)
    ensures group == [Digit(a), Digit(b), if n > 1 then Digit(c) else PAD, if n > 2 then Digit(d) else PAD]
  {
    hide Digit, Find;
    assert ScanGroup(group, 4).Some? && ScanGroup(group, 3).Some? && ScanGroup(group, 2).Some? && ScanGroup(group, 1).Some?;
    a, b, c, d, n := Find(group[0]).value, Find(group[1]).value, 0, 0, 1;
    if group[2] != PAD {
      c, n := Find(group[2]).value, 2;
      if group[3] != PAD { d, n := Find(group[3]).value, 3; }
    }
  }

  /** The bytes of a value are all of it exactly when the bytes left out are zero. */
  lemma BytesAreTheValue(value: nat, n: nat)
    requires value < 0x100_0000 && 1 <= n <= 3
    ensures var bytes := BytesOf(Scan(value, 3 - n));
            && |bytes| == n && ValueOf(bytes) <= value
            && (ValueOf(bytes) == value <==> value % (if n == 1 then 0x1_0000 else if n == 2 then 0x100 else 1) == 0)
  {
    assert value == value / 0x100 * 0x100 + value % 0x100;
    assert value / 0x100 == value / 0x1_0000 * 0x100 + value / 0x100 % 0x100;
    assert value % 0x1_0000 == value / 0x100 % 0x100 * 0x100 + value % 0x100;
  }

  /** The group with these digits, the last ones left out. */
  function Spelled(a: Sextet, b: Sextet, c: Sextet, d: Sextet, n: nat): Bytes {
    [Digit(a), Digit(b), if n > 1 then Digit(c) else PAD, if n > 2 then Digit(d) else PAD]
  }

  function Joined(a: Sextet, b: Sextet, c: Sextet, d: Sextet): nat {
    (((a as nat) * 0x40 + b) * 0x40 + c) * 0x40 + d
  }

  /** Bytes are encoded as these digits exactly when their value is the digits'. */
  lemma GroupSpells(bytes: Bytes, a: Sextet, b: Sextet, c: Sextet, d: Sextet)
    requires 1 <= |bytes| <= 3 && (|bytes| < 3 ==> d == 0) && (|bytes| < 2 ==> c == 0)
    ensures Group(bytes) == Spelled(a, b, c, d, |bytes|) <==> ValueOf(bytes) == Joined(a, b, c, d)
  {
    hide Digit, Find, SextetOf, ValueOf;
    var value := ValueOf(bytes);
    DigitsOf(a, b, c, d);
    LowBitsMissing(bytes);
    Regroup(value);
    if Group(bytes) == Spelled(a, b, c, d, |bytes|) {
      DigitsDiffer(SextetOf(value, 0x4_0000), a, Group(bytes), Spelled(a, b, c, d, |bytes|), 0);
      DigitsDiffer(SextetOf(value, 0x1000), b, Group(bytes), Spelled(a, b, c, d, |bytes|), 1);
      if |bytes| > 1 { DigitsDiffer(SextetOf(value, 0x40), c, Group(bytes), Spelled(a, b, c, d, |bytes|), 2); }
      if |bytes| > 2 { DigitsDiffer(SextetOf(value, 1), d, Group(bytes), Spelled(a, b, c, d, |bytes|), 3); }
    }
  }

  lemma DigitsDiffer(v: Sextet, w: Sextet, one: Bytes, other: Bytes, k: nat)
    requires one == other && k < |one| && one[k] == Digit(v) && other[k] == Digit(w)
    ensures v == w
  {
    DigitsAreFound(v);
    DigitsAreFound(w);
  }

  lemma DroppedBits(a: Sextet, b: Sextet, c: Sextet, d: Sextet, n: nat)
    requires 1 <= n <= 3 && (n < 3 ==> d == 0) && (n < 2 ==> c == 0)
    ensures Joined(a, b, c, d) % (if n == 1 then 0x1_0000 else if n == 2 then 0x100 else 1) == 0
            <==> (n == 1 ==> b % 0x10 == 0) && (n == 2 ==> c % 4 == 0)
  {
  }

  /** A group that decodes is the encoding of its bytes exactly when it drops no bits. */
  lemma GroupIsItsEncoding(group: Bytes)
    requires |group| == 4 && DecodeGroup(group).Some?
    ensures var bytes := DecodeGroup(group).value;
            && 1 <= |bytes| <= 3 && (|bytes| == 3 <==> group[3] != PAD)
            && (Group(bytes) == group <==> DropsNothing(group))
  {
    hide Digit, Find, SextetOf, ScanGroup, BytesOf, ValueOf;
    var a, b, c, d, n := GroupDigits(group);
    DigitsScan(group, a, b, c, d, n);
    DigitsOf(a, b, c, d);
    DigitsAreFound(b);
    DigitsAreFound(c);
    DigitsAreFound(d);
    var bytes := DecodeGroup(group).value;
    BytesAreTheValue(Joined(a, b, c, d), n);
    GroupSpells(bytes, a, b, c, d);
    DroppedBits(a, b, c, d, n);
  }

  /** Encoding what was decoded gives the text back exactly when the text is canonical. */
  lemma {:induction false} DecodedEncodes(text: Bytes)
    requires Decode(text).Some?
    ensures Encode(Decode(text).value) == text <==> IsCanonical(text)
    decreases |text|
  {
    hide DecodeGroup, Group;
    if text != [] {
      var group, rest := text[..4], text[4..];
      assert text == group + rest;
      DecodeSplits(group, rest);
      GroupIsItsEncoding(group);
      var bytes, more := DecodeGroup(group).value, Decode(rest).value;
      DecodedEncodes(rest);
      DecodedLength(rest);
      if rest == [] {
        assert group[0..] == group && bytes + [] == bytes;
      } else {
        RestIsCanonical(group, rest);
        if |bytes| == 3 {
          assert (bytes + more)[..3] == bytes && (bytes + more)[3..] == more;
          assert Encode(bytes + more) == Group(bytes) + Encode(more);
          FullGroupDropsNothing(group);
        } else {
          ShortThenMore(bytes, more, group, rest);
        }
      }
    }
  }

  lemma {:induction false} DecodedLength(text: Bytes)
    requires Decode(text).Some?
    ensures |Decode(text).value| <= |text| / 4 * 3 && (text != [] ==> Decode(text).value != [])
  {
    hide DecodeGroup;
    if text != [] {
      var group, rest := text[..4], text[4..];
      assert text == group + rest;
      DecodeSplits(group, rest);
      GroupIsItsEncoding(group);
      DecodedLength(rest);
    }
  }

  lemma FullGroupDropsNothing(group: Bytes)
    requires |group| == 4 && group[3] != PAD && DecodeGroup(group).Some?
    ensures forall k | 0 <= k < 4 :: group[k] != PAD
    ensures DropsNothing(group)
  {
    var a, b, c, d, n := GroupDigits(group);
    DigitsAreFound(a);
    DigitsAreFound(b);
    DigitsAreFound(c);
  }

  lemma RestIsCanonical(group: Bytes, rest: Bytes)
    requires |group| == 4 && |rest| % 4 == 0 && rest != []
    ensures IsCanonical(group + rest) <==> IsCanonical(rest) && forall k | 0 <= k < 4 :: group[k] != PAD
  {
    hide DropsNothing;
    var text := group + rest;
    assert text[|text| - 4..] == rest[|rest| - 4..];
    if IsCanonical(rest) && forall k | 0 <= k < 4 :: group[k] != PAD {
      forall k | 0 <= k < |text| - 4 ensures text[k] != PAD {
        if k >= 4 { assert text[k] == rest[k - 4]; } else { assert text[k] == group[k]; }
      }
    }
    if IsCanonical(text) {
      forall k | 0 <= k < |rest| - 4 ensures rest[k] != PAD { assert text[k + 4] == rest[k]; }
      forall k | 0 <= k < 4 ensures group[k] != PAD { assert text[k] == group[k]; }
    }
  }

  /** A padded group before others: the bytes are one too few for a text of that length. */
  lemma ShortThenMore(bytes: Bytes, more: Bytes, group: Bytes, rest: Bytes)
    requires |group| == 4 && group[3] == PAD && 1 <= |bytes| <= 2 && |rest| % 4 == 0 && rest != []
    ensures Encode(bytes + more) != group + rest
  {
    var all := bytes + more;
    if |all| > 3 {
      DigitsAreFound(SextetOf(ValueOf(all[..3]), 1));
      assert Encode(all)[3] == Group(all[..3])[3];
      assert (group + rest)[3] == PAD;
    } else {
      assert |Encode(all)| <= 4;
    }
  }

  /** QQ==QQ== */
  const PADDED_INSIDE: Bytes :=
    ['Q' as int, 'Q' as int, PAD, PAD, 'Q' as int, 'Q' as int, PAD, PAD]
  /** QR==, where R leaves its four low bits over. */
  const BITS_LEFT_OVER: Bytes := ['Q' as int, 'R' as int, PAD, PAD]
  const LETTER_A: Byte := 'A' as int

  /** Two digits and two paddings read as one byte, whatever the second digit's low bits are. */
  lemma OneByteGroup(second: Byte, v: Sextet)
    requires Find(second) == Some(v) && v / 0x10 == 1
    ensures DecodeGroup(['Q' as int, second, PAD, PAD]) == Some([LETTER_A])
  {
    var group := ['Q' as int, second, PAD, PAD];
    assert Find('Q' as int) == Some(16) && Digit(16) == 'Q' as int && Digit(v) == second;
    DigitsScan(group, 16, v, 0, 0, 1);
    var value: nat := ((16 * 0x40 + v) * 0x40) * 0x40;
    assert value / 0x1_0000 == (16 * 0x40 + v) / 0x10 == LETTER_A;
    assert BytesOf(Scan(value, 2)) == [LETTER_A];
  }

  /** Padding is read inside a text too, where no encoder writes it. */
  lemma PaddingInsideIsRead()
    ensures Decode(PADDED_INSIDE) == Some([LETTER_A, LETTER_A])
    ensures |Encode([LETTER_A, LETTER_A])| == 4 && Encode([LETTER_A, LETTER_A]) != PADDED_INSIDE
  {
    var group := ['Q' as int, 'Q' as int, PAD, PAD];
    OneByteGroup('Q' as int, 16);
    assert PADDED_INSIDE == group + group && group == group + [];
    DecodeSplits(group, group);
    DecodeSplits(group, []);
    assert Decode([]) == Some([]) && [LETTER_A] + [] == [LETTER_A] && [LETTER_A] + [LETTER_A] == [LETTER_A, LETTER_A];
  }

  /** Bits that padding drops are read over, where every encoder writes zeros. */
  lemma LeftOverBitsAreRead()
    ensures Decode(BITS_LEFT_OVER) == Some([LETTER_A]) && Encode([LETTER_A]) != BITS_LEFT_OVER
  {
    OneByteGroup('R' as int, 17);
    assert BITS_LEFT_OVER == BITS_LEFT_OVER + [];
    DecodeSplits(BITS_LEFT_OVER, []);
    assert Decode([]) == Some([]) && [LETTER_A] + [] == [LETTER_A];
    DecodedEncodes(BITS_LEFT_OVER);
    assert BITS_LEFT_OVER[0..] == BITS_LEFT_OVER;
  }
}
