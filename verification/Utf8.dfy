// UTF-8 as json.cpp writes and checks it and as rest.cpp checks it (RFC 3629, section 4).
module Utf8 {
  import opened Bytes

  /** A Unicode scalar value: a code point that is not a surrogate. */
  predicate IsScalar(codepoint: int) {
    0 <= codepoint <= 0x10ffff && !(0xd800 <= codepoint <= 0xdfff)
  }

  type Scalar = c: int | 0 <= c <= 0x10ffff && !(0xd800 <= c <= 0xdfff)

  /** The bytes `append_utf8` appends. The shifted fields never overlap, so each `|` is a sum. */
  function Encode(codepoint: Scalar): Bytes {
    if codepoint <= 0x7f then
      [codepoint]
    else if codepoint <= 0x7ff then
      [0xc0 + codepoint / 0x40, 0x80 + codepoint % 0x40]
    else if codepoint <= 0xffff then
      [0xe0 + codepoint / 0x1000, 0x80 + codepoint / 0x40 % 0x40, 0x80 + codepoint % 0x40]
    else
      [0xf0 + codepoint / 0x40000, 0x80 + codepoint / 0x1000 % 0x40,
       0x80 + codepoint / 0x40 % 0x40, 0x80 + codepoint % 0x40]
  }

  function EncodeAll(codepoints: seq<Scalar>): Bytes {
    if codepoints == [] then [] else Encode(codepoints[0]) + EncodeAll(codepoints[1..])
  }

  predicate IsContinuation(b: Byte) {
    b / 0x40 == 2
  }

  /** What a leading byte announces: the length, its own payload bits, and the least code point. */
  datatype Lead = Lead(length: nat, bits: nat, minimum: nat)

  function LeadOf(first: Byte): (lead: Option<Lead>)
    requires first >= 0x80
    ensures lead.Some? ==> 2 <= lead.value.length <= 4
  {
    if 0xc2 <= first <= 0xdf then Some(Lead(2, first % 0x20, 0x80))
    else if 0xe0 <= first <= 0xef then Some(Lead(3, first % 0x10, 0x800))
    else if 0xf0 <= first <= 0xf4 then Some(Lead(4, first % 8, 0x10000))
    else None
  }

  /** Folds the continuation bytes in [at, end) onto the bits collected so far. */
  function Continue(input: Bytes, at: nat, end: nat, codepoint: nat): Option<nat>
    requires at <= end <= |input|
    decreases end - at
  {
    if at == end then Some(codepoint)
    else if !IsContinuation(input[at]) then None
    else Continue(input, at + 1, end, codepoint * 0x40 + input[at] % 0x40)
  }

  /** The length `utf8_length` reports: 0 when no well-formed sequence starts at `at`. */
  function Length(input: Bytes, at: nat): (n: nat)
    requires at < |input|
    ensures n == 0 || (n <= 4 && at + n <= |input|)
  {
    if input[at] < 0x80 then 1
    else match LeadOf(input[at])
      case None => 0
      case Some(lead) =>
        if at + lead.length > |input| then 0
        else match Continue(input, at + 1, at + lead.length, lead.bits)
          case None => 0
          case Some(codepoint) =>
            if codepoint < lead.minimum || !IsScalar(codepoint) then 0 else lead.length
  }

  method Utf8Length(input: Bytes, at: nat) returns (n: nat)
    requires at < |input|
    ensures n == Length(input, at)
  {
    var first := input[at];
    if first < 0x80 { return 1; }
    var lead;
    match LeadOf(first) {
      case None => return 0;
      case Some(found) => lead := found;
    }
    if lead.length > |input| - at { return 0; }
    var codepoint: nat := lead.bits;
    var i := 1;
    while i < lead.length
      invariant 1 <= i <= lead.length
      invariant Continue(input, at + 1, at + lead.length, lead.bits)
                == Continue(input, at + i, at + lead.length, codepoint)
    {
      var byte := input[at + i];
      if !IsContinuation(byte) { return 0; }
      codepoint := codepoint * 0x40 + byte % 0x40;
      i := i + 1;
    }
    if codepoint < lead.minimum || codepoint > 0x10ffff || 0xd800 <= codepoint <= 0xdfff { return 0; }
    return lead.length;
  }

  method AppendUtf8(output: Bytes, codepoint: Scalar) returns (extended: Bytes)
    ensures extended == output + Encode(codepoint)
  {
    if codepoint <= 0x7f {
      extended := output + [codepoint];
    } else if codepoint <= 0x7ff {
      extended := output + [0xc0 + codepoint / 0x40];
      extended := extended + [0x80 + codepoint % 0x40];
    } else if codepoint <= 0xffff {
      extended := output + [0xe0 + codepoint / 0x1000];
      extended := extended + [0x80 + codepoint / 0x40 % 0x40];
      extended := extended + [0x80 + codepoint % 0x40];
    } else {
      extended := output + [0xf0 + codepoint / 0x40000];
      extended := extended + [0x80 + codepoint / 0x1000 % 0x40];
      extended := extended + [0x80 + codepoint / 0x40 % 0x40];
      extended := extended + [0x80 + codepoint % 0x40];
    }
  }

  // ----- utf8_length recognises exactly the encodings of scalar values

  lemma ContinueOne(input: Bytes, at: nat, codepoint: nat)
    requires at < |input| && IsContinuation(input[at])
    ensures Continue(input, at, at + 1, codepoint) == Some(codepoint * 0x40 + input[at] % 0x40)
  {
    assert Continue(input, at + 1, at + 1, codepoint * 0x40 + input[at] % 0x40).Some?;
  }

  lemma ContinueTwo(input: Bytes, at: nat, codepoint: nat)
    requires at + 1 < |input| && IsContinuation(input[at]) && IsContinuation(input[at + 1])
    ensures Continue(input, at, at + 2, codepoint)
            == Some((codepoint * 0x40 + input[at] % 0x40) * 0x40 + input[at + 1] % 0x40)
  {
    ContinueOne(input, at + 1, codepoint * 0x40 + input[at] % 0x40);
  }

  lemma ContinueThree(input: Bytes, at: nat, codepoint: nat)
    requires at + 2 < |input|
    requires IsContinuation(input[at]) && IsContinuation(input[at + 1]) && IsContinuation(input[at + 2])
    ensures Continue(input, at, at + 3, codepoint)
            == Some(((codepoint * 0x40 + input[at] % 0x40) * 0x40 + input[at + 1] % 0x40) * 0x40
                    + input[at + 2] % 0x40)
  {
    ContinueTwo(input, at + 1, codepoint * 0x40 + input[at] % 0x40);
  }

  lemma {:induction false} ContinueReadsContinuations(input: Bytes, at: nat, end: nat, codepoint: nat)
    requires at <= end <= |input| && Continue(input, at, end, codepoint).Some?
    ensures forall i | at <= i < end :: IsContinuation(input[i])
    decreases end - at
  {
    if at < end {
      ContinueReadsContinuations(input, at + 1, end, codepoint * 0x40 + input[at] % 0x40);
    }
  }

  /** Six-bit fields come apart again. */
  lemma Fields(a: nat, b: nat, c: nat, d: nat)
    requires b < 0x40 && c < 0x40 && d < 0x40
    ensures (a * 0x40 + b) / 0x40 == a && (a * 0x40 + b) % 0x40 == b
    ensures ((a * 0x40 + b) * 0x40 + c) / 0x1000 == a
    ensures ((a * 0x40 + b) * 0x40 + c) / 0x40 == a * 0x40 + b && ((a * 0x40 + b) * 0x40 + c) % 0x40 == c
    ensures (((a * 0x40 + b) * 0x40 + c) * 0x40 + d) / 0x40000 == a
    ensures (((a * 0x40 + b) * 0x40 + c) * 0x40 + d) / 0x1000 == a * 0x40 + b
    ensures (((a * 0x40 + b) * 0x40 + c) * 0x40 + d) / 0x40 == (a * 0x40 + b) * 0x40 + c
    ensures (((a * 0x40 + b) * 0x40 + c) * 0x40 + d) % 0x40 == d
  {
  }

  /** The scalar value whose encoding `Length` measured. */
  function ScalarAt(input: Bytes, at: nat): (codepoint: Scalar)
    requires at < |input| && Length(input, at) > 0
  {
    if input[at] < 0x80 then input[at]
    else var lead := LeadOf(input[at]).value;
         Continue(input, at + 1, at + lead.length, lead.bits).value
  }

  ghost predicate Measured(input: Bytes, at: nat)
    requires at < |input|
  {
    && Length(input, at) > 0
    && |Encode(ScalarAt(input, at))| == Length(input, at)
    && forall i | 0 <= i < Length(input, at) :: input[at + i] == Encode(ScalarAt(input, at))[i]
  }

  lemma MeasuredTwo(input: Bytes, at: nat)
    requires at < |input| && 0xc2 <= input[at] <= 0xdf && Length(input, at) > 0
    ensures Measured(input, at)
  {
    var bits: nat := input[at] % 0x20;
    ContinueReadsContinuations(input, at + 1, at + 2, bits);
    ContinueOne(input, at + 1, bits);
    Fields(bits, input[at + 1] % 0x40, 0, 0);
    assert ScalarAt(input, at) == bits * 0x40 + input[at + 1] % 0x40;
  }

  lemma MeasuredThree(input: Bytes, at: nat)
    requires at < |input| && 0xe0 <= input[at] <= 0xef && Length(input, at) > 0
    ensures Measured(input, at)
  {
    var bits: nat := input[at] % 0x10;
    ContinueReadsContinuations(input, at + 1, at + 3, bits);
    ContinueTwo(input, at + 1, bits);
    Fields(bits, input[at + 1] % 0x40, input[at + 2] % 0x40, 0);
    assert ScalarAt(input, at) == (bits * 0x40 + input[at + 1] % 0x40) * 0x40 + input[at + 2] % 0x40;
  }

  lemma MeasuredFour(input: Bytes, at: nat)
    requires at < |input| && 0xf0 <= input[at] <= 0xf4 && Length(input, at) > 0
    ensures Measured(input, at)
  {
    var bits: nat := input[at] % 8;
    ContinueReadsContinuations(input, at + 1, at + 4, bits);
    ContinueThree(input, at + 1, bits);
    Fields(bits, input[at + 1] % 0x40, input[at + 2] % 0x40, input[at + 3] % 0x40);
    assert ScalarAt(input, at)
        == ((bits * 0x40 + input[at + 1] % 0x40) * 0x40 + input[at + 2] % 0x40) * 0x40 + input[at + 3] % 0x40;
  }

  /** A measured sequence is the encoding of one scalar value: no overlong form, no surrogate. */
  lemma MeasuredIsEncoding(input: Bytes, at: nat)
    requires at < |input| && Length(input, at) > 0
    ensures |Encode(ScalarAt(input, at))| == Length(input, at)
    ensures StandsAt(input, at, Encode(ScalarAt(input, at)))
  {
    if input[at] < 0x80 {
    } else if input[at] <= 0xdf {
      MeasuredTwo(input, at);
    } else if input[at] <= 0xef {
      MeasuredThree(input, at);
    } else {
      MeasuredFour(input, at);
    }
    assert Measured(input, at);
    assert input[at..at + Length(input, at)] == Encode(ScalarAt(input, at));
  }

  lemma BytesStanding(input: Bytes, at: nat, text: Bytes)
    requires StandsAt(input, at, text)
    ensures forall i | 0 <= i < |text| :: input[at + i] == text[i]
  {
    forall i | 0 <= i < |text| ensures input[at + i] == text[i] {
      assert input[at..at + |text|][i] == text[i];
    }
  }

  lemma EncodedTwo(input: Bytes, at: nat, codepoint: Scalar)
    requires 0x7f < codepoint <= 0x7ff && at + 1 < |input|
    requires input[at] == 0xc0 + codepoint / 0x40 && input[at + 1] == 0x80 + codepoint % 0x40
    ensures Length(input, at) == 2 && ScalarAt(input, at) == codepoint
  {
    ContinueOne(input, at + 1, codepoint / 0x40);
  }

  lemma EncodedThree(input: Bytes, at: nat, codepoint: Scalar)
    requires 0x7ff < codepoint <= 0xffff && at + 2 < |input|
    requires input[at] == 0xe0 + codepoint / 0x1000 && input[at + 1] == 0x80 + codepoint / 0x40 % 0x40
    requires input[at + 2] == 0x80 + codepoint % 0x40
    ensures Length(input, at) == 3 && ScalarAt(input, at) == codepoint
  {
    ContinueTwo(input, at + 1, codepoint / 0x1000);
    assert LeadOf(input[at]) == Some(Lead(3, codepoint / 0x1000, 0x800));
  }

  lemma Recombine(codepoint: nat)
    ensures ((codepoint / 0x40000 * 0x40 + codepoint / 0x1000 % 0x40) * 0x40 + codepoint / 0x40 % 0x40) * 0x40
            + codepoint % 0x40 == codepoint
  {
    var high := codepoint / 0x40;
    var higher := high / 0x40;
    assert higher == codepoint / 0x1000 && higher / 0x40 == codepoint / 0x40000;
  }

  lemma EncodedFour(input: Bytes, at: nat, codepoint: Scalar)
    requires 0xffff < codepoint && at + 3 < |input|
    requires input[at] == 0xf0 + codepoint / 0x40000 && input[at + 1] == 0x80 + codepoint / 0x1000 % 0x40
    requires input[at + 2] == 0x80 + codepoint / 0x40 % 0x40 && input[at + 3] == 0x80 + codepoint % 0x40
    ensures Length(input, at) == 4 && ScalarAt(input, at) == codepoint
  {
    assert LeadOf(input[at]) == Some(Lead(4, codepoint / 0x40000, 0x10000));
    Recombine(codepoint);
    assert Continue(input, at + 1, at + 4, codepoint / 0x40000) == Some(codepoint) by {
      ContinueThree(input, at + 1, codepoint / 0x40000);
    }
  }

  lemma EncodingIsMeasured(input: Bytes, at: nat, codepoint: Scalar)
    requires StandsAt(input, at, Encode(codepoint))
    ensures Length(input, at) == |Encode(codepoint)| && ScalarAt(input, at) == codepoint
  {
    BytesStanding(input, at, Encode(codepoint));
    assert input[at] == Encode(codepoint)[0] by { assert input[at + 0] == Encode(codepoint)[0]; }
    if codepoint <= 0x7f {
    } else if codepoint <= 0x7ff {
      EncodedTwo(input, at, codepoint);
    } else if codepoint <= 0xffff {
      EncodedThree(input, at, codepoint);
    } else {
      EncodedFour(input, at, codepoint);
    }
  }

  /** `utf8_length` returns n > 0 exactly when the next n bytes encode one scalar value. */
  lemma LengthIsExact(input: Bytes, at: nat, n: nat)
    requires at < |input| && n > 0
    ensures Length(input, at) == n
            <==> exists c: Scalar :: StandsAt(input, at, Encode(c)) && |Encode(c)| == n
  {
    if Length(input, at) == n {
      MeasuredIsEncoding(input, at);
    }
    if c: Scalar :| StandsAt(input, at, Encode(c)) && |Encode(c)| == n {
      EncodingIsMeasured(input, at, c);
    }
  }

  lemma TableOne(c: Scalar)
    requires c <= 0x7f
    ensures var b := Encode(c); |b| == 1 && c == b[0]
  {
  }

  lemma TableTwo(c: Scalar)
    requires 0x7f < c <= 0x7ff
    ensures var b := Encode(c);
            && |b| == 2 && 0xC0 <= b[0] <= 0xDF && 0x80 <= b[1] <= 0xBF
            && c == (b[0] as int - 0xC0) * 0x40 + (b[1] as int - 0x80)
  {
  }

  lemma TableThree(c: Scalar)
    requires 0x7ff < c <= 0xffff
    ensures var b := Encode(c);
            && |b| == 3 && 0xE0 <= b[0] <= 0xEF && 0x80 <= b[1] <= 0xBF && 0x80 <= b[2] <= 0xBF
            && c == (b[0] as int - 0xE0) * 0x1000 + (b[1] as int - 0x80) * 0x40 + (b[2] as int - 0x80)
  {
    var high: nat := c / 0x40;
    assert high / 0x40 == c / 0x1000;
  }

  lemma TableFour(c: Scalar)
    requires 0xffff < c
    ensures var b := Encode(c);
            && |b| == 4 && 0xF0 <= b[0] <= 0xF7 && 0x80 <= b[1] <= 0xBF && 0x80 <= b[2] <= 0xBF && 0x80 <= b[3] <= 0xBF
            && c == (b[0] as int - 0xF0) * 0x40000 + (b[1] as int - 0x80) * 0x1000 + (b[2] as int - 0x80) * 0x40
                    + (b[3] as int - 0x80)
  {
    Recombine(c);
  }

  /** The four forms of RFC 3629, section 3, read from the bytes: the leading byte tells the length, every other byte
      lies in 0x80..0xBF and adds six bits, and each length has its own range of code points. */
  lemma EncodingIsTheTable(c: Scalar)
    ensures var b := Encode(c);
            || (|b| == 1 && c <= 0x7F && c == b[0])
            || (|b| == 2 && 0x80 <= c <= 0x7FF && 0xC0 <= b[0] <= 0xDF && 0x80 <= b[1] <= 0xBF
                && c == (b[0] as int - 0xC0) * 0x40 + (b[1] as int - 0x80))
            || (|b| == 3 && 0x800 <= c <= 0xFFFF && 0xE0 <= b[0] <= 0xEF && 0x80 <= b[1] <= 0xBF
                && 0x80 <= b[2] <= 0xBF
                && c == (b[0] as int - 0xE0) * 0x1000 + (b[1] as int - 0x80) * 0x40 + (b[2] as int - 0x80))
            || (|b| == 4 && 0x10000 <= c <= 0x10FFFF && 0xF0 <= b[0] <= 0xF7 && 0x80 <= b[1] <= 0xBF
                && 0x80 <= b[2] <= 0xBF && 0x80 <= b[3] <= 0xBF
                && c == (b[0] as int - 0xF0) * 0x40000 + (b[1] as int - 0x80) * 0x1000 + (b[2] as int - 0x80) * 0x40
                        + (b[3] as int - 0x80))
  {
    hide Encode;
    if c <= 0x7f { TableOne(c); } else if c <= 0x7ff { TableTwo(c); }
    else if c <= 0xffff { TableThree(c); } else { TableFour(c); }
  }

  // ----- whole strings

  ghost predicate ValidFrom(text: Bytes, at: nat)
    requires at <= |text|
    decreases |text| - at
  {
    at == |text| || (Length(text, at) > 0 && ValidFrom(text, at + Length(text, at)))
  }

  /** The strings the writer accepts and the REST decoder lets through. */
  ghost predicate Valid(text: Bytes) {
    ValidFrom(text, 0)
  }

  method ValidUtf8(text: Bytes) returns (ok: bool)
    ensures ok == Valid(text)
  {
    var at := 0;
    while at < |text|
      invariant at <= |text|
      invariant Valid(text) == ValidFrom(text, at)
    {
      var first := text[at];
      if first < 0x80 {
        at := at + 1;
        continue;
      }
      var lead;
      match LeadOf(first) {
        case None => return false;
        case Some(found) => lead := found;
      }
      if lead.length > |text| - at { return false; }
      var codepoint: nat := lead.bits;
      var offset := 1;
      while offset < lead.length
        invariant 1 <= offset <= lead.length
        invariant Continue(text, at + 1, at + lead.length, lead.bits)
                  == Continue(text, at + offset, at + lead.length, codepoint)
      {
        var byte := text[at + offset];
        if !IsContinuation(byte) { return false; }
        codepoint := codepoint * 0x40 + byte % 0x40;
        offset := offset + 1;
      }
      if codepoint < lead.minimum || codepoint > 0x10ffff || 0xd800 <= codepoint <= 0xdfff { return false; }
      at := at + lead.length;
    }
    return true;
  }

  lemma EncodingIsNotEmpty(codepoint: Scalar)
    ensures Encode(codepoint) != []
  {
  }

  lemma {:induction false} ValidFromStandsAt(text: Bytes, at: nat, codepoints: seq<Scalar>)
    requires StandsAt(text, at, EncodeAll(codepoints))
    requires at + |EncodeAll(codepoints)| == |text|
    ensures ValidFrom(text, at)
    decreases codepoints
  {
    hide Encode, Length;
    if codepoints != [] {
      EncodingIsNotEmpty(codepoints[0]);
      var code := Encode(codepoints[0]);
      StandsAtSplit(text, at, code, EncodeAll(codepoints[1..]));
      EncodingIsMeasured(text, at, codepoints[0]);
      ValidFromStandsAt(text, at + |code|, codepoints[1..]);
    }
  }

  lemma {:induction false} ScalarsOf(text: Bytes, at: nat) returns (codepoints: seq<Scalar>)
    requires at <= |text| && ValidFrom(text, at)
    ensures text[at..] == EncodeAll(codepoints)
    decreases |text| - at
  {
    if at == |text| {
      codepoints := [];
    } else {
      var n := Length(text, at);
      MeasuredIsEncoding(text, at);
      var rest := ScalarsOf(text, at + n);
      codepoints := [ScalarAt(text, at)] + rest;
      assert text[at..] == text[at..at + n] + text[at + n..];
    }
  }

  /** A byte string is valid exactly when it is the encoding of some sequence of scalar values. */
  lemma ValidIsEncoded(text: Bytes)
    ensures Valid(text) <==> exists codepoints: seq<Scalar> :: text == EncodeAll(codepoints)
  {
    if Valid(text) {
      var codepoints := ScalarsOf(text, 0);
      assert text == text[0..] == EncodeAll(codepoints);
    }
    if codepoints: seq<Scalar> :| text == EncodeAll(codepoints) {
      ValidFromStandsAt(text, 0, codepoints);
    }
  }

  lemma {:induction false} EncodeAllConcat(a: seq<Scalar>, b: seq<Scalar>)
    ensures EncodeAll(a + b) == EncodeAll(a) + EncodeAll(b)
  {
    hide Encode;
    if a == [] {
      assert a + b == b;
    } else {
      assert (a + b)[1..] == a[1..] + b;
      EncodeAllConcat(a[1..], b);
      Associate(Encode(a[0]), EncodeAll(a[1..]), EncodeAll(b));
    }
  }

  lemma ValidConcat(a: Bytes, b: Bytes)
    requires Valid(a) && Valid(b)
    ensures Valid(a + b)
  {
    var left := ScalarsOf(a, 0);
    var right := ScalarsOf(b, 0);
    assert a[0..] == a && b[0..] == b;
    EncodeAllConcat(left, right);
    ValidFromStandsAt(a + b, 0, left + right);
  }

  lemma EncodingIsValid(codepoint: Scalar)
    ensures Valid(Encode(codepoint))
  {
    var one := [codepoint];
    assert EncodeAll(one) == Encode(codepoint) + EncodeAll(one[1..]);
    assert EncodeAll(one[1..]) == [];
    ValidFromStandsAt(Encode(codepoint), 0, one);
  }

  /** The measured piece of any text is valid on its own. */
  lemma PieceIsValid(text: Bytes, at: nat)
    requires at < |text| && Length(text, at) > 0
    ensures Valid(text[at..at + Length(text, at)])
  {
    MeasuredIsEncoding(text, at);
    EncodingIsValid(ScalarAt(text, at));
  }
}
