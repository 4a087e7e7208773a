// Base64 in the bytes themselves: what a group is written as, and which texts are read as what.
module Base64Laws {
  import opened Bytes
  import opened Base64

  const CAPITALS: Bytes :=
    ['A' as int, 'B' as int, 'C' as int, 'D' as int, 'E' as int, 'F' as int, 'G' as int, 'H' as int, 'I' as int,
     'J' as int, 'K' as int, 'L' as int, 'M' as int, 'N' as int, 'O' as int, 'P' as int, 'Q' as int, 'R' as int,
     'S' as int, 'T' as int, 'U' as int, 'V' as int, 'W' as int, 'X' as int, 'Y' as int, 'Z' as int]

  const SMALLS: Bytes :=
    ['a' as int, 'b' as int, 'c' as int, 'd' as int, 'e' as int, 'f' as int, 'g' as int, 'h' as int, 'i' as int,
     'j' as int, 'k' as int, 'l' as int, 'm' as int, 'n' as int, 'o' as int, 'p' as int, 'q' as int, 'r' as int,
     's' as int, 't' as int, 'u' as int, 'v' as int, 'w' as int, 'x' as int, 'y' as int, 'z' as int]

  const OTHERS: Bytes :=
    ['0' as int, '1' as int, '2' as int, '3' as int, '4' as int, '5' as int, '6' as int, '7' as int, '8' as int,
     '9' as int, '+' as int, '/' as int]

  /** RFC 4648, table 1. */
  function Letter(v: Sextet): Byte {
    if v < 26 then CAPITALS[v] else if v < 52 then SMALLS[v - 26] else OTHERS[v - 52]
  }

  lemma DigitsAreTheAlphabet(v: Sextet)
    ensures Digit(v) == Letter(v)
  {
    if v < 26 { CapitalsAre(v); } else if v < 52 { SmallsAre(v - 26); } else { OthersAre(v - 52); }
  }

  lemma CapitalsAre(k: nat)
    requires k < 26
    ensures CAPITALS[k] == 'A' as int + k
  {
  }

  lemma SmallsAre(k: nat)
    requires k < 26
    ensures SMALLS[k] == 'a' as int + k
  {
  }

  lemma OthersAre(k: nat)
    requires k < 12
    ensures OTHERS[k] == if k < 10 then '0' as int + k else if k == 10 then '+' as int else '/' as int
  {
  }

  /** The text of up to three bytes: six bits a digit, the highest first, and padding for the bytes that are not there. */
  function Written(input: Bytes): Bytes
    requires 1 <= |input| <= 3
  {
    var a, b, c := input[0], if |input| > 1 then input[1] else 0, if |input| > 2 then input[2] else 0;
    [Letter(a / 4), Letter(a % 4 * 16 + b / 16),
     if |input| > 1 then Letter(b % 16 * 4 + c / 64) else '=' as int,
     if |input| > 2 then Letter(c % 64) else '=' as int]
  }

  /** Three bytes are a group, and the last one, two or three. */
  lemma EncodesExactly(input: Bytes)
    ensures Encode([]) == []
    ensures 1 <= |input| <= 3 ==> Encode(input) == Written(input)
    ensures |input| > 3 ==> Encode(input) == Written(input[..3]) + Encode(input[3..])
  {
    hide Group, Written;
    if 1 <= |input| { GroupIsWritten(if |input| <= 3 then input else input[..3]); }
  }

  lemma GroupIsWritten(input: Bytes)
    requires 1 <= |input| <= 3
    ensures Group(input) == Written(input)
  {
    hide Digit, Letter, SextetOf;
    var a, b, c := input[0], if |input| > 1 then input[1] else 0, if |input| > 2 then input[2] else 0;
    SextetsAre(a, b, c);
    assert ValueOf(input) == (a as nat) * 0x1_0000 + (b as nat) * 0x100 + c;
    DigitsAreTheAlphabet(a / 4);
    DigitsAreTheAlphabet(a % 4 * 16 + b / 16);
    DigitsAreTheAlphabet(b % 16 * 4 + c / 64);
    DigitsAreTheAlphabet(c % 64);
  }

  lemma SextetsAre(a: Byte, b: Byte, c: Byte)
    ensures var value: nat := (a as nat) * 0x1_0000 + (b as nat) * 0x100 + c;
            && value < 0x100_0000
            && SextetOf(value, 0x4_0000) == a / 4 && SextetOf(value, 0x1000) == a % 4 * 16 + b / 16
            && SextetOf(value, 0x40) == b % 16 * 4 + c / 64 && SextetOf(value, 1) == c % 64
  {
    var value: nat := (a as nat) * 0x1_0000 + (b as nat) * 0x100 + c;
    var p, q, r: nat := a / 4, a % 4 * 16 + b / 16, b % 16 * 4 + c / 64;
    assert value == ((p * 64 + q) * 64 + r) * 64 + c % 64;
    assert value / 0x40 == (p * 64 + q) * 64 + r;
    Quotients(value);
    assert value / 0x1000 == p * 64 + q && value / 0x4_0000 == p;
  }

  // ----- reading

  /** Four letters, or three or two with padding behind. What stands for padding is zero. */
  predicate IsGroup(group: Bytes, a: Sextet, b: Sextet, c: Sextet, d: Sextet, n: nat) {
    && 1 <= n <= 3 && (n < 2 ==> c == 0) && (n < 3 ==> d == 0)
    && group == [Letter(a), Letter(b), if n > 1 then Letter(c) else '=' as int, if n > 2 then Letter(d) else '=' as int]
  }

  /** The n bytes of a group. */
  function Meant(a: Sextet, b: Sextet, c: Sextet, d: Sextet, n: nat): Bytes {
    [a * 4 + b / 16] + (if n > 1 then [b % 16 * 16 + c / 4] else []) + if n > 2 then [c % 4 * 64 + d] else []
  }

  lemma GroupReads(group: Bytes, a: Sextet, b: Sextet, c: Sextet, d: Sextet, n: nat)
    requires IsGroup(group, a, b, c, d, n)
    ensures |group| == 4 && DecodeGroup(group) == Some(Meant(a, b, c, d, n))
  {
    hide Digit, Letter, ScanGroup, BytesOf;
    DigitsAreTheAlphabet(a);
    DigitsAreTheAlphabet(b);
    DigitsAreTheAlphabet(c);
    DigitsAreTheAlphabet(d);
    DigitsScan(group, a, b, c, d, n);
    ValueMeans(a, b, c, d, n);
  }

  lemma ValueMeans(a: Sextet, b: Sextet, c: Sextet, d: Sextet, n: nat)
    requires 1 <= n <= 3
    ensures var value: nat := (((a as nat) * 0x40 + b) * 0x40 + c) * 0x40 + d;
            value < 0x100_0000 && BytesOf(Scan(value, 3 - n)) == Meant(a, b, c, d, n)
  {
    var value: nat := (((a as nat) * 0x40 + b) * 0x40 + c) * 0x40 + d;
    assert value == ((a as nat) * 4 + b / 16) * 0x1_0000 + ((b as nat) % 16 * 16 + c / 4) * 0x100
                    + ((c as nat) % 4 * 64 + d);
    ByteFields(a * 4 + b / 16, b % 16 * 16 + c / 4, c % 4 * 64 + d);
  }

  lemma ReadIsGroup(group: Bytes) returns (a: Sextet, b: Sextet, c: Sextet, d: Sextet, n: nat)
    requires |group| == 4 && DecodeGroup(group).Some?
    ensures IsGroup(group, a, b, c, d, n)
  {
    hide Letter, Digit, Find, BytesOf;
    assert ScanGroup(group, 4).Some? && ScanGroup(group, 3).Some? && ScanGroup(group, 2).Some? && ScanGroup(group, 1).Some?;
    a, b, c, d, n := Find(group[0]).value, Find(group[1]).value, 0, 0, 1;
    DigitsAreTheAlphabet(a);
    DigitsAreTheAlphabet(b);
    if group[2] != PAD {
      c, n := Find(group[2]).value, 2;
      DigitsAreTheAlphabet(c);
      if group[3] != PAD {
        d, n := Find(group[3]).value, 3;
        DigitsAreTheAlphabet(d);
      }
    }
  }

  ghost predicate Reads(text: Bytes, out: Bytes) {
    if text == [] then out == []
    else
      |text| >= 4
      && exists a, b, c, d, n ::
           && IsGroup(text[..4], a, b, c, d, n) && Meant(a, b, c, d, n) <= out
           && Reads(text[4..], out[|Meant(a, b, c, d, n)|..])
  }

  /** A text is read exactly where it is made of such groups, padded or not, and as the bytes that they mean. */
  lemma {:induction false} DecodesExactly(text: Bytes, out: Bytes)
    ensures Decode(text) == Some(out) <==> Reads(text, out)
    decreases |text|
  {
    hide Decode, DecodeGroup, IsGroup, Meant;
    NothingDecodes(text);
    if |text| >= 4 {
      var group, rest := text[..4], text[4..];
      assert text == group + rest;
      if |text| % 4 == 0 { DecodeSplits(group, rest); }
      if Decode(text) == Some(out) {
        var a, b, c, d, n := ReadIsGroup(group);
        GroupReads(group, a, b, c, d, n);
        var bytes := Meant(a, b, c, d, n);
        DecodesExactly(rest, Decode(rest).value);
        assert out[|bytes|..] == Decode(rest).value;
      }
      if Reads(text, out) {
        var a, b, c, d, n :| IsGroup(group, a, b, c, d, n) && Meant(a, b, c, d, n) <= out
                             && Reads(rest, out[|Meant(a, b, c, d, n)|..]);
        var bytes := Meant(a, b, c, d, n);
        GroupReads(group, a, b, c, d, n);
        DecodesExactly(rest, out[|bytes|..]);
        NothingDecodes(rest);
        DecodeSplits(group, rest);
        assert out == bytes + out[|bytes|..];
      }
    }
  }

  lemma NothingDecodes(text: Bytes)
    ensures Decode([]) == Some([]) && (Decode(text).Some? ==> |text| % 4 == 0)
  {
  }
}
