// Percent-encoding in the bytes themselves: what is written, and which texts are read as what.
module PercentLaws {
  import opened Bytes
  import opened Percent
  import RestIdentifier
  import Utf8

  predicate Unreserved(b: Byte) {
    || 'A' as int <= b <= 'Z' as int || 'a' as int <= b <= 'z' as int || '0' as int <= b <= '9' as int
    || b in {'-' as int, '.' as int, '_' as int, '~' as int}
  }

  /** Letters, digits and four marks stand for themselves; every other byte is a percent sign and two capital digits. */
  function Written(input: Bytes): Bytes {
    if input == [] then []
    else
      (if Unreserved(input[0]) then [input[0]]
       else ['%' as int, CAPITAL_DIGITS[input[0] / 16], CAPITAL_DIGITS[input[0] % 16]])
      + Written(input[1..])
  }

  lemma DigitIsCapital(v: nat)
    requires v < 16
    ensures HexDigit(v) == CAPITAL_DIGITS[v]
  {
  }

  lemma {:induction false} EncodesExactly(input: Bytes)
    ensures Encode(input) == Written(input)
  {
    if input != [] {
      DigitIsCapital(input[0] / 16);
      DigitIsCapital(input[0] % 16);
      EncodesExactly(input[1..]);
      hide HexDigit;
    }
  }

  // ----- escapes

  /** The text starts with a percent sign and the two hex digits of the byte, in either case. */
  predicate EscapeOf(text: Bytes, b: Byte) {
    |text| >= 3 && text[0] == '%' as int && Denotes(text[1], b / 16) && Denotes(text[2], b % 16)
  }

  lemma EscapedExactly(text: Bytes, b: Byte)
    requires text != [] && text[0] == '%' as int
    ensures Escaped(text) == Some(b) <==> EscapeOf(text, b)
  {
    hide HexValue, Denotes;
    if |text| >= 3 {
      HexValueExactly(text[1], b / 16);
      HexValueExactly(text[2], b % 16);
    }
  }

  // ----- strict readers

  /** The text spells the bytes one by one: a byte that may stand raw and is no percent sign, or an escape of a byte that
      may be escaped. */
  ghost predicate Spells(text: Bytes, out: Bytes, raw: Byte -> bool, escaped: Byte -> bool) {
    if text == [] then out == []
    else
      && out != []
      && (|| (text[0] != '%' as int && raw(text[0]) && out[0] == text[0] && Spells(text[1..], out[1..], raw, escaped))
          || (EscapeOf(text, out[0]) && escaped(out[0]) && Spells(text[3..], out[1..], raw, escaped)))
  }

  lemma PrefixedIs(out: Bytes, b: Byte, rest: Option<Bytes>)
    ensures Prefixed(b, rest) == Some(out) <==> out != [] && out[0] == b && rest == Some(out[1..])
  {
    if rest.Some? { assert ([b] + rest.value)[1..] == rest.value; }
    if out != [] { assert out == [out[0]] + out[1..]; }
  }

  function Any(): Byte -> bool {
    (b: Byte) => true
  }

  function NeitherSlashNorNul(): Byte -> bool {
    (b: Byte) => b != '/' as int && b != 0
  }

  /** The reader of tool addresses takes any byte raw, and any but a slash or NUL escaped. */
  lemma {:induction false} StrictExactly(text: Bytes, out: Bytes)
    ensures DecodeStrict(text) == Some(out) <==> Spells(text, out, Any(), NeitherSlashNorNul())
    decreases |text|
  {
    hide EscapeOf, Escaped;
    if text != [] {
      var after := if out == [] then [] else out[1..];
      StrictExactly(text[1..], after);
      PrefixedIs(out, text[0], DecodeStrict(text[1..]));
      EscapeFacts(text);
      if text[0] == '%' as int {
        if Escaped(text).Some? {
          StrictExactly(text[3..], after);
          PrefixedIs(out, Escaped(text).value, DecodeStrict(text[3..]));
          EscapedExactly(text, Escaped(text).value);
        }
        if out != [] { EscapedExactly(text, out[0]); }
      }
    }
  }

  lemma EscapeFacts(text: Bytes)
    ensures Escaped(text).Some? ==> |text| >= 3
    ensures forall b: Byte | EscapeOf(text, b) :: |text| >= 3 && text[0] == '%' as int
  {
  }

  /** No control character, and in a path no slash of either kind. */
  function Clean(segment: bool): Byte -> bool {
    (b: Byte) => 0x20 <= b && b != 0x7F && !(segment && (b == '/' as int || b == '\\' as int))
  }

  /** The reader of request addresses takes the same bytes raw and escaped. */
  lemma {:induction false} RequestPartExactly(text: Bytes, segment: bool, out: Bytes)
    ensures RestIdentifier.Spelled(text, segment) == Some(out) <==> Spells(text, out, Clean(segment), Clean(segment))
    decreases |text|
  {
    hide EscapeOf, Escaped;
    if text != [] {
      var after := if out == [] then [] else out[1..];
      RequestPartExactly(text[1..], segment, after);
      PrefixedIs(out, text[0], RestIdentifier.Spelled(text[1..], segment));
      EscapeFacts(text);
      if text[0] == '%' as int {
        if Escaped(text).Some? {
          RequestPartExactly(text[3..], segment, after);
          PrefixedIs(out, Escaped(text).value, RestIdentifier.Spelled(text[3..], segment));
          EscapedExactly(text, Escaped(text).value);
        }
        if out != [] { EscapedExactly(text, out[0]); }
      }
    }
  }

  /** A part of a request address of at most 8192 bytes is read as what it spells, if that is UTF-8 and, in a path,
      neither one dot nor two. */
  lemma IdentifierExactly(text: Bytes, segment: bool, allowEmpty: bool, out: Bytes)
    ensures RestIdentifier.Identifier(text, segment, allowEmpty) == Some(out)
            <==> && (allowEmpty || text != []) && |text| <= 8192 && Spells(text, out, Clean(segment), Clean(segment))
                 && Utf8.Valid(out) && !(segment && (out == ['.' as int] || out == ['.' as int, '.' as int]))
  {
    RequestPartExactly(text, segment, out);
    hide RestIdentifier.Spelled, Spells;
  }

  // ----- the lenient reader

  /** An escape is read as its byte, and everything else, a lone percent sign included, as it stands. */
  ghost predicate LooselySpells(text: Bytes, out: Bytes) {
    if text == [] then out == []
    else
      && out != []
      && if exists b: Byte :: EscapeOf(text, b) then EscapeOf(text, out[0]) && LooselySpells(text[3..], out[1..])
         else out[0] == text[0] && LooselySpells(text[1..], out[1..])
  }

  lemma {:induction false} LenientExactly(text: Bytes)
    ensures LooselySpells(text, DecodeLenient(text))
    decreases |text|
  {
    hide EscapeOf, Escaped;
    if text != [] {
      var out := DecodeLenient(text);
      EscapeFacts(text);
      if text[0] == '%' as int && Escaped(text).Some? {
        EscapedExactly(text, Escaped(text).value);
        LenientExactly(text[3..]);
        assert out[1..] == DecodeLenient(text[3..]);
      } else {
        forall b: Byte ensures !EscapeOf(text, b) {
          if text[0] == '%' as int { EscapedExactly(text, b); }
        }
        LenientExactly(text[1..]);
        assert out[1..] == DecodeLenient(text[1..]);
      }
    }
  }

  /** A text loosely spells one string only. */
  lemma {:induction false} LooselySpellsOne(text: Bytes, out: Bytes, other: Bytes)
    requires LooselySpells(text, out) && LooselySpells(text, other)
    ensures out == other
    decreases |text|
  {
    if text != [] {
      assert out == [out[0]] + out[1..] && other == [other[0]] + other[1..];
      if exists b: Byte :: EscapeOf(text, b) {
        EscapeOnce(text, out[0], other[0]);
        LooselySpellsOne(text[3..], out[1..], other[1..]);
      } else {
        LooselySpellsOne(text[1..], out[1..], other[1..]);
      }
    }
  }

  lemma EscapeOnce(text: Bytes, b: Byte, c: Byte)
    requires EscapeOf(text, b) && EscapeOf(text, c)
    ensures b == c
  {
    EscapedExactly(text, b);
    EscapedExactly(text, c);
  }
}
