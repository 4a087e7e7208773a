// Number text: the check `JsonValue::number` makes, the scan `Parser::number` makes, and the
// grammar of RFC 8259, section 6 that both of them recognise.
module JsonNumber {
  import opened Bytes

  datatype Reason =
    | TrailingData | DepthExceeded | ExpectedValue | InvalidLiteral
    | IncompleteUnicodeEscape | InvalidUnicodeEscape | StringTooLong | ExpectedString
    | ControlCharacter | IncompleteEscape | MissingLowSurrogate | InvalidLowSurrogate
    | UnpairedLowSurrogate | InvalidEscape | InvalidUtf8 | UnterminatedString
    | LeadingZero | InvalidFraction | InvalidExponent
    | TooManyEntries | ExpectedCommaOrBracket | ExpectedObjectKey | ExpectedColon
    | DuplicateKey | ExpectedCommaOrBrace
    | InvalidNumberText  // thrown by `JsonValue::number`, never by the parser's own checks

  /** Where a scan ended, or where and why it stopped. */
  datatype Scanned = End(at: nat) | Stop(at: nat, reason: Reason)

  const MINUS: Byte := 0x2d
  const PLUS: Byte := 0x2b
  const DOT: Byte := 0x2e
  const ZERO: Byte := 0x30
  const LOWER_E: Byte := 0x65
  const UPPER_E: Byte := 0x45

  predicate DigitAt(s: Bytes, at: nat) {
    at < |s| && IsDigit(s[at])
  }

  /** The end of the run of digits that starts at `at`. */
  function DigitsEnd(s: Bytes, at: nat): (end: nat)
    requires at <= |s|
    ensures at <= end <= |s|
    ensures forall i | at <= i < end :: IsDigit(s[i])
    ensures !DigitAt(s, end)
    decreases |s| - at
  {
    if DigitAt(s, at) then DigitsEnd(s, at + 1) else at
  }

  lemma {:induction false} DigitsEndIs(s: Bytes, at: nat, end: nat)
    requires at <= end <= |s| && !DigitAt(s, end)
    requires forall i | at <= i < end :: IsDigit(s[i])
    ensures DigitsEnd(s, at) == end
    decreases end - at
  {
    if at < end { DigitsEndIs(s, at + 1, end); }
  }

  function ScanSign(s: Bytes, at: nat): nat {
    if at < |s| && s[at] == MINUS then at + 1 else at
  }

  function ScanInteger(s: Bytes, at: nat): (r: Scanned)
    requires at <= |s|
    ensures at <= r.at <= |s| && (r.End? ==> at < r.at)
  {
    if at < |s| && s[at] == ZERO then
      if DigitAt(s, at + 1) then Stop(at + 1, LeadingZero) else End(at + 1)
    else if !DigitAt(s, at) then
      Stop(at, ExpectedValue)
    else
      End(DigitsEnd(s, at))
  }

  function ScanFraction(s: Bytes, at: nat): (r: Scanned)
    requires at <= |s|
    ensures at <= r.at <= |s|
  {
    if !(at < |s| && s[at] == DOT) then End(at)
    else if !DigitAt(s, at + 1) then Stop(at + 1, InvalidFraction)
    else End(DigitsEnd(s, at + 1))
  }

  function ScanExponent(s: Bytes, at: nat): (r: Scanned)
    requires at <= |s|
    ensures at <= r.at <= |s|
  {
    if !(at < |s| && (s[at] == LOWER_E || s[at] == UPPER_E)) then End(at)
    else
      var digits := if at + 1 < |s| && (s[at + 1] == PLUS || s[at + 1] == MINUS) then at + 2 else at + 1;
      if !DigitAt(s, digits) then Stop(digits, InvalidExponent) else End(DigitsEnd(s, digits))
  }

  function ScanNumber(s: Bytes, at: nat): (r: Scanned)
    requires at <= |s|
    ensures at <= r.at <= |s| && (r.End? ==> at < r.at)
  {
    var integer := ScanInteger(s, ScanSign(s, at));
    if integer.Stop? then integer else
    var fraction := ScanFraction(s, integer.at);
    if fraction.Stop? then fraction else ScanExponent(s, fraction.at)
  }

  predicate ValidNumber(text: Bytes) {
    ScanNumber(text, 0) == End(|text|)
  }

  method SkipDigits(s: Bytes, start: nat) returns (at: nat)
    requires start <= |s|
    ensures at == DigitsEnd(s, start)
  {
    at := start;
    while at < |s| && IsDigit(s[at])
      invariant start <= at <= |s|
      invariant DigitsEnd(s, start) == DigitsEnd(s, at)
    {
      at := at + 1;
    }
  }

  // The three parts are spelled out once here; `valid_number` and `Parser::number` each repeat them.

  method IntegerPart(s: Bytes, start: nat) returns (r: Scanned)
    requires start <= |s|
    ensures r == ScanInteger(s, start)
  {
    var at := start;
    if at < |s| && s[at] == ZERO {
      at := at + 1;
      if at < |s| && IsDigit(s[at]) { return Stop(at, LeadingZero); }
    } else {
      if at == |s| || s[at] < 0x31 || s[at] > 0x39 { return Stop(at, ExpectedValue); }
      at := SkipDigits(s, at);
    }
    return End(at);
  }

  method FractionPart(s: Bytes, start: nat) returns (r: Scanned)
    requires start <= |s|
    ensures r == ScanFraction(s, start)
  {
    var at := start;
    if at < |s| && s[at] == DOT {
      at := at + 1;
      if at == |s| || !IsDigit(s[at]) { return Stop(at, InvalidFraction); }
      at := SkipDigits(s, at);
    }
    return End(at);
  }

  method ExponentPart(s: Bytes, start: nat) returns (r: Scanned)
    requires start <= |s|
    ensures r == ScanExponent(s, start)
  {
    var at := start;
    if at < |s| && (s[at] == LOWER_E || s[at] == UPPER_E) {
      at := at + 1;
      if at < |s| && (s[at] == PLUS || s[at] == MINUS) { at := at + 1; }
      if at == |s| || !IsDigit(s[at]) { return Stop(at, InvalidExponent); }
      at := SkipDigits(s, at);
    }
    return End(at);
  }

  /** The number the text starting at `start` spells, as far as it goes. */
  method NumberParts(s: Bytes, start: nat) returns (r: Scanned)
    requires start <= |s|
    ensures r == ScanNumber(s, start)
  {
    var at := start;
    if at < |s| && s[at] == MINUS { at := at + 1; }
    r := IntegerPart(s, at);
    if r.Stop? { return; }
    r := FractionPart(s, r.at);
    if r.Stop? { return; }
    r := ExponentPart(s, r.at);
  }

  /** `valid_number`: the text is one number and nothing else. */
  method CheckNumber(text: Bytes) returns (ok: bool)
    ensures ok == ValidNumber(text)
  {
    var r := NumberParts(text, 0);
    return r == End(|text|);
  }

  // ----- the grammar: number = [ minus ] int [ frac ] [ exp ]

  ghost predicate AllDigits(s: Bytes) {
    |s| > 0 && forall i | 0 <= i < |s| :: '0' as int <= s[i] <= '9' as int
  }

  ghost predicate IsSign(s: Bytes) {
    s == [] || s == ['-' as int]
  }

  ghost predicate IsInteger(s: Bytes) {
    s == ['0' as int] || (AllDigits(s) && s[0] != '0' as int)
  }

  ghost predicate IsFraction(s: Bytes) {
    s == [] || (s[0] == '.' as int && AllDigits(s[1..]))
  }

  ghost predicate IsExponent(s: Bytes) {
    s == [] ||
    ((s[0] == 'e' as int || s[0] == 'E' as int) &&
     (AllDigits(s[1..]) || (|s| > 1 && (s[1] == '+' as int || s[1] == '-' as int) && AllDigits(s[2..]))))
  }

  ghost predicate IsNumberOf(text: Bytes, sign: Bytes, integer: Bytes, fraction: Bytes, exponent: Bytes) {
    && text == sign + integer + fraction + exponent
    && IsSign(sign) && IsInteger(integer) && IsFraction(fraction) && IsExponent(exponent)
  }

  ghost predicate IsNumber(text: Bytes) {
    exists sign, integer, fraction, exponent :: IsNumberOf(text, sign, integer, fraction, exponent)
  }

  /** Nothing at `at` could lengthen a number that ends there. */
  ghost predicate Delimited(s: Bytes, at: nat) {
    at < |s| ==> !IsDigit(s[at]) && s[at] != DOT && s[at] != LOWER_E && s[at] != UPPER_E
  }

  lemma ScannedInteger(s: Bytes, at: nat)
    requires at <= |s| && ScanInteger(s, at).End?
    ensures IsInteger(s[at..ScanInteger(s, at).at])
  {
  }

  lemma ScannedFraction(s: Bytes, at: nat)
    requires at <= |s| && ScanFraction(s, at).End?
    ensures IsFraction(s[at..ScanFraction(s, at).at])
  {
    var fraction := s[at..ScanFraction(s, at).at];
    if fraction != [] { assert AllDigits(fraction[1..]); }
  }

  lemma ScannedExponent(s: Bytes, at: nat)
    requires at <= |s| && ScanExponent(s, at).End?
    ensures IsExponent(s[at..ScanExponent(s, at).at])
  {
    var exponent := s[at..ScanExponent(s, at).at];
    if exponent != [] {
      if exponent[1] == PLUS || exponent[1] == MINUS {
        assert AllDigits(exponent[2..]);
      } else {
        assert AllDigits(exponent[1..]);
      }
    }
  }

  /** An accepted scan read a number of the grammar. */
  lemma ScannedIsNumber(s: Bytes, at: nat)
    requires at <= |s| && ScanNumber(s, at).End?
    ensures IsNumber(s[at..ScanNumber(s, at).at])
  {
    var a := ScanSign(s, at);
    var b := ScanInteger(s, a).at;
    var c := ScanFraction(s, b).at;
    var d := ScanExponent(s, c).at;
    ScannedInteger(s, a);
    ScannedFraction(s, b);
    ScannedExponent(s, c);
    Joined(s, at, a, b, c, d);
    assert IsNumberOf(s[at..d], s[at..a], s[a..b], s[b..c], s[c..d]);
  }

  lemma Joined(s: Bytes, at: nat, a: nat, b: nat, c: nat, d: nat)
    requires at <= a <= b <= c <= d <= |s|
    ensures s[at..d] == s[at..a] + s[a..b] + s[b..c] + s[c..d]
  {
    assert s[at..a] + s[a..b] == s[at..b];
    assert s[at..b] + s[b..c] == s[at..c];
    assert s[at..c] + s[c..d] == s[at..d];
  }

  lemma IntegerIsScanned(s: Bytes, at: nat, integer: Bytes)
    requires StandsAt(s, at, integer) && IsInteger(integer) && !DigitAt(s, at + |integer|)
    ensures ScanInteger(s, at) == End(at + |integer|)
  {
    var end := at + |integer|;
    assert forall i | at <= i < end :: s[i] == s[at..end][i - at];
    if integer != [ZERO] { DigitsEndIs(s, at, end); }
  }

  lemma FractionIsScanned(s: Bytes, at: nat, fraction: Bytes)
    requires StandsAt(s, at, fraction) && IsFraction(fraction)
    requires !DigitAt(s, at + |fraction|) && (at + |fraction| < |s| ==> s[at + |fraction|] != DOT)
    ensures ScanFraction(s, at) == End(at + |fraction|)
  {
    var end := at + |fraction|;
    assert forall i | at <= i < end :: s[i] == s[at..end][i - at];
    if fraction != [] {
      assert forall i | 1 <= i < |fraction| :: fraction[i] == fraction[1..][i - 1];
      DigitsEndIs(s, at + 1, end);
    }
  }

  lemma ExponentIsScanned(s: Bytes, at: nat, exponent: Bytes)
    requires StandsAt(s, at, exponent) && IsExponent(exponent) && Delimited(s, at + |exponent|)
    ensures ScanExponent(s, at) == End(at + |exponent|)
  {
    var end := at + |exponent|;
    assert forall i | at <= i < end :: s[i] == s[at..end][i - at];
    if exponent != [] {
      if AllDigits(exponent[1..]) {
        assert forall i | 1 <= i < |exponent| :: exponent[i] == exponent[1..][i - 1];
        DigitsEndIs(s, at + 1, end);
      } else {
        assert forall i | 2 <= i < |exponent| :: exponent[i] == exponent[2..][i - 2];
        DigitsEndIs(s, at + 2, end);
      }
    }
  }

  lemma FirstByte(s: Bytes, at: nat, text: Bytes)
    requires StandsAt(s, at, text) && text != []
    ensures s[at] == text[0]
  {
    assert s[at] == s[at..at + |text|][0];
  }

  lemma PartsAreScanned(s: Bytes, at: nat, sign: Bytes, integer: Bytes, fraction: Bytes, exponent: Bytes)
    requires IsSign(sign) && IsInteger(integer) && IsFraction(fraction) && IsExponent(exponent)
    requires StandsAt(s, at, sign) && StandsAt(s, at + |sign|, integer)
    requires StandsAt(s, at + |sign| + |integer|, fraction)
    requires StandsAt(s, at + |sign| + |integer| + |fraction|, exponent)
    requires Delimited(s, at + |sign| + |integer| + |fraction| + |exponent|)
    ensures ScanNumber(s, at) == End(at + |sign| + |integer| + |fraction| + |exponent|)
  {
    var a := at + |sign|;
    var b := a + |integer|;
    var c := b + |fraction|;
    FirstByte(s, a, integer);
    if sign != [] { FirstByte(s, at, sign); }
    if fraction != [] { FirstByte(s, b, fraction); }
    if exponent != [] { FirstByte(s, c, exponent); }
    assert ScanSign(s, at) == a;
    IntegerIsScanned(s, a, integer);
    FractionIsScanned(s, b, fraction);
    ExponentIsScanned(s, c, exponent);
  }

  /** A delimited number of the grammar is scanned to its last byte. */
  lemma NumberIsScanned(s: Bytes, at: nat, text: Bytes)
    requires IsNumber(text) && StandsAt(s, at, text) && Delimited(s, at + |text|)
    ensures ScanNumber(s, at) == End(at + |text|)
  {
    var sign, integer, fraction, exponent :| IsNumberOf(text, sign, integer, fraction, exponent);
    StandsAtSplit(s, at, sign + integer + fraction, exponent);
    StandsAtSplit(s, at, sign + integer, fraction);
    StandsAtSplit(s, at, sign, integer);
    PartsAreScanned(s, at, sign, integer, fraction, exponent);
  }

  /** The check accepts exactly the numbers of the grammar. */
  lemma ValidNumberIsGrammar(text: Bytes)
    ensures ValidNumber(text) <==> IsNumber(text)
  {
    assert text[0..|text|] == text;
    if ValidNumber(text) { ScannedIsNumber(text, 0); }
    if IsNumber(text) { NumberIsScanned(text, 0, text); }
  }
}
