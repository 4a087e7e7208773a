// Byte strings, and the small vocabulary every codec below shares.
module Bytes {
  /** One octet of a file, a message or a string. */
  type Byte = b: int | 0 <= b < 0x100

  type Bytes = seq<Byte>

  datatype Option<+T> = None | Some(value: T)

  /** `text` stands in `input` at offset `at`. */
  ghost predicate StandsAt(input: Bytes, at: int, text: Bytes) {
    0 <= at && at + |text| <= |input| && input[at..at + |text|] == text
  }

  /** A concatenation stands where its two halves stand, one after the other. */
  lemma StandsAtSplit(input: Bytes, at: int, left: Bytes, right: Bytes)
    ensures StandsAt(input, at, left + right)
            <==> StandsAt(input, at, left) && StandsAt(input, at + |left|, right)
  {
    var both := left + right;
    if StandsAt(input, at, both) {
      forall i | 0 <= i < |left| ensures input[at + i] == left[i] {
        assert input[at..at + |both|][i] == both[i];
      }
      forall i | 0 <= i < |right| ensures input[at + |left| + i] == right[i] {
        assert input[at..at + |both|][|left| + i] == both[|left| + i];
      }
    }
    if StandsAt(input, at, left) && StandsAt(input, at + |left|, right) {
      forall i | 0 <= i < |both| ensures input[at + i] == both[i] {
        if i < |left| {
          assert input[at..at + |left|][i] == left[i];
        } else {
          assert input[at + |left|..at + |left| + |right|][i - |left|] == right[i - |left|];
        }
      }
    }
  }

  /** The byte-wise order `std::string` compares by. */
  predicate Less(a: Bytes, b: Bytes) {
    b != [] && (a == [] || a[0] < b[0] || (a[0] == b[0] && Less(a[1..], b[1..])))
  }

  lemma {:induction false} LessIsIrreflexive(a: Bytes)
    ensures !Less(a, a)
  {
    if a != [] { LessIsIrreflexive(a[1..]); }
  }

  lemma {:induction false} LessIsTransitive(a: Bytes, b: Bytes, c: Bytes)
    requires Less(a, b) && Less(b, c)
    ensures Less(a, c)
  {
    if a != [] && a[0] == b[0] == c[0] {
      LessIsTransitive(a[1..], b[1..], c[1..]);
    }
  }

  lemma {:induction false} LessIsTotal(a: Bytes, b: Bytes)
    ensures Less(a, b) || a == b || Less(b, a)
  {
    if a != [] && b != [] && a[0] == b[0] {
      LessIsTotal(a[1..], b[1..]);
      if a[1..] == b[1..] {
        assert a == [a[0]] + a[1..] == [b[0]] + b[1..] == b;
      }
    }
  }

  /** `a` comes first exactly where it is a proper beginning of `b`, or is smaller in the first byte that differs. */
  lemma {:induction false} LessIsLexicographic(a: Bytes, b: Bytes)
    ensures Less(a, b) <==> exists k :: 0 <= k <= |a| && k < |b| && a[..k] == b[..k] && (k == |a| || a[k] < b[k])
  {
    if Less(a, b) && a != [] && a[0] == b[0] {
      LessIsLexicographic(a[1..], b[1..]);
      var k :| 0 <= k <= |a[1..]| && k < |b[1..]| && a[1..][..k] == b[1..][..k] && (k == |a[1..]| || a[1..][k] < b[1..][k]);
      assert a[..k + 1] == [a[0]] + a[1..][..k] && b[..k + 1] == [b[0]] + b[1..][..k];
    }
    if k :| 0 <= k <= |a| && k < |b| && a[..k] == b[..k] && (k == |a| || a[k] < b[k]) {
      if k > 0 {
        assert a[0] == a[..k][0] == b[..k][0] == b[0];
        assert a[1..][..k - 1] == a[..k][1..] == b[..k][1..] == b[1..][..k - 1];
        LessIsLexicographic(a[1..], b[1..]);
      }
    }
  }

  /** `ascii_lower_char`, and `std::tolower` in the C locale. */
  function Lower(b: Byte): Byte {
    if 'A' as int <= b <= 'Z' as int then b + 32 else b
  }

  predicate IsDigit(b: Byte) {
    '0' as int <= b <= '9' as int
  }

  /** The value of a hex digit, in either case. */
  function HexValue(b: Byte): (v: Option<nat>)
    ensures v.Some? ==> v.value < 0x10
  {
    if '0' as int <= b <= '9' as int then Some(b - '0' as int)
    else if 'A' as int <= b <= 'F' as int then Some(b - 'A' as int + 10)
    else if 'a' as int <= b <= 'f' as int then Some(b - 'a' as int + 10)
    else None
  }

  /** The hex digits, in the order of their values. */
  const SMALL_DIGITS: Bytes :=
    ['0' as int, '1' as int, '2' as int, '3' as int, '4' as int, '5' as int, '6' as int, '7' as int,
     '8' as int, '9' as int, 'a' as int, 'b' as int, 'c' as int, 'd' as int, 'e' as int, 'f' as int]

  const CAPITAL_DIGITS: Bytes :=
    ['0' as int, '1' as int, '2' as int, '3' as int, '4' as int, '5' as int, '6' as int, '7' as int,
     '8' as int, '9' as int, 'A' as int, 'B' as int, 'C' as int, 'D' as int, 'E' as int, 'F' as int]

  /** The byte is the hex digit of that value, in either case. */
  predicate Denotes(b: Byte, value: int) {
    0 <= value < 16 && (b == SMALL_DIGITS[value] || b == CAPITAL_DIGITS[value])
  }

  lemma HexValueExactly(b: Byte, value: nat)
    ensures HexValue(b) == Some(value) <==> Denotes(b, value)
  {
    if HexValue(b) == Some(value) {
      assert b == if 'A' as int <= b <= 'F' as int then CAPITAL_DIGITS[value] else SMALL_DIGITS[value];
    }
  }

  /** There are at most n numbers below n. */
  lemma {:induction false} Bounded(s: set<nat>, n: nat)
    requires forall x | x in s :: x < n
    ensures |s| <= n
  {
    if n > 0 { Bounded(s - {n - 1}, n - 1); } else { assert s == {}; }
  }

  lemma Associate<T>(a: seq<T>, b: seq<T>, c: seq<T>)
    ensures (a + b) + c == a + (b + c)
  {
  }
}
