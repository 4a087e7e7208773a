// FNV-1a over bytes, as the snapshot trailer uses it: xor a byte in, multiply by an odd constant modulo 2^64.
module Checksum {
  import opened Bytes

  const TWO_64: nat := 0x1_0000_0000_0000_0000
  const FNV_OFFSET: nat := 14695981039346656037
  const FNV_PRIME: nat := 1099511628211
  const FNV_INVERSE: nat := 14886173955864302971  // FNV_PRIME * FNV_INVERSE == 1 modulo 2^64

  type U64 = n: nat | n < 0x1_0000_0000_0000_0000

  /** Bitwise exclusive or. */
  function Xor(a: nat, b: nat): nat
    decreases a + b
  {
    if a == 0 && b == 0 then 0 else (a + b) % 2 + 2 * Xor(a / 2, b / 2)
  }

  lemma {:induction false} XorFits(a: nat, b: nat, half: nat)
    requires half > 0 && a < half && b < half && PowerOfTwo(half)
    ensures Xor(a, b) < half
    decreases half
  {
    if half > 1 { XorFits(a / 2, b / 2, half / 2); }
  }

  ghost predicate PowerOfTwo(n: nat) {
    n == 1 || (n > 0 && n % 2 == 0 && PowerOfTwo(n / 2))
  }

  lemma {:induction false} ShiftedPower(n: nat, times: nat)
    requires PowerOfTwo(n)
    ensures times == 1 ==> PowerOfTwo(2 * n)
    ensures times == 4 ==> PowerOfTwo(16 * n)
  {
    assert 2 * n / 2 == n;
    assert PowerOfTwo(2 * n);
    assert 4 * n / 2 == 2 * n && PowerOfTwo(4 * n);
    assert 8 * n / 2 == 4 * n && PowerOfTwo(8 * n);
    assert 16 * n / 2 == 8 * n && PowerOfTwo(16 * n);
  }

  lemma WordIsPowerOfTwo()
    ensures PowerOfTwo(TWO_64)
  {
    ShiftedPower(0x1, 4);
    ShiftedPower(0x10, 4);
    ShiftedPower(0x100, 4);
    ShiftedPower(0x1000, 4);
    ShiftedPower(0x1_0000, 4);
    ShiftedPower(0x10_0000, 4);
    ShiftedPower(0x100_0000, 4);
    ShiftedPower(0x1000_0000, 4);
    ShiftedPower(0x1_0000_0000, 4);
    ShiftedPower(0x10_0000_0000, 4);
    ShiftedPower(0x100_0000_0000, 4);
    ShiftedPower(0x1000_0000_0000, 4);
    ShiftedPower(0x1_0000_0000_0000, 4);
    ShiftedPower(0x10_0000_0000_0000, 4);
    ShiftedPower(0x100_0000_0000_0000, 4);
    ShiftedPower(0x1000_0000_0000_0000, 4);
  }

  lemma {:induction false} XorCancels(a: nat, b: nat, c: nat)
    requires Xor(a, b) == Xor(a, c)
    ensures b == c
    decreases a + b + c
  {
    if a + b + c > 0 {
      XorCancels(a / 2, b / 2, c / 2);
    }
  }

  lemma {:induction false} XorCommutes(a: nat, b: nat)
    ensures Xor(a, b) == Xor(b, a)
    decreases a + b
  {
    if a + b > 0 { XorCommutes(a / 2, b / 2); }
  }

  function Step(hash: U64, byte: Byte): U64 {
    Xor(hash, byte) * FNV_PRIME % TWO_64
  }

  /** Multiplying by the prime loses nothing modulo 2^64. */
  lemma PrimeIsInvertible(x: nat, y: nat)
    requires x < TWO_64 && y < TWO_64
    requires x * FNV_PRIME % TWO_64 == y * FNV_PRIME % TWO_64
    ensures x == y
  {
    var turns := FNV_PRIME * FNV_INVERSE / TWO_64;
    assert FNV_PRIME * FNV_INVERSE == 1 + TWO_64 * turns;
    var a := x * FNV_PRIME / TWO_64;
    var b := y * FNV_PRIME / TWO_64;
    assert (x - y) * FNV_PRIME == TWO_64 * (a - b);
    assert (x - y) * FNV_PRIME * FNV_INVERSE == TWO_64 * (a - b) * FNV_INVERSE;
    var k := (a - b) * FNV_INVERSE - turns * (x - y);
    assert x - y == TWO_64 * k;
  }

  /** A step is injective in the state and in the byte. */
  lemma StepIsInjective(hash: U64, byte: Byte, hash': U64, byte': Byte)
    requires Step(hash, byte) == Step(hash', byte')
    ensures hash == hash' <==> byte == byte'
  {
    WordIsPowerOfTwo();
    XorFits(hash, byte, TWO_64);
    XorFits(hash', byte', TWO_64);
    PrimeIsInvertible(Xor(hash, byte), Xor(hash', byte'));
    if hash == hash' { XorCancels(hash, byte, byte'); }
    if byte == byte' {
      XorCommutes(hash, byte);
      XorCommutes(hash', byte);
      XorCancels(byte, hash, hash');
    }
  }

  /** The hash after the first `size` bytes. */
  function Fold(bytes: Bytes, size: nat): U64
    requires size <= |bytes|
  {
    if size == 0 then FNV_OFFSET else Step(Fold(bytes, size - 1), bytes[size - 1])
  }

  method ComputeChecksum(bytes: Bytes, size: nat) returns (hash: U64)
    requires size <= |bytes|
    ensures hash == Fold(bytes, size)
  {
    hash := FNV_OFFSET;
    for i := 0 to size
      invariant hash == Fold(bytes, i)
    {
      hash := Xor(hash, bytes[i]) * FNV_PRIME % TWO_64;
    }
  }

  function PowerTwo(i: nat): (p: nat)
    ensures p > 0
  {
    if i == 0 then 1 else 2 * PowerTwo(i - 1)
  }

  lemma {:induction false} HalfShifts(a: nat, i: nat)
    requires i > 0
    ensures a / PowerTwo(i) == a / 2 / PowerTwo(i - 1)
  {
    var p := PowerTwo(i - 1);
    var q, r: nat := a / 2 / p, a / 2 % p;
    assert a / 2 == p * q + r;
    assert a == (2 * p) * q + (2 * r + a % 2);
    QuotientIs(a, 2 * p, q, 2 * r + a % 2);
  }

  lemma AtLeastOnce(d: nat, times: int)
    requires times >= 1
    ensures d * times >= d
  {
  }

  /** Quotient and remainder are what they are. */
  lemma QuotientIs(a: nat, d: nat, q: nat, r: nat)
    requires d > 0 && r < d && a == d * q + r
    ensures a / d == q
  {
    var other, rest := a / d, a % d;
    assert a == d * other + rest;
    if other > q {
      assert d * (other - q) == d * other - d * q;
      AtLeastOnce(d, other - q);
    } else if other < q {
      assert d * (q - other) == d * q - d * other;
      AtLeastOnce(d, q - other);
    }
  }

  /** A bit is set exactly where one of the two bits is set and the other is not. */
  lemma {:induction false} XorBits(a: nat, b: nat, i: nat)
    ensures Xor(a, b) / PowerTwo(i) % 2 == (a / PowerTwo(i) + b / PowerTwo(i)) % 2
    decreases i
  {
    if i > 0 {
      HalfShifts(Xor(a, b), i);
      HalfShifts(a, i);
      HalfShifts(b, i);
      assert Xor(a, b) / 2 == Xor(a / 2, b / 2);
      XorBits(a / 2, b / 2, i - 1);
    }
  }

  /** FNV-1a: from the offset basis on, a byte is xored in and the state is multiplied by the prime modulo 2^64. */
  lemma FoldIsFnv(bytes: Bytes, size: nat)
    requires size <= |bytes|
    ensures Fold(bytes, size)
            == if size == 0 then 0xcbf29ce484222325
               else Xor(Fold(bytes, size - 1), bytes[size - 1]) * 0x100000001b3 % 0x1_0000_0000_0000_0000
  {
  }

  /** Two strings that differ in one place only never share their checksum. */
  lemma {:induction false} OneChangedByteChangesTheFold(bytes: Bytes, changed: Bytes, at: nat, size: nat)
    requires at < size <= |bytes| == |changed|
    requires bytes[at] != changed[at]
    requires forall i | 0 <= i < size && i != at :: bytes[i] == changed[i]
    ensures Fold(bytes, size) != Fold(changed, size)
  {
    if Fold(bytes, size) == Fold(changed, size) {
      StepIsInjective(Fold(bytes, size - 1), bytes[size - 1], Fold(changed, size - 1), changed[size - 1]);
      if at < size - 1 {
        OneChangedByteChangesTheFold(bytes, changed, at, size - 1);
      } else {
        FoldDependsOnPrefix(bytes, changed, size - 1);
      }
    }
  }

  lemma {:induction false} FoldDependsOnPrefix(bytes: Bytes, other: Bytes, size: nat)
    requires size <= |bytes| && size <= |other|
    requires forall i | 0 <= i < size :: bytes[i] == other[i]
    ensures Fold(bytes, size) == Fold(other, size)
  {
    if size > 0 { FoldDependsOnPrefix(bytes, other, size - 1); }
  }
}
