/**
  The word functions of SHA-256, as FIPS 180-4 defines them and as src/base/hash_libtomcrypt.cpp
  computes them. Words are numbers below 2^32; the bitwise operators are defined bit by bit.
  */
module Sha256Bits {
  import opened Bytes
  import opened Common

  type word = w: int | 0 <= w < 0x1_0000_0000

  datatype Op = And | Or | Xor

  predicate Apply(op: Op, a: bool, b: bool) {
    match op
    case And => a && b
    case Or => a || b
    case Xor => a != b
  }

  /** The lowest n bits of two numbers, combined bit by bit. */
  function Bitwise(op: Op, x: nat, y: nat, n: nat): (r: nat)
    ensures r < Pow2(n)
  {
    if n == 0 then 0
    else (if Apply(op, x % 2 == 1, y % 2 == 1) then 1 else 0) + 2 * Bitwise(op, x / 2, y / 2, n - 1)
  }

  lemma WordBits()
    ensures Pow2(32) == 0x1_0000_0000
  {
    assert Pow2(8) == 256;
    assert Pow2(16) == 0x1_0000;
    assert Pow2(24) == 0x100_0000;
  }

  function Combine(op: Op, x: word, y: word): word {
    WordBits();
    Bitwise(op, x, y, 32)
  }

  function Complement(x: word): word {
    0xFFFF_FFFF - x
  }

  /** Addition modulo 2^32. */
  function Add(x: word, y: word): word {
    (x + y) % 0x1_0000_0000
  }

  /** x without its n low bits: `x >> n`. */
  function HighBits(x: nat, n: nat): (r: nat)
    ensures r <= x
  {
    if n == 0 then x else HighBits(x / 2, n - 1)
  }

  /** The n low bits of x. */
  function LowBits(x: nat, n: nat): (r: nat)
  {
    if n == 0 then 0 else x % 2 + 2 * LowBits(x / 2, n - 1)
  }

  /** x with n zero bits behind it. */
  function Shifted(x: nat, n: nat): (r: nat)
  {
    if n == 0 then x else 2 * Shifted(x, n - 1)
  }

  lemma {:induction false} SplitBits(x: nat, n: nat)
    ensures x == HighBits(x, n) * Pow2(n) + LowBits(x, n) && LowBits(x, n) < Pow2(n)
  {
    if n > 0 {
      SplitBits(x / 2, n - 1);
      DoubleProduct(HighBits(x / 2, n - 1), Pow2(n - 1));
    }
  }

  lemma DoubleProduct(a: int, b: int)
    ensures a * (2 * b) == 2 * (a * b)
  {
  }

  lemma {:induction false} ShiftedIsProduct(x: nat, n: nat)
    ensures Shifted(x, n) == x * Pow2(n)
  {
    if n > 0 {
      ShiftedIsProduct(x, n - 1);
    }
  }

  lemma MulMonotone(a: int, b: int, c: int)
    requires a <= b && 0 <= c
    ensures a * c <= b * c
  {
  }

  /** Right shift. */
  function Shr(x: word, n: nat): word
  {
    HighBits(x, n)
  }

  // ---------------------------------------------------------------- sections 3.2 and 4.1.2 of FIPS 180-4

  /** Circular right shift: the n low bits become the high bits. */
  function Rotr(x: word, n: nat): word
    requires 0 < n < 32
  {
    RotrInRange(x, n);
    HighBits(x, n) + Shifted(LowBits(x, n), 32 - n)
  }

  function Ch(x: word, y: word, z: word): word {
    Combine(Xor, Combine(And, x, y), Combine(And, Complement(x), z))
  }

  function Maj(x: word, y: word, z: word): word {
    Combine(Xor, Combine(Xor, Combine(And, x, y), Combine(And, x, z)), Combine(And, y, z))
  }

  function Xor3(x: word, y: word, z: word): word {
    Combine(Xor, Combine(Xor, x, y), z)
  }

  function BigSigma0(x: word): word {
    Xor3(Rotr(x, 2), Rotr(x, 13), Rotr(x, 22))
  }

  function BigSigma1(x: word): word {
    Xor3(Rotr(x, 6), Rotr(x, 11), Rotr(x, 25))
  }

  function SmallSigma0(x: word): word {
    Xor3(Rotr(x, 7), Rotr(x, 18), Shr(x, 3))
  }

  function SmallSigma1(x: word): word {
    Xor3(Rotr(x, 17), Rotr(x, 19), Shr(x, 10))
  }

  /** A word from its four bytes, most significant first (section 3.1). */
  function BigEndianWord(b0: int, b1: int, b2: int, b3: int): word
    requires 0 <= b0 < 256 && 0 <= b1 < 256 && 0 <= b2 < 256 && 0 <= b3 < 256
  {
    0x100_0000 * b0 + 0x1_0000 * b1 + 0x100 * b2 + b3
  }

  // ---------------------------------------------------------------- the functions as the code writes them

  function ChFast(x: word, y: word, z: word): word {
    Combine(Xor, z, Combine(And, x, Combine(Xor, y, z)))
  }

  function MajFast(x: word, y: word, z: word): word {
    Combine(Or, Combine(And, Combine(Or, x, y), z), Combine(And, x, y))
  }

  /** `x << n` */
  function Shl(x: word, n: nat): word
  {
    Shifted(x, n) % 0x1_0000_0000
  }

  /** (x >> (n & 31)) | (x << (32 - (n & 31))) */
  function Rot(x: word, n: nat): word
    requires 0 < n < 32
  {
    Combine(Or, Shr(x, n), Shl(x, 32 - n))
  }

  function Load32(b0: byte, b1: byte, b2: byte, b3: byte): word {
    Combine(Or, Combine(Or, Combine(Or, Shl(b0, 24), Shl(b1, 16)), Shl(b2, 8)), b3)
  }

  // ---------------------------------------------------------------- both agree

  lemma Pow2Add(a: nat, b: nat)
    ensures Pow2(a + b) == Pow2(a) * Pow2(b)
  {
    if a > 0 {
      Pow2Add(a - 1, b);
      assert Pow2(a) * Pow2(b) == 2 * (Pow2(a - 1) * Pow2(b));
    }
  }

  lemma RotrInRange(x: word, n: nat)
    requires 0 < n < 32
    ensures HighBits(x, n) < Pow2(32 - n)
    ensures Shifted(LowBits(x, n), 32 - n) <= 0x1_0000_0000 - Pow2(32 - n)
  {
    WordBits();
    Pow2Add(n, 32 - n);
    SplitBits(x, n);
    ShiftedIsProduct(LowBits(x, n), 32 - n);
    QuotientRange(x, HighBits(x, n), LowBits(x, n), Pow2(n), Pow2(32 - n));
  }

  lemma QuotientRange(x: int, hi: int, lo: int, p: int, q: int)
    requires x == hi * p + lo && 0 <= lo < p && 0 <= x < p * q && 0 < q
    ensures hi < q && lo * q <= p * q - q
  {
    if hi >= q {
      MulMonotone(q, hi, p);
    }
    MulMonotone(lo, p - 1, q);
  }

  function NotBits(x: nat, n: nat): nat
    requires x < Pow2(n)
  {
    Pow2(n) - 1 - x
  }

  lemma {:induction false} ChBits(x: nat, y: nat, z: nat, n: nat)
    requires x < Pow2(n) && y < Pow2(n) && z < Pow2(n)
    ensures Bitwise(Xor, z, Bitwise(And, x, Bitwise(Xor, y, z, n), n), n)
            == Bitwise(Xor, Bitwise(And, x, y, n), Bitwise(And, NotBits(x, n), z, n), n)
  {
    if n > 0 {
      ChBits(x / 2, y / 2, z / 2, n - 1);
      assert NotBits(x, n) / 2 == NotBits(x / 2, n - 1) && NotBits(x, n) % 2 == 1 - x % 2;
      BitwiseParts(Xor, y, z, n);
      BitwiseParts(And, x, Bitwise(Xor, y, z, n), n);
      BitwiseParts(And, x, y, n);
      BitwiseParts(And, NotBits(x, n), z, n);
    }
  }

  lemma {:induction false} MajBits(x: nat, y: nat, z: nat, n: nat)
    ensures Bitwise(Or, Bitwise(And, Bitwise(Or, x, y, n), z, n), Bitwise(And, x, y, n), n)
            == Bitwise(Xor, Bitwise(Xor, Bitwise(And, x, y, n), Bitwise(And, x, z, n), n), Bitwise(And, y, z, n), n)
  {
    if n > 0 {
      MajBits(x / 2, y / 2, z / 2, n - 1);
      BitwiseParts(Or, x, y, n);
      BitwiseParts(And, Bitwise(Or, x, y, n), z, n);
      BitwiseParts(And, x, y, n);
      BitwiseParts(And, x, z, n);
      BitwiseParts(And, y, z, n);
      BitwiseParts(Xor, Bitwise(And, x, y, n), Bitwise(And, x, z, n), n);
    }
  }

  lemma BitwiseParts(op: Op, x: nat, y: nat, n: nat)
    requires n > 0
    ensures Bitwise(op, x, y, n) / 2 == Bitwise(op, x / 2, y / 2, n - 1)
    ensures Bitwise(op, x, y, n) % 2 == if Apply(op, x % 2 == 1, y % 2 == 1) then 1 else 0
  {
  }

  /** Ch and Maj in the code's form are the choice and the majority function of the standard. */
  lemma ChFastIsCh(x: word, y: word, z: word)
    ensures ChFast(x, y, z) == Ch(x, y, z)
  {
    WordBits();
    ChBits(x, y, z, 32);
  }

  lemma MajFastIsMaj(x: word, y: word, z: word)
    ensures MajFast(x, y, z) == Maj(x, y, z)
  {
    MajBits(x, y, z, 32);
  }

  lemma {:induction false} OrZero(x: nat, n: nat)
    requires x < Pow2(n)
    ensures Bitwise(Or, x, 0, n) == x && Bitwise(Or, 0, x, n) == x
  {
    if n > 0 {
      OrZero(x / 2, n - 1);
    }
  }

  /** Or of a number below 2^k and a multiple of 2^k is their sum. */
  lemma {:induction false} OrIsSum(low: nat, high: nat, k: nat, n: nat)
    requires k <= n && low < Pow2(k) && high * Pow2(k) < Pow2(n)
    ensures Bitwise(Or, low, high * Pow2(k), n) == low + high * Pow2(k)
    ensures Bitwise(Or, high * Pow2(k), low, n) == low + high * Pow2(k)
  {
    if k == 0 {
      OrZero(high, n);
    } else {
      var shifted := high * Pow2(k);
      assert shifted == 2 * (high * Pow2(k - 1));
      assert shifted / 2 == high * Pow2(k - 1) && shifted % 2 == 0;
      OrIsSum(low / 2, high, k - 1, n - 1);
    }
  }

  /** Shifting left drops the bits that leave the word. */
  lemma ShlDrops(x: int, hi: int, lo: int, p: int, q: int, range: int)
    requires 0 < p && 0 < q && p * q == range && x == hi * p + lo && 0 <= lo < p && 0 <= hi
    ensures x * q % range == lo * q
  {
    assert x * q == hi * range + lo * q by {
      assert (hi * p) * q == hi * (p * q);
    }
    MulMonotone(lo + 1, p, q);
    ModOfSum(hi, lo * q, range);
  }

  lemma ModOfSum(k: int, r: int, m: int)
    requires 0 <= r < m
    ensures (k * m + r) % m == r
  {
    var total := k * m + r;
    assert total == (total / m) * m + total % m;
    var d := total / m - k;
    assert d * m == r - total % m;
    if d >= 1 {
      MulMonotone(1, d, m);
    } else if d <= -1 {
      MulMonotone(d, -1, m);
    }
  }

  lemma RotIsRotr(x: word, n: nat)
    requires 0 < n < 32
    ensures Rot(x, n) == Rotr(x, n)
  {
    WordBits();
    RotrInRange(x, n);
    Pow2Add(n, 32 - n);
    SplitBits(x, n);
    var hi, lo := HighBits(x, n), LowBits(x, n);
    ShiftedIsProduct(x, 32 - n);
    ShiftedIsProduct(lo, 32 - n);
    ShlDrops(x, hi, lo, Pow2(n), Pow2(32 - n), 0x1_0000_0000);
    OrIsSum(hi, lo, 32 - n, 32);
  }

  /** Or of a shifted byte and the bytes below it, which fill fewer bits. */
  lemma OrByte(high: int, low: int, k: nat, p: int)
    requires p == Pow2(k) && k <= 32 && 0 <= low < p && 0 <= high && high * p < 0x1_0000_0000
    ensures Bitwise(Or, high * p, low, 32) == high * p + low
  {
    WordBits();
    OrIsSum(low, high, k, 32);
  }

  lemma ShlByte(b: byte, k: nat, p: int)
    requires p == Pow2(k) && (p == 0x100 || p == 0x1_0000 || p == 0x100_0000)
    ensures Shl(b, k) == b * p
  {
    ShiftedIsProduct(b, k);
  }

  lemma Load32IsBigEndian(b0: byte, b1: byte, b2: byte, b3: byte)
    ensures Load32(b0, b1, b2, b3) == BigEndianWord(b0, b1, b2, b3)
  {
    assert Pow2(8) == 0x100;
    assert Pow2(16) == 0x1_0000;
    assert Pow2(24) == 0x100_0000;
    ShlByte(b0, 24, 0x100_0000);
    ShlByte(b1, 16, 0x1_0000);
    ShlByte(b2, 8, 0x100);
    var two := Combine(Or, Shl(b0, 24), Shl(b1, 16));
    assert two == b0 * 0x100_0000 + b1 * 0x1_0000 by {
      OrByte(b0, b1 * 0x1_0000, 24, 0x100_0000);
    }
    var three := Combine(Or, two, Shl(b2, 8));
    assert three == two + b2 * 0x100 by {
      OrByte(b0 * 0x100 + b1, b2 * 0x100, 16, 0x1_0000);
    }
    OrByte(b0 * 0x1_0000 + b1 * 0x100 + b2, b3, 8, 0x100);
  }
}
