/** Where the constants of SHA-256 come from (sections 4.2.2 and 5.3.3 of FIPS 180-4): fractions of roots of primes. */
module Sha256Constants {
  import opened Sha256Bits
  import opened Sha256Spec

  // ---------------------------------------------------------------- the first 64 primes

  ghost predicate IsPrime(p: nat) {
    p >= 2 && forall d {:trigger p % d} :: 2 <= d < p ==> p % d != 0
  }

  /** Prime number t, counted from zero. */
  function Prime(t: nat): (p: nat)
    requires t < 64
    ensures 2 <= p <= 311
  {
    match t
    case 0 => 2 case 1 => 3 case 2 => 5 case 3 => 7 case 4 => 11 case 5 => 13 case 6 => 17 case 7 => 19
    case 8 => 23 case 9 => 29 case 10 => 31 case 11 => 37 case 12 => 41 case 13 => 43 case 14 => 47 case 15 => 53
    case 16 => 59 case 17 => 61 case 18 => 67 case 19 => 71 case 20 => 73 case 21 => 79 case 22 => 83 case 23 => 89
    case 24 => 97 case 25 => 101 case 26 => 103 case 27 => 107
    case 28 => 109 case 29 => 113 case 30 => 127 case 31 => 131
    case 32 => 137 case 33 => 139 case 34 => 149 case 35 => 151
    case 36 => 157 case 37 => 163 case 38 => 167 case 39 => 173
    case 40 => 179 case 41 => 181 case 42 => 191 case 43 => 193
    case 44 => 197 case 45 => 199 case 46 => 211 case 47 => 223
    case 48 => 227 case 49 => 229 case 50 => 233 case 51 => 239
    case 52 => 241 case 53 => 251 case 54 => 257 case 55 => 263
    case 56 => 269 case 57 => 271 case 58 => 277 case 59 => 281
    case 60 => 283 case 61 => 293 case 62 => 307 case _ => 311
  }

  /** None of these primes divides p, unless it is p. */
  predicate NotDivided(p: nat) {
    && (p == 2 || p % 2 != 0) && (p == 3 || p % 3 != 0) && (p == 5 || p % 5 != 0) && (p == 7 || p % 7 != 0)
    && (p == 11 || p % 11 != 0) && (p == 13 || p % 13 != 0) && (p == 17 || p % 17 != 0)
  }

  lemma TableIsOdd(t: nat)
    requires 0 < t < 64
    ensures Prime(t) % 2 == 1 && Prime(t - 1) < Prime(t) <= Prime(t - 1) + 14
  {
  }

  predicate Composite(n: nat, end: nat) {
    n < end ==> !NotDivided(n)
  }

  /** Every other number from p to end can be divided. */
  predicate OnlyComposites(p: nat, end: nat) {
    && Composite(p + 2, end) && Composite(p + 4, end) && Composite(p + 6, end)
    && Composite(p + 8, end) && Composite(p + 10, end) && Composite(p + 12, end)
  }

  lemma Composites0(t: nat)
    requires 0 <= t < 16
    ensures OnlyComposites(Prime(t), Prime(t + 1))
  {
  }

  lemma Composites1(t: nat)
    requires 16 <= t < 32
    ensures OnlyComposites(Prime(t), Prime(t + 1))
  {
  }

  lemma Composites2(t: nat)
    requires 32 <= t < 48
    ensures OnlyComposites(Prime(t), Prime(t + 1))
  {
  }

  lemma Composites3(t: nat)
    requires 48 <= t < 63
    ensures OnlyComposites(Prime(t), Prime(t + 1))
  {
  }

  lemma Entries0(t: nat)
    requires 0 <= t < 32
    ensures NotDivided(Prime(t))
  {
  }

  lemma Entries1(t: nat)
    requires 32 <= t < 64
    ensures NotDivided(Prime(t))
  {
  }

  lemma Gap(t: nat)
    requires t < 63
    ensures OnlyComposites(Prime(t), Prime(t + 1))
  {
    if t < 16 {
      Composites0(t);
    } else if t < 32 {
      Composites1(t);
    } else if t < 48 {
      Composites2(t);
    } else {
      Composites3(t);
    }
  }

  lemma InGap(p: nat, n: nat, end: nat)
    requires OnlyComposites(p, end) && p < n < end <= p + 14 && (n - p) % 2 == 0
    ensures !NotDivided(n)
  {
    assert n == p + 2 || n == p + 4 || n == p + 6 || n == p + 8 || n == p + 10 || n == p + 12;
    assert Composite(n, end);
  }

  lemma EvenIsDivided(n: nat)
    requires n > 2 && n % 2 == 0
    ensures !NotDivided(n)
  {
  }

  lemma FirstPrime(t: nat)
    requires t < 64
    ensures Prime(t) == 2 <==> t == 0
  {
  }

  lemma BothOdd(n: nat, p: nat)
    requires n % 2 == 1 && p % 2 == 1 && p < n
    ensures (n - p) % 2 == 0
  {
  }

  lemma NoPrimeBetween(n: nat, t: nat)
    requires t < 63 && Prime(t) < n < Prime(t + 1)
    ensures !NotDivided(n)
  {
    var p, end := Prime(t), Prime(t + 1);
    TableIsOdd(t + 1);
    FirstPrime(t);
    if n % 2 == 0 {
      EvenIsDivided(n);
    } else {
      TableIsOdd(t);
      BothOdd(n, p);
      Gap(t);
      InGap(p, n, end);
    }
  }

  /** Below 19 * 19 it is enough to try the primes up to 17. */
  lemma NotDividedIsPrime(p: nat)
    requires 2 <= p < 361
    ensures NotDivided(p) <==> IsPrime(p)
  {
    if NotDivided(p) {
      forall d {:trigger p % d} | 2 <= d < p ensures p % d != 0 {
        if p % d == 0 {
          SomeFactorIsDivided(p, d);
        }
      }
    } else {
      assert p % 2 == 0 || p % 3 == 0 || p % 5 == 0 || p % 7 == 0 || p % 11 == 0 || p % 13 == 0 || p % 17 == 0;
    }
  }

  lemma SomeFactorIsDivided(p: nat, d: nat)
    requires 2 <= d < p < 361 && p % d == 0
    ensures !NotDivided(p)
  {
    var q := p / d;
    Factors(p, d, q);
    if d < 19 {
      SmallFactor(p, d, q);
    } else {
      if q >= 19 {
        LargeProduct(d, q);
      }
      SmallFactor(p, q, d);
    }
  }

  lemma Factors(p: nat, d: nat, q: nat)
    requires 2 <= d < p && p % d == 0 && q == p / d
    ensures p == d * q && 2 <= q < p
  {
    if q >= 1 {
      Larger(d, q);
    }
  }

  lemma Larger(d: nat, q: nat)
    requires d >= 2 && q >= 1
    ensures d * q > q
  {
  }

  lemma LargeProduct(d: nat, q: nat)
    requires d >= 19 && q >= 19
    ensures d * q >= 361
  {
    assert d * q >= 19 * q;
  }

  lemma Multiples(q: nat)
    ensures 2 * q % 2 == 0 && 3 * q % 3 == 0 && 5 * q % 5 == 0 && 7 * q % 7 == 0
    ensures 11 * q % 11 == 0 && 13 * q % 13 == 0 && 17 * q % 17 == 0
  {
  }

  lemma DividedBy(p: nat, c: nat, q: nat)
    requires c in {2, 3, 5, 7, 11, 13, 17} && c < p && p == c * q
    ensures !NotDivided(p)
  {
    Multiples(q);
  }

  /** A factor below 19 is a multiple of one of the primes that were tried. */
  lemma SmallFactor(p: nat, d: nat, q: nat)
    requires p == d * q && 2 <= d < 19 && d < p
    ensures !NotDivided(p)
  {
    if d % 2 == 0 {
      Regroup(2, d / 2, q);
      DividedBy(p, 2, d / 2 * q);
    } else if d % 3 == 0 {
      Regroup(3, d / 3, q);
      DividedBy(p, 3, d / 3 * q);
    } else {
      DividedBy(p, d, q);
    }
  }

  lemma Regroup(c: nat, e: nat, q: nat)
    ensures (c * e) * q == c * (e * q)
  {
  }

  /** The table holds the first 64 primes in order. */
  lemma PrimesInOrder(t: nat)
    requires t < 64
    ensures IsPrime(Prime(t)) && Prime(0) == 2
    ensures t > 0 ==> Prime(t - 1) < Prime(t) && forall n: nat :: Prime(t - 1) < n < Prime(t) ==> !IsPrime(n)
  {
    if t < 32 {
      Entries0(t);
    } else {
      Entries1(t);
    }
    NotDividedIsPrime(Prime(t));
    if t > 0 {
      TableIsOdd(t);
      forall n: nat | Prime(t - 1) < n < Prime(t) ensures !IsPrime(n) {
        NoPrimeBetween(n, t - 1);
        NotDividedIsPrime(n);
      }
    }
  }

  // ---------------------------------------------------------------- roots

  function Square(x: nat): nat {
    x * x
  }

  function Cube(x: nat): nat {
    x * x * x
  }

  /** r is the cube root of p, with 32 bits behind the binary point, rounded down. */
  predicate IsCubeRoot(p: nat, r: nat) {
    Cube(r) <= p * 0x1_0000_0000_0000_0000_0000_0000 < Cube(r + 1)
  }

  predicate IsSquareRoot(p: nat, r: nat) {
    Square(r) <= p * 0x1_0000_0000_0000_0000 < Square(r + 1)
  }

  /** The integer part of the cube root of prime t. */
  function WholePart(t: nat): nat
    requires t < 64
  {
    if t < 4 then 1 else if t < 9 then 2 else if t < 18 then 3 else if t < 30 then 4 else if t < 47 then 5 else 6
  }

  predicate IsFraction(t: nat)
    requires t < 64
  {
    IsCubeRoot(Prime(t), WholePart(t) * 0x1_0000_0000 + K(t))
  }

  lemma Fractions0(t: nat)
    requires 0 <= t < 8
    ensures IsFraction(t)
  {
  }

  lemma Fractions1(t: nat)
    requires 8 <= t < 16
    ensures IsFraction(t)
  {
  }

  lemma Fractions2(t: nat)
    requires 16 <= t < 24
    ensures IsFraction(t)
  {
  }

  lemma Fractions3(t: nat)
    requires 24 <= t < 32
    ensures IsFraction(t)
  {
  }

  lemma Fractions4(t: nat)
    requires 32 <= t < 40
    ensures IsFraction(t)
  {
  }

  lemma Fractions5(t: nat)
    requires 40 <= t < 48
    ensures IsFraction(t)
  {
  }

  lemma Fractions6(t: nat)
    requires 48 <= t < 56
    ensures IsFraction(t)
  {
  }

  lemma Fractions7(t: nat)
    requires 56 <= t < 64
    ensures IsFraction(t)
  {
  }

  lemma FractionsBelow32(t: nat)
    requires t < 32
    ensures IsFraction(t)
  {
    if t < 8 {
      Fractions0(t);
    } else if t < 16 {
      Fractions1(t);
    } else if t < 24 {
      Fractions2(t);
    } else {
      Fractions3(t);
    }
  }

  lemma FractionsFrom32(t: nat)
    requires 32 <= t < 64
    ensures IsFraction(t)
  {
    if t < 40 {
      Fractions4(t);
    } else if t < 48 {
      Fractions5(t);
    } else if t < 56 {
      Fractions6(t);
    } else {
      Fractions7(t);
    }
  }

  /** The constant of round t is the first 32 bits of the fraction of the cube root of prime t. */
  lemma RoundConstants(t: nat) returns (n: nat)
    requires t < 64
    ensures IsCubeRoot(Prime(t), n * 0x1_0000_0000 + K(t))
  {
    if t < 32 {
      FractionsBelow32(t);
    } else {
      FractionsFrom32(t);
    }
    n := WholePart(t);
  }

  /** The initial hash value holds those of the square roots of the first eight primes. */
  lemma InitialHashValue()
    ensures IsSquareRoot(Prime(0), 1 * 0x1_0000_0000 + H0.a) && IsSquareRoot(Prime(1), 1 * 0x1_0000_0000 + H0.b)
    ensures IsSquareRoot(Prime(2), 2 * 0x1_0000_0000 + H0.c) && IsSquareRoot(Prime(3), 2 * 0x1_0000_0000 + H0.d)
    ensures IsSquareRoot(Prime(4), 3 * 0x1_0000_0000 + H0.e) && IsSquareRoot(Prime(5), 3 * 0x1_0000_0000 + H0.f)
    ensures IsSquareRoot(Prime(6), 4 * 0x1_0000_0000 + H0.g) && IsSquareRoot(Prime(7), 4 * 0x1_0000_0000 + H0.h)
  {
  }
}
