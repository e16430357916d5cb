/**
  The equations of FIPS 180-4 in terms of bits and sums: what the word functions do to each bit, what a round and
  the message schedule compute, and what a padded message looks like.
  */
module Sha256Equations {
  import opened Bytes
  import opened BlockChain
  import opened Common
  import opened Sha256Bits
  import opened Sha256Spec

  // ---------------------------------------------------------------- bits

  /** Bit i of a number, counted from the lowest one. */
  predicate Bit(x: nat, i: nat) {
    HighBits(x, i) % 2 == 1
  }

  lemma {:induction false} BitOfBitwise(op: Op, x: nat, y: nat, n: nat, i: nat)
    requires i < n
    ensures Bit(Bitwise(op, x, y, n), i) == Apply(op, Bit(x, i), Bit(y, i))
  {
    BitwiseParts(op, x, y, n);
    if i > 0 {
      BitOfBitwise(op, x / 2, y / 2, n - 1, i - 1);
    }
  }

  lemma {:induction false} BitBehind(x: nat, a: nat, b: nat)
    ensures Bit(HighBits(x, a), b) == Bit(x, a + b)
    decreases a
  {
    if a > 0 {
      BitBehind(x / 2, a - 1, b);
    }
  }

  lemma {:induction false} BitOfLow(x: nat, n: nat, i: nat)
    requires i < n
    ensures Bit(LowBits(x, n), i) == Bit(x, i)
  {
    if i > 0 {
      BitOfLow(x / 2, n - 1, i - 1);
      assert LowBits(x, n) / 2 == LowBits(x / 2, n - 1);
    }
  }

  lemma {:induction false} BitOfSum(low: nat, high: nat, k: nat, i: nat)
    requires low < Pow2(k)
    ensures Bit(low + Shifted(high, k), i) == if i < k then Bit(low, i) else Bit(high, i - k)
    decreases k
  {
    if k > 0 {
      var s := low + Shifted(high, k);
      assert s / 2 == low / 2 + Shifted(high, k - 1) && s % 2 == low % 2;
      if i > 0 {
        BitOfSum(low / 2, high, k - 1, i - 1);
      }
    }
  }

  lemma BitOfRotated(x: word, n: nat, i: nat)
    requires 0 < n < 32 && i < 32
    ensures Bit(Rotr(x, n), i) == Bit(x, if i + n < 32 then i + n else i + n - 32)
  {
    RotrInRange(x, n);
    BitOfSum(HighBits(x, n), LowBits(x, n), 32 - n, i);
    if i < 32 - n {
      BitBehind(x, n, i);
    } else {
      BitOfLow(x, n, i - (32 - n));
    }
  }

  lemma Around(j: nat)
    requires j < 64
    ensures j % 32 == if j < 32 then j else j - 32
  {
  }

  /** A circular right shift takes bit i from bit i + n, and around. */
  lemma BitOfRotr(x: word, n: nat, i: nat)
    requires 0 < n < 32 && i < 32
    ensures Bit(Rotr(x, n), i) == Bit(x, (i + n) % 32)
  {
    BitOfRotated(x, n, i);
    Around(i + n);
  }

  lemma BitOfShr(x: word, n: nat, i: nat)
    requires n < 32 && i < 32
    ensures Bit(Shr(x, n), i) == (i + n < 32 && Bit(x, i + n))
  {
    BitBehind(x, n, i);
    if i + n >= 32 {
      WordBits();
      NoHigherBits(x, 32, i + n);
    }
  }

  lemma {:induction false} NoHigherBits(x: nat, n: nat, i: nat)
    requires x < Pow2(n) && i >= n
    ensures !Bit(x, i)
    decreases i
  {
    if i > 0 {
      if n > 0 {
        NoHigherBits(x / 2, n - 1, i - 1);
      } else {
        NoHigherBits(x / 2, 0, i - 1);
      }
    }
  }

  predicate Parity(a: bool, b: bool, c: bool) {
    (a != b) != c
  }

  lemma BitOfXor3(x: word, y: word, z: word, i: nat)
    requires i < 32
    ensures Bit(Xor3(x, y, z), i) == Parity(Bit(x, i), Bit(y, i), Bit(z, i))
  {
    BitOfBitwise(Xor, x, y, 32, i);
    BitOfBitwise(Xor, Combine(Xor, x, y), z, 32, i);
  }

  /** Section 4.1.2: each bit is the parity of three bits of the word. */
  lemma BigSigmaBits(x: word, i: nat)
    requires i < 32
    ensures Bit(BigSigma0(x), i) == Parity(Bit(x, (i + 2) % 32), Bit(x, (i + 13) % 32), Bit(x, (i + 22) % 32))
    ensures Bit(BigSigma1(x), i) == Parity(Bit(x, (i + 6) % 32), Bit(x, (i + 11) % 32), Bit(x, (i + 25) % 32))
  {
    BitOfRotr(x, 2, i);
    BitOfRotr(x, 13, i);
    BitOfRotr(x, 22, i);
    BitOfXor3(Rotr(x, 2), Rotr(x, 13), Rotr(x, 22), i);
    BitOfRotr(x, 6, i);
    BitOfRotr(x, 11, i);
    BitOfRotr(x, 25, i);
    BitOfXor3(Rotr(x, 6), Rotr(x, 11), Rotr(x, 25), i);
  }

  lemma SmallSigmaBits(x: word, i: nat)
    requires i < 32
    ensures Bit(SmallSigma0(x), i) ==
            Parity(Bit(x, (i + 7) % 32), Bit(x, (i + 18) % 32), i + 3 < 32 && Bit(x, i + 3))
    ensures Bit(SmallSigma1(x), i) ==
            Parity(Bit(x, (i + 17) % 32), Bit(x, (i + 19) % 32), i + 10 < 32 && Bit(x, i + 10))
  {
    BitOfRotr(x, 7, i);
    BitOfRotr(x, 18, i);
    BitOfShr(x, 3, i);
    BitOfXor3(Rotr(x, 7), Rotr(x, 18), Shr(x, 3), i);
    BitOfRotr(x, 17, i);
    BitOfRotr(x, 19, i);
    BitOfShr(x, 10, i);
    BitOfXor3(Rotr(x, 17), Rotr(x, 19), Shr(x, 10), i);
  }

  lemma {:induction false} BitOfNot(x: nat, n: nat, i: nat)
    requires i < n && x < Pow2(n)
    ensures Bit(NotBits(x, n), i) == !Bit(x, i)
  {
    assert NotBits(x, n) / 2 == NotBits(x / 2, n - 1) && NotBits(x, n) % 2 == 1 - x % 2;
    if i > 0 {
      BitOfNot(x / 2, n - 1, i - 1);
    }
  }

  /** Ch chooses each bit by the first word, and Maj takes the majority. */
  lemma ChoiceAndMajority(x: word, y: word, z: word, i: nat)
    requires i < 32
    ensures Bit(Ch(x, y, z), i) == if Bit(x, i) then Bit(y, i) else Bit(z, i)
    ensures Bit(Maj(x, y, z), i) <==>
            (Bit(x, i) && Bit(y, i)) || (Bit(x, i) && Bit(z, i)) || (Bit(y, i) && Bit(z, i))
  {
    ChoiceBit(x, y, z, i);
    var xy, xz, yz := Combine(And, x, y), Combine(And, x, z), Combine(And, y, z);
    BitOfBitwise(And, x, y, 32, i);
    BitOfBitwise(And, x, z, 32, i);
    BitOfBitwise(And, y, z, 32, i);
    BitOfBitwise(Xor, xy, xz, 32, i);
    BitOfBitwise(Xor, Combine(Xor, xy, xz), yz, 32, i);
  }

  lemma ChoiceBit(x: word, y: word, z: word, i: nat)
    requires i < 32
    ensures Bit(Ch(x, y, z), i) == if Bit(x, i) then Bit(y, i) else Bit(z, i)
  {
    WordBits();
    BitOfNot(x, 32, i);
    BitOfBitwise(And, x, y, 32, i);
    BitOfBitwise(And, Complement(x), z, 32, i);
    BitOfBitwise(Xor, Combine(And, x, y), Combine(And, Complement(x), z), 32, i);
  }

  /** A word is determined by its bits, so these equations leave nothing open. */
  lemma {:induction false} SameBits(x: nat, y: nat, n: nat)
    requires x < Pow2(n) && y < Pow2(n) && forall i: nat :: i < n ==> Bit(x, i) == Bit(y, i)
    ensures x == y
  {
    if n > 0 {
      assert Bit(x, 0) == Bit(y, 0);
      forall i: nat | i < n - 1 ensures Bit(x / 2, i) == Bit(y / 2, i) {
        assert Bit(x, i + 1) == Bit(y, i + 1);
      }
      SameBits(x / 2, y / 2, n - 1);
    }
  }

  // ---------------------------------------------------------------- section 6.2.2

  lemma SumOfTwo(x: int, y: int)
    ensures (x % 0x1_0000_0000 + y) % 0x1_0000_0000 == (x + y) % 0x1_0000_0000
  {
    var q, r := x / 0x1_0000_0000, x % 0x1_0000_0000;
    WordsDropped(q, r + y);
    assert x + y == 0x1_0000_0000 * q + (r + y);
  }

  lemma WordsDropped(q: int, y: int)
    ensures (0x1_0000_0000 * q + y) % 0x1_0000_0000 == y % 0x1_0000_0000
  {
    var p, r := y / 0x1_0000_0000, y % 0x1_0000_0000;
    assert 0x1_0000_0000 * q + y == 0x1_0000_0000 * (q + p) + r;
    WordRemainder(q + p, r);
  }

  lemma WordRemainder(q: int, r: int)
    requires 0 <= r < 0x1_0000_0000
    ensures (0x1_0000_0000 * q + r) % 0x1_0000_0000 == r
  {
  }

  lemma SumOfFive(a: word, b: word, c: word, d: word, e: word)
    ensures Add(Add(Add(Add(a, b), c), d), e) == (a + b + c + d + e) % 0x1_0000_0000
    ensures Add(Add(Add(a, b), c), d) == (a + b + c + d) % 0x1_0000_0000
  {
    SumOfTwo(a + b, c);
    SumOfTwo(a + b + c, d);
    SumOfTwo(a + b + c + d, e);
  }

  /** T1 and T2 of the standard, as sums. */
  function T1(v: Vars, k: word, w: word): nat {
    v.h + BigSigma1(v.e) + Ch(v.e, v.f, v.g) + k + w
  }

  function T2(v: Vars): nat {
    BigSigma0(v.a) + Maj(v.a, v.b, v.c)
  }

  lemma TempsAreSums(v: Vars, k: word, w: word)
    ensures Temp1(v, k, w) == T1(v, k, w) % 0x1_0000_0000 && Temp2(v) == T2(v) % 0x1_0000_0000
  {
    SumOfFive(v.h, BigSigma1(v.e), Ch(v.e, v.f, v.g), k, w);
  }

  lemma SumsOfTemps(t1: word, t2: word, d: word, x: int, y: int)
    requires t1 == x % 0x1_0000_0000 && t2 == y % 0x1_0000_0000
    ensures Add(t1, t2) == (x + y) % 0x1_0000_0000 && Add(d, t1) == (d + x) % 0x1_0000_0000
  {
    BothReduced(x, y, d);
  }

  /** A round: the new a is T1 + T2, the new e is d + T1, and the other variables move on by one. */
  lemma RoundEquations(v: Vars, k: word, w: word, r: Vars)
    requires r == Round(v, k, w)
    ensures r.a == (T1(v, k, w) + T2(v)) % 0x1_0000_0000 && r.e == (v.d + T1(v, k, w)) % 0x1_0000_0000
    ensures r.b == v.a && r.c == v.b && r.d == v.c && r.f == v.e && r.g == v.f && r.h == v.g
  {
    TempsAreSums(v, k, w);
    SumsOfTemps(Temp1(v, k, w), Temp2(v), v.d, T1(v, k, w), T2(v));
  }

  lemma BothReduced(x: int, y: int, z: int)
    ensures (x % 0x1_0000_0000 + y % 0x1_0000_0000) % 0x1_0000_0000 == (x + y) % 0x1_0000_0000
    ensures (z + x % 0x1_0000_0000) % 0x1_0000_0000 == (z + x) % 0x1_0000_0000
  {
    SumOfTwo(x, y % 0x1_0000_0000);
    SumOfTwo(y, x);
    SumOfTwo(x, z);
  }

  /** W[t] of the schedule s that begins with the words w. */
  lemma {:induction false} ScheduleContinues(w: seq<word>, s: seq<word>, t: nat)
    requires 16 <= |w| <= 64 && t < 64 && s == Schedule(w)
    ensures t < |w| ==> s[t] == w[t]
    ensures t >= |w| ==> s[t] == NextScheduleWord(s[t - 2], s[t - 7], s[t - 15], s[t - 16])
    decreases 64 - |w|
  {
    if |w| < 64 {
      var n := |w|;
      var longer := w + [NextScheduleWord(w[n - 2], w[n - 7], w[n - 15], w[n - 16])];
      ScheduleContinues(longer, s, t);
      if t == n {
        ScheduleContinues(longer, s, n - 2);
        ScheduleContinues(longer, s, n - 7);
        ScheduleContinues(longer, s, n - 15);
        ScheduleContinues(longer, s, n - 16);
      }
    }
  }

  /** The number that bytes make, the most significant one first. */
  function Value(bytes: seq<byte>): nat {
    if bytes == [] then 0 else 256 * Value(bytes[..|bytes| - 1]) + bytes[|bytes| - 1]
  }

  lemma ValueOfFour(b: seq<byte>)
    requires |b| == 4
    ensures Value(b) == BigEndianWord(b[0], b[1], b[2], b[3])
  {
    assert b[..3][..2] == b[..2] && b[..2][..1] == b[..1] && b[..1][..0] == [];
    assert Value(b[..0]) == 0;
    assert Value(b[..1]) == 256 * Value(b[..1][..0]) + b[0];
    assert Value(b[..2]) == 256 * Value(b[..2][..1]) + b[1];
    assert Value(b[..3]) == 256 * Value(b[..3][..2]) + b[2];
  }

  lemma WordOfBlock(block: Block, t: nat)
    requires t < 16
    ensures BlockWord(block, t) == Value(block[4 * t..4 * t + 4])
  {
    ValueOfFour(block[4 * t..4 * t + 4]);
  }

  /** The sum of four words, two of them through a sigma function. */
  function ScheduleSum(w2: word, w7: word, w15: word, w16: word): int {
    (SmallSigma1(w2) + w7 + SmallSigma0(w15) + w16) % 0x1_0000_0000
  }

  lemma NextWordIsSum(w2: word, w7: word, w15: word, w16: word)
    ensures NextScheduleWord(w2, w7, w15, w16) == ScheduleSum(w2, w7, w15, w16)
  {
    SumOfFive(SmallSigma1(w2), w7, SmallSigma0(w15), w16, 0);
  }

  /** The message schedule: the words of the block, */
  lemma ScheduleBegins(block: Block, t: nat, first: seq<word>, w: seq<word>)
    requires t < 16 && first == BlockWords(block) && w == Schedule(first)
    ensures w[t] == Value(block[4 * t..4 * t + 4])
  {
    var word := BlockWord(block, t);
    assert first[t] == word;
    ScheduleContinues(first, w, t);
    WordOfBlock(block, t);
  }

  /** and then sums of four words before. */
  lemma ScheduleEquations(first: seq<word>, w: seq<word>, t: nat)
    requires |first| == 16 <= t < 64 && w == Schedule(first)
    ensures w[t] == ScheduleSum(w[t - 2], w[t - 7], w[t - 15], w[t - 16])
  {
    ScheduleContinues(first, w, t);
    NextWordIsSum(w[t - 2], w[t - 7], w[t - 15], w[t - 16]);
  }

  /** The new hash value is, word by word, the old one plus the working variables after the rounds. */
  lemma FeedbackEquations(h: Vars, v: Vars)
    ensures var r := AddVars(h, v);
            && r.a == (h.a + v.a) % 0x1_0000_0000 && r.b == (h.b + v.b) % 0x1_0000_0000
            && r.c == (h.c + v.c) % 0x1_0000_0000 && r.d == (h.d + v.d) % 0x1_0000_0000
            && r.e == (h.e + v.e) % 0x1_0000_0000 && r.f == (h.f + v.f) % 0x1_0000_0000
            && r.g == (h.g + v.g) % 0x1_0000_0000 && r.h == (h.h + v.h) % 0x1_0000_0000
  {
  }

  lemma {:induction false} FoldOfPrefix<S>(f: (S, Block) -> S, init: S, data: seq<byte>, more: seq<byte>, n: nat)
    requires 64 * n <= |data|
    ensures Fold(f, init, data + more, n) == Fold(f, init, data, n)
  {
    if n > 0 {
      FoldOfPrefix(f, init, data, more, n - 1);
      assert BlockAt(data + more, n - 1) == BlockAt(data, n - 1);
    }
  }

  lemma LastBlock(data: seq<byte>, block: Block, n: nat)
    requires |data| == 64 * n
    ensures |data + block| / 64 == n + 1 && BlockAt(data + block, n) == block
  {
    BlockCount(n + 1);
    assert (data + block)[|data|..] == block;
  }

  lemma FoldOfNext<S>(f: (S, Block) -> S, init: S, data: seq<byte>, block: Block, n: nat)
    requires |data| == 64 * n
    ensures |data| / 64 == n && |data + block| / 64 == n + 1
    ensures Fold(f, init, data + block, n + 1) == f(Fold(f, init, data, n), block)
  {
    BlockCount(n);
    LastBlock(data, block, n);
    FoldOfPrefix(f, init, data, block, n);
  }

  /** The blocks are compressed one after the other, beginning with the initial hash value. */
  lemma HashOfNextBlock(compress: (Vars, Block) -> Vars, data: seq<byte>, block: Block, n: nat)
    requires compress == CompressBlock && |data| == 64 * n
    ensures HashBlocks([]) == H0
    ensures |data + block| % 64 == |data| % 64 == 0 && HashBlocks(data + block) == compress(HashBlocks(data), block)
  {
    BlockCount(n);
    BlockCount(n + 1);
    FoldOfNext(compress, H0, data, block, n);
  }

  // ---------------------------------------------------------------- section 5.1.1

  function Pow256(n: nat): nat {
    if n == 0 then 1 else 256 * Pow256(n - 1)
  }

  lemma {:induction false} ValueOfBigEndian(value: nat, size: nat)
    requires value < Pow256(size)
    ensures Value(BigEndian(value, size)) == value
  {
    if size > 0 {
      var high, low := value / 256, value % 256;
      var b := BigEndian(high, size - 1) + [low];
      assert b[..size - 1] == BigEndian(high, size - 1);
      ValueOfBigEndian(high, size - 1);
    }
  }

  lemma EightBytes()
    ensures Pow256(8) == 0x1_0000_0000_0000_0000
  {
    assert Pow256(4) == 0x1_0000_0000;
  }

  lemma PartsOf(message: seq<byte>, zeros: seq<byte>, length: seq<byte>, p: seq<byte>)
    requires p == message + [0x80] + zeros + length && |length| == 8 && forall i :: 0 <= i < |zeros| ==> zeros[i] == 0
    ensures |p| == |message| + |zeros| + 9 && p[..|message|] == message && p[|message|] == 0x80
    ensures (forall i :: |message| < i < |p| - 8 ==> p[i] == 0) && p[|p| - 8..] == length
  {
  }

  lemma PadIs(message: seq<byte>, bits: nat)
    requires bits == 8 * |message| && bits < 0x1_0000_0000_0000_0000
    ensures Pad(message) == message + [0x80] + Zeros(PadZeros(|message|)) + BigEndian(bits, 8)
  {
    assert bits % 0x1_0000_0000_0000_0000 == bits;
  }

  lemma LengthOfShape(message: seq<byte>)
    ensures |Pad(message)| == |message| + PadZeros(|message|) + 9
  {
  }

  /** A padded message is the message, the byte 0x80, zeros as few as possible, and its length in bits. */
  lemma PaddedShape(message: seq<byte>, p: seq<byte>, n: nat)
    requires p == Pad(message) && n == |message| && 8 * n < 0x1_0000_0000_0000_0000
    ensures |p| % 64 == 0 && n + 9 <= |p| < n + 9 + 64 && p[..n] == message && p[n] == 0x80
    ensures (forall i :: n < i < |p| - 8 ==> p[i] == 0) && Value(p[|p| - 8..]) == 8 * n
  {
    LengthOfShape(message);
    EightBytes();
    ValueOfBigEndian(8 * n, 8);
    PadIs(message, 8 * n);
    PartsOf(message, Zeros(PadZeros(n)), BigEndian(8 * n, 8), p);
  }

  /** The digest is the words of the hash value one after the other. */
  lemma DigestWords(h: Vars)
    ensures Value(DigestBytes(h)[0..4]) == h.a && Value(DigestBytes(h)[4..8]) == h.b
    ensures Value(DigestBytes(h)[8..12]) == h.c && Value(DigestBytes(h)[12..16]) == h.d
    ensures Value(DigestBytes(h)[16..20]) == h.e && Value(DigestBytes(h)[20..24]) == h.f
    ensures Value(DigestBytes(h)[24..28]) == h.g && Value(DigestBytes(h)[28..32]) == h.h
  {
    var ws := [h.a, h.b, h.c, h.d, h.e, h.f, h.g, h.h];
    WordAt(ws, 0);
    WordAt(ws, 1);
    WordAt(ws, 2);
    WordAt(ws, 3);
    WordAt(ws, 4);
    WordAt(ws, 5);
    WordAt(ws, 6);
    WordAt(ws, 7);
  }

  lemma {:induction false} WordAt(ws: seq<word>, i: nat)
    requires i < |ws|
    ensures Value(WordsBytes(ws)[4 * i..4 * i + 4]) == ws[i]
  {
    var n := |ws| - 1;
    if i < n {
      WordAt(ws[..n], i);
      assert WordsBytes(ws)[4 * i..4 * i + 4] == WordsBytes(ws[..n])[4 * i..4 * i + 4];
    } else {
      assert WordsBytes(ws)[4 * i..4 * i + 4] == BigEndian(ws[n], 4);
      assert Pow256(4) == 0x1_0000_0000;
      ValueOfBigEndian(ws[n], 4);
    }
  }
}
