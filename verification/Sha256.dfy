/**
  The streaming SHA-256 of src/base/hash_libtomcrypt.cpp: a context that takes the message in
  pieces, keeps an incomplete block, and compresses with a rotated array of working variables.
  */
module Sha256 {
  import opened Bytes
  import opened BlockChain
  import opened Common
  import opened Sha256Bits
  import opened Sha256Spec

  const U32_RANGE: int := 0x1_0000_0000
  const U64_RANGE: int := 0x1_0000_0000_0000_0000

  /** The registers as the standard names them. */
  function VarsOf(s: seq<word>): Vars
    requires |s| == 8
  {
    Vars(s[0], s[1], s[2], s[3], s[4], s[5], s[6], s[7])
  }

  // ---------------------------------------------------------------- sha_compress

  /** The code's Gamma0 and Gamma1 (its Sigma0 and Sigma1 use the same Rot). */
  function Gamma0(x: word): word {
    Xor3(Rot(x, 7), Rot(x, 18), Shr(x, 3))
  }

  function Gamma1(x: word): word {
    Xor3(Rot(x, 17), Rot(x, 19), Shr(x, 10))
  }

  function Sigma0(x: word): word {
    Xor3(Rot(x, 2), Rot(x, 13), Rot(x, 22))
  }

  function Sigma1(x: word): word {
    Xor3(Rot(x, 6), Rot(x, 11), Rot(x, 25))
  }

  lemma GammasAreSigmas(x: word)
    ensures Gamma0(x) == SmallSigma0(x) && Gamma1(x) == SmallSigma1(x)
    ensures Sigma0(x) == BigSigma0(x) && Sigma1(x) == BigSigma1(x)
  {
    RotIsRotr(x, 7);
    RotIsRotr(x, 18);
    RotIsRotr(x, 17);
    RotIsRotr(x, 19);
    RotIsRotr(x, 2);
    RotIsRotr(x, 13);
    RotIsRotr(x, 22);
    RotIsRotr(x, 6);
    RotIsRotr(x, 11);
    RotIsRotr(x, 25);
  }

  method LoadWord(src: array<byte>, at: nat) returns (x: word)
    requires at + 4 <= src.Length
    ensures x == BigEndianWord(src[at], src[at + 1], src[at + 2], src[at + 3])
  {
    Load32IsBigEndian(src[at], src[at + 1], src[at + 2], src[at + 3]);
    x := Load32(src[at], src[at + 1], src[at + 2], src[at + 3]);
  }

  method NextWord(w2: word, w7: word, w15: word, w16: word) returns (x: word)
    ensures x == NextScheduleWord(w2, w7, w15, w16)
  {
    GammasAreSigmas(w2);
    GammasAreSigmas(w15);
    x := Add(Add(Add(Gamma1(w2), w7), Gamma0(w15)), w16);
  }

  /** W[0..15] from the block. */
  method LoadBlock(src: array<byte>, offset: nat, w: array<word>)
    requires offset + 64 <= src.Length && w.Length == 64
    modifies w
    ensures w[..16] == BlockWords(src[offset..offset + 64])
  {
    ghost var block := src[offset..offset + 64];
    for i := 0 to 16
      invariant forall j :: 0 <= j < i ==> w[j] == BlockWord(block, j)
    {
      var x := LoadWord(src, offset + 4 * i);
      assert x == BlockWord(block, i);
      w[i] := x;
    }
  }

  /** W[16..63] from the words before. */
  method ExpandSchedule(src: array<byte>, offset: nat) returns (w: array<word>)
    requires offset + 64 <= src.Length
    ensures fresh(w) && w.Length == 64
    ensures w[..] == Schedule(BlockWords(src[offset..offset + 64]))
  {
    w := new word[64];
    LoadBlock(src, offset, w);
    ghost var first := w[..16];
    for i := 16 to 64
      invariant Schedule(w[..i]) == Schedule(first)
    {
      ghost var before := w[..i];
      w[i] := NextWord(w[i - 2], w[i - 7], w[i - 15], w[i - 16]);
      assert w[..i + 1] == before + [w[i]];
    }
    assert w[..64] == w[..];
  }

  /** The macro RND: the new values of d and h, without moving the others. */
  method Rnd(s: array<word>, k: word, w: word)
    requires s.Length == 8
    modifies s
    ensures s[3] == Add(old(s[3]), Temp1(old(VarsOf(s[..])), k, w))
    ensures s[7] == Add(Temp1(old(VarsOf(s[..])), k, w), Temp2(old(VarsOf(s[..]))))
    ensures forall j :: 0 <= j < 8 && j != 3 && j != 7 ==> s[j] == old(s[j])
  {
    ChFastIsCh(s[4], s[5], s[6]);
    MajFastIsMaj(s[0], s[1], s[2]);
    GammasAreSigmas(s[4]);
    GammasAreSigmas(s[0]);
    var t0 := Add(Add(Add(Add(s[7], Sigma1(s[4])), ChFast(s[4], s[5], s[6])), k), w);
    var t1 := Add(Sigma0(s[0]), MajFast(s[0], s[1], s[2]));
    s[3] := Add(s[3], t0);
    s[7] := Add(t0, t1);
  }

  /** The rotation after each round. */
  method Rotate(s: array<word>)
    requires s.Length == 8
    modifies s
    ensures s[0] == old(s[7]) && forall j :: 1 <= j < 8 ==> s[j] == old(s[j - 1])
  {
    var t := s[7];
    s[7] := s[6];
    s[6] := s[5];
    s[5] := s[4];
    s[4] := s[3];
    s[3] := s[2];
    s[2] := s[1];
    s[1] := s[0];
    s[0] := t;
  }

  /** A round of the standard, which renames all registers, is the macro and the rotation. */
  method RoundAndRotate(s: array<word>, k: word, w: word)
    requires s.Length == 8
    modifies s
    ensures VarsOf(s[..]) == Round(old(VarsOf(s[..])), k, w)
  {
    Rnd(s, k, w);
    Rotate(s);
  }

  lemma RoundsStep(v: Vars, w: seq<word>, i: nat)
    requires i < |w| <= 64
    ensures Rounds(v, w[..i + 1]) == Round(Rounds(v, w[..i]), K(i), w[i])
  {
    assert w[..i + 1][..i] == w[..i];
  }

  /** The 64 rounds. */
  method AllRounds(s: array<word>, w: array<word>)
    requires s.Length == 8 && w.Length == 64 && s != w
    modifies s
    ensures VarsOf(s[..]) == Rounds(old(VarsOf(s[..])), w[..])
  {
    ghost var h, all := VarsOf(s[..]), w[..];
    for i := 0 to 64
      invariant w[..] == all
      invariant VarsOf(s[..]) == Rounds(h, all[..i])
    {
      RoundsStep(h, all, i);
      var x := w[i];
      RoundAndRotate(s, K(i), x);
    }
    assert all[..64] == all;
  }

  /** The feedback. */
  method AddInto(state: array<word>, s: array<word>)
    requires state.Length == 8 && s.Length == 8 && state != s
    modifies state
    ensures VarsOf(state[..]) == AddVars(old(VarsOf(state[..])), VarsOf(s[..]))
  {
    for i := 0 to 8
      invariant forall j :: 0 <= j < i ==> state[j] == Add(old(state[j]), s[j])
      invariant forall j :: i <= j < 8 ==> state[j] == old(state[j])
    {
      state[i] := Add(state[i], s[i]);
    }
  }

  method Copy(state: array<word>) returns (s: array<word>)
    requires state.Length == 8
    ensures fresh(s) && s.Length == 8 && VarsOf(s[..]) == VarsOf(state[..])
  {
    s := new word[8];
    forall i | 0 <= i < 8 {
      s[i] := state[i];
    }
  }

  /** sha_compress is the compression function of the standard. */
  method Compress(state: array<word>, src: array<byte>, offset: nat)
    requires state.Length == 8 && offset + 64 <= src.Length
    modifies state
    ensures VarsOf(state[..]) == CompressBlock(old(VarsOf(state[..])), src[offset..offset + 64])
  {
    ghost var h, block := VarsOf(state[..]), src[offset..offset + 64];
    var w := ExpandSchedule(src, offset);
    var s := Copy(state);
    AllRounds(s, w);
    assert VarsOf(s[..]) == Rounds(h, Schedule(BlockWords(block)));
    AddInto(state, s);
  }

  // ---------------------------------------------------------------- store32 and store64

  lemma {:induction false} HighBitsTwice(x: nat, a: nat, b: nat)
    ensures HighBits(x, a + b) == HighBits(HighBits(x, a), b)
  {
    if a > 0 {
      HighBitsTwice(x / 2, a - 1, b);
    }
  }

  lemma HighBitsFew(x: nat)
    ensures HighBits(x, 4) == x / 16
  {
    assert HighBits(x / 4, 1) == HighBits(x / 8, 0);
    assert HighBits(x / 4, 2) == HighBits(x / 8, 1) == HighBits(x / 16, 0);
    assert HighBits(x, 4) == HighBits(x / 2, 3) == HighBits(x / 4, 2);
  }

  lemma HighBitsOfByte(x: nat, k: nat)
    ensures HighBits(x, 8 + k) == HighBits(x / 256, k)
  {
    HighBitsTwice(x, 8, k);
    HighBitsTwice(x, 4, 4);
    HighBitsFew(x);
    HighBitsFew(x / 16);
  }

  lemma {:induction false} BigEndianAt(value: nat, size: nat, i: nat)
    requires i < size
    ensures BigEndian(value, size)[i] == HighBits(value, 8 * (size - 1 - i)) % 256
  {
    if i < size - 1 {
      BigEndianAt(value / 256, size - 1, i);
      HighBitsOfByte(value, 8 * (size - 2 - i));
    }
  }

  /** y[i] = (x >> ((size - 1 - i) * 8)) & 255 */
  method Store(x: nat, y: array<byte>, at: nat, size: nat)
    requires at + size <= y.Length
    modifies y
    ensures y[at..at + size] == BigEndian(x, size)
    ensures forall k :: 0 <= k < y.Length && !(at <= k < at + size) ==> y[k] == old(y[k])
  {
    for i := 0 to size
      invariant forall k :: 0 <= k < i ==> y[at + k] == BigEndian(x, size)[k]
      invariant forall k :: 0 <= k < y.Length && !(at <= k < at + i) ==> y[k] == old(y[k])
    {
      BigEndianAt(x, size, i);
      y[at + i] := HighBits(x, 8 * (size - 1 - i)) % 256;
    }
  }

  /** The words of the state as bytes. */
  method StoreDigest(state: array<word>) returns (out: array<byte>)
    requires state.Length == 8
    ensures fresh(out) && out[..] == DigestBytes(VarsOf(state[..]))
  {
    out := new byte[32];
    for i := 0 to 8
      invariant out[..4 * i] == WordsBytes(state[..i])
    {
      ghost var before := out[..4 * i];
      Store(state[i], out, 4 * i, 4);
      assert out[..4 * i] == before;
      assert out[..4 * (i + 1)] == out[..4 * i] + out[4 * i..4 * i + 4];
      assert state[..i + 1][..i] == state[..i];
    }
    assert state[..8] == [state[0], state[1], state[2], state[3], state[4], state[5], state[6], state[7]];
    assert out[..32] == out[..];
  }

  // ---------------------------------------------------------------- the streaming context

  /** sha_compress as one more link of the chain. */
  method ExtendChain(state: array<word>, src: array<byte>, at: nat, ghost block: Block,
                     ghost done: seq<byte>, ghost chain: seq<Vars>)
    returns (ghost next: Vars)
    requires state.Length == 8 && at + 64 <= src.Length && block == src[at..at + 64]
    requires IsChain(CompressBlock, H0, done, chain) && VarsOf(state[..]) == chain[|chain| - 1]
    modifies state
    ensures VarsOf(state[..]) == next
    ensures IsChain(CompressBlock, H0, done + block, chain + [next])
  {
    Compress(state, src, at);
    next := VarsOf(state[..]);
    ChainGrows(CompressBlock, H0, done, chain, block, next);
  }

  lemma RemainderIs(q: nat, r: nat)
    requires r < U64_RANGE
    ensures (U64_RANGE * q + r) % U64_RANGE == r
  {
  }

  lemma RangesDropped(q: nat, x: nat)
    ensures (U64_RANGE * q + x) % U64_RANGE == x % U64_RANGE
  {
    var p, r := x / U64_RANGE, x % U64_RANGE;
    assert U64_RANGE * q + x == U64_RANGE * (q + p) + r;
    RemainderIs(q + p, r);
  }

  lemma LengthOfMessage(n: nat, rest: nat)
    ensures (8 * n % U64_RANGE + rest * 8) % U64_RANGE == 8 * (n + rest) % U64_RANGE
  {
    var q, r := 8 * n / U64_RANGE, 8 * n % U64_RANGE;
    assert 8 * (n + rest) == U64_RANGE * q + (r + 8 * rest);
    RangesDropped(q, r + 8 * rest);
  }

  lemma LengthOfBlock(n: nat)
    ensures (8 * n % U64_RANGE + 512) % U64_RANGE == 8 * (n + 64) % U64_RANGE
  {
    LengthOfMessage(n, 64);
  }

  lemma PartsJoined(done: seq<byte>, rest: seq<byte>, more: seq<byte>)
    ensures (done + rest) + more == done + (rest + more) == (done + (rest + more)) + []
  {
  }

  lemma NextPart(before: seq<byte>, data: seq<byte>, from: nat, to: nat)
    requires from <= to <= |data|
    ensures (before + data[..from]) + data[from..to] == before + data[..to]
  {
  }

  class Sha256Ctx {
    var length: int
    var state: array<word>
    var curlen: int
    var buf: array<byte>
    ghost var done: seq<byte>   // the part of the message that has been compressed
    ghost var chain: seq<Vars>  // the hash values on the way

    /** The registers belong to the compressed part. */
    ghost predicate Chained()
      reads this, state
    {
      && state.Length == 8
      && IsChain(CompressBlock, H0, done, chain)
      && VarsOf(state[..]) == chain[|chain| - 1]
    }

    ghost predicate Valid()
      reads this, state, buf
    {
      && buf.Length == 64 && 0 <= curlen < 64
      && Chained()
      && length == 8 * |done| % U64_RANGE
    }

    /** Everything taken so far. */
    ghost function Message(): seq<byte>
      reads this, buf
      requires 0 <= curlen <= buf.Length
    {
      done + buf[..curlen]
    }

    /** sha_init */
    constructor ()
      ensures Valid() && fresh(state) && fresh(buf)
      ensures Message() == []
    {
      length := 0;
      curlen := 0;
      state := new word[8][0x6A09E667, 0xBB67AE85, 0x3C6EF372, 0xA54FF53A,
                           0x510E527F, 0x9B05688C, 0x1F83D9AB, 0x5BE0CD19];
      buf := new byte[64];
      done := [];
      chain := [H0];
    }

    /** Compress a block that follows what is done. */
    method TakeBlock(src: array<byte>, at: nat)
      requires Valid() && at + 64 <= src.Length
      modifies this`length, this`done, this`chain, state
      ensures Valid()
      ensures done == old(done) + src[at..at + 64]
    {
      ghost var block: Block := src[at..at + 64];
      ghost var next := ExtendChain(state, src, at, block, done, chain);
      LengthOfBlock(|done|);
      length := (length + 8 * 64) % U64_RANGE;
      done := done + block;
      chain := chain + [next];
    }

    /** mem_copy of n bytes behind those in the buffer. */
    method BufferPart(data: array<byte>, at: nat, n: nat, ghost rest: seq<byte>)
      requires buf.Length == 64 && 0 <= curlen && at + n <= data.Length && curlen + n <= 64 && data != buf
      requires rest == buf[..curlen]
      modifies this`curlen, buf
      ensures curlen == |rest| + n && buf[..curlen] == rest + data[at..at + n]
    {
      forall k | 0 <= k < n {
        buf[curlen + k] := data[at + k];
      }
      curlen := curlen + n;
    }

    /** n bytes into the buffer, which is compressed when that fills it. */
    method TakePart(data: array<byte>, at: nat, n: nat)
      requires Valid() && at + n <= data.Length && curlen + n <= 64 && data != buf
      modifies this`length, this`done, this`chain, this`curlen, state, buf
      ensures Valid()
      ensures Message() == old(Message()) + data[at..at + n]
    {
      ghost var before, rest, more := done, buf[..curlen], data[at..at + n];
      BufferPart(data, at, n, rest);
      if curlen == 64 {
        curlen := 0;
        assert buf[0..64] == rest + more;
        TakeBlock(buf, 0);
        assert buf[..curlen] == [];
      }
      assert Message() == done + buf[..curlen];
      PartsJoined(before, rest, more);
    }

    /** A whole block, past the empty buffer. */
    method TakeWhole(data: array<byte>, at: nat)
      requires Valid() && at + 64 <= data.Length && curlen == 0 && data != buf
      modifies this`length, this`done, this`chain, state
      ensures Valid()
      ensures Message() == old(Message()) + data[at..at + 64]
    {
      assert buf[..curlen] == [];
      PartsJoined(done, [], data[at..at + 64]);
      TakeBlock(data, at);
    }

    /** sha_process */
    method Process(data: array<byte>, inlen: nat)
      requires Valid() && inlen <= data.Length && data != buf
      modifies this`length, this`done, this`chain, this`curlen, state, buf
      ensures Valid()
      ensures Message() == old(Message()) + data[..inlen]
    {
      var at := 0;
      ghost var before, bytes := Message(), data[..];
      while at < inlen
        invariant Valid() && 0 <= at <= inlen
        invariant Message() == before + bytes[..at]
        decreases inlen - at
      {
        ghost var from, taken := at, Message();
        if curlen == 0 && inlen - at >= 64 {
          TakeWhole(data, at);
          at := at + 64;
        } else {
          var n := Min(inlen - at, 64 - curlen);
          TakePart(data, at, n);
          at := at + n;
        }
        assert Message() == taken + bytes[from..at];
        NextPart(before, bytes, from, at);
      }
    }

    /**
      sha256_update: the length is a size_t here and a 32-bit number in sha_process, so exactly the
      updates below 2^32 bytes are taken completely.
      */
    method Update(data: array<byte>, dataLen: nat)
      requires Valid() && dataLen <= data.Length && data != buf
      modifies this`length, this`done, this`chain, this`curlen, state, buf
      ensures Valid()
      ensures Message() == old(Message()) + data[..dataLen % U32_RANGE]
      ensures Message() == old(Message()) + data[..dataLen] <==> dataLen < U32_RANGE
    {
      assert dataLen % U32_RANGE <= dataLen;
      Process(data, dataLen % U32_RANGE);
    }

    /** while(curlen < end) buf[curlen++] = 0; */
    method FillZeros(end: int)
      requires 0 <= curlen <= end <= buf.Length
      modifies this`curlen, buf
      ensures curlen == end
      ensures buf[..end] == old(buf[..curlen]) + Zeros(end - old(curlen))
    {
      ghost var from := curlen;
      while curlen < end
        invariant from <= curlen <= end
        invariant forall k :: 0 <= k < from ==> buf[k] == old(buf[k])
        invariant forall k :: from <= k < curlen ==> buf[k] == 0
      {
        buf[curlen] := 0;
        curlen := curlen + 1;
      }
    }

    /** md->buf[md->curlen++] = 0x80 */
    method PutOneBit(ghost rest: seq<byte>)
      requires buf.Length == 64 && 0 <= curlen < 64 && rest == buf[..curlen]
      modifies this`curlen, buf
      ensures curlen == |rest| + 1 && buf[..curlen] == rest + [0x80]
    {
      buf[curlen] := 0x80;
      curlen := curlen + 1;
    }

    /** The first of two blocks: zeros up to its end. */
    method FillFirst(ghost filled: seq<byte>) returns (ghost block: Block)
      requires buf.Length == 64 && curlen == |filled| <= 64 && buf[..curlen] == filled
      modifies this`curlen, buf
      ensures block == buf[0..64] && block == filled + Zeros(64 - |filled|)
    {
      FillZeros(64);
      assert buf[..64] == buf[0..64];
      block := buf[0..64];
    }

    /** The last block: zeros, and the length. */
    method FillLast(bits: nat, ghost filled: seq<byte>) returns (ghost block: Block)
      requires buf.Length == 64 && curlen == |filled| <= 56 && buf[..curlen] == filled
      modifies this`curlen, buf
      ensures block == buf[0..64] && block == filled + Zeros(56 - |filled|) + BigEndian(bits, 8)
    {
      FillZeros(56);
      ghost var start := buf[..56];
      Store(bits, buf, 56, 8);
      assert buf[..56] == start;
      assert buf[0..64] == buf[..56] + buf[56..64];
      block := buf[0..64];
    }

    /**
      The start of sha_done: the one bit, and when the length no longer fits, zeros up to the end
      of the block and its compression.
      */
    method PadFirst() returns (ghost all: seq<byte>, ghost links: seq<Vars>, ghost filled: seq<byte>)
      requires Chained() && buf.Length == 64 && 0 <= curlen < 64
      modifies this`curlen, state, buf
      ensures IsChain(CompressBlock, H0, all, links) && VarsOf(state[..]) == links[|links| - 1]
      ensures curlen == |filled| <= 56 && buf[..curlen] == filled
      ensures AfterFirst(done, old(buf[..curlen]), all, filled)
    {
      ghost var rest := buf[..curlen];
      all, links := done, chain;
      PutOneBit(rest);
      filled := rest + [0x80];
      if curlen > 56 {
        ghost var block := FillFirst(filled);
        ghost var next := ExtendChain(state, buf, 0, block, all, links);
        all, links := all + block, links + [next];
        curlen := 0;
        filled := [];
      }
    }

    method PadLast(bits: nat, ghost all: seq<byte>, ghost links: seq<Vars>, ghost filled: seq<byte>)
      returns (ghost whole: seq<byte>, ghost hashes: seq<Vars>)
      requires state.Length == 8 && buf.Length == 64
      requires IsChain(CompressBlock, H0, all, links) && VarsOf(state[..]) == links[|links| - 1]
      requires curlen == |filled| <= 56 && buf[..curlen] == filled
      modifies this`curlen, state, buf
      ensures whole == all + (filled + Zeros(56 - |filled|) + BigEndian(bits, 8))
      ensures IsChain(CompressBlock, H0, whole, hashes) && VarsOf(state[..]) == hashes[|hashes| - 1]
    {
      ghost var block := FillLast(bits, filled);
      ghost var last := ExtendChain(state, buf, 0, block, all, links);
      whole, hashes := all + block, links + [last];
    }

    /** Everything sha_done compresses; `bits` is the length of the message in bits. */
    method PadAll(bits: nat, ghost rest: seq<byte>) returns (ghost hash: Vars)
      requires Chained() && buf.Length == 64 && 0 <= curlen < 64
      requires rest == buf[..curlen] && bits == 8 * |done + rest| % U64_RANGE
      modifies this`curlen, state, buf
      ensures VarsOf(state[..]) == hash && DigestBytes(hash) == Digest(done + rest)
    {
      ghost var message := done + rest;
      LengthOfDone();
      ghost var all, links, filled := PadFirst();
      ghost var whole, hashes := PadLast(bits, all, links, filled);
      PaddedMessage(done, rest, all, bits, filled);
      LastLinkIsHash(message, whole, hashes);
      hash := VarsOf(state[..]);
    }

    lemma LengthOfDone()
      requires Chained()
      ensures |done| % 64 == 0
    {
      BlockCount(|chain| - 1);
    }

    /** sha_done: the digest of everything taken. The context is used up. */
    method Done() returns (out: array<byte>)
      requires Valid()
      modifies this`length, this`curlen, state, buf
      ensures out[..] == Digest(old(Message()))
    {
      ghost var rest := buf[..curlen];
      LengthOfMessage(|done|, curlen);
      length := (length + curlen * 8) % U64_RANGE;
      ghost var hash := PadAll(length, rest);
      out := StoreDigest(state);
    }
  }

  method UpdateWith(ctx: Sha256Ctx, piece: seq<byte>)
    requires ctx.Valid() && |piece| < U32_RANGE
    modifies ctx`length, ctx`done, ctx`chain, ctx`curlen, ctx.state, ctx.buf
    ensures ctx.Valid() && ctx.Message() == old(ctx.Message()) + piece
  {
    var data := new byte[|piece|](j requires 0 <= j < |piece| => piece[j]);
    assert data[..|piece|] == piece;
    ctx.Update(data, |piece|);
  }

  /** For every way of cutting a message into pieces, hashing the pieces in turn is hashing the message. */
  method HashPieces(pieces: seq<seq<byte>>) returns (digest: seq<byte>)
    requires forall i :: 0 <= i < |pieces| ==> |pieces[i]| < U32_RANGE
    ensures digest == Digest(Flatten(pieces))
  {
    var ctx := new Sha256Ctx();
    for i := 0 to |pieces|
      invariant ctx.Valid() && fresh(ctx) && fresh(ctx.state) && fresh(ctx.buf)
      invariant ctx.Message() == Flatten(pieces[..i])
    {
      UpdateWith(ctx, pieces[i]);
      FlattenNext(pieces, i);
    }
    assert pieces[..|pieces|] == pieces;
    var out := ctx.Done();
    digest := out[..];
  }

  /** The chain over a padded message ends in its hash value. */
  lemma LastLinkIsHash(message: seq<byte>, whole: seq<byte>, hashes: seq<Vars>)
    requires whole == Pad(message) && IsChain(CompressBlock, H0, whole, hashes)
    ensures DigestBytes(hashes[|hashes| - 1]) == Digest(message)
  {
    ChainEndsInFold(CompressBlock, H0, whole, hashes);
  }

  /** What is compressed, and what is in the buffer, when only the length and zeros before it are missing. */
  ghost predicate AfterFirst(done: seq<byte>, rest: seq<byte>, all: seq<byte>, filled: seq<byte>)
    requires |rest| < 64
  {
    if |rest| < 56 then filled == rest + [0x80] && all == done
    else filled == [] && all == done + (rest + [0x80] + Zeros(63 - |rest|))
  }

  /** The one or two blocks that sha_done builds are the padding of the standard. */
  lemma PaddedMessage(done: seq<byte>, rest: seq<byte>, all: seq<byte>, bits: int, filled: seq<byte>)
    requires |done| % 64 == 0 && |rest| < 64 && 0 <= bits
    requires bits == 8 * |done + rest| % U64_RANGE
    requires AfterFirst(done, rest, all, filled)
    ensures all + (filled + Zeros(56 - |filled|) + BigEndian(bits, 8)) == Pad(done + rest)
  {
    if |rest| < 56 {
      PaddedInOne(done, rest, BigEndian(bits, 8));
    } else {
      PaddedInTwo(done, rest, BigEndian(bits, 8));
    }
  }

  lemma PaddedInOne(done: seq<byte>, rest: seq<byte>, tail: seq<byte>)
    requires |done| % 64 == 0 && |rest| < 56
    ensures done + (rest + [0x80] + Zeros(55 - |rest|) + tail)
            == done + rest + [0x80] + Zeros(PadZeros(|done + rest|)) + tail
  {
    assert PadZeros(|done + rest|) == 55 - |rest|;
  }

  lemma PaddedInTwo(done: seq<byte>, rest: seq<byte>, tail: seq<byte>)
    requires |done| % 64 == 0 && 56 <= |rest| < 64
    ensures done + (rest + [0x80] + Zeros(63 - |rest|)) + ([] + Zeros(56) + tail)
            == done + rest + [0x80] + Zeros(PadZeros(|done + rest|)) + tail
  {
    assert PadZeros(|done + rest|) == 119 - |rest|;
    assert Zeros(119 - |rest|) == Zeros(63 - |rest|) + Zeros(56);
  }
}
