/** SHA-256 as a function of the whole message, after FIPS 180-4. */
module Sha256Spec {
  import opened Bytes
  import opened BlockChain
  import opened Sha256Bits

  /** The working variables, and the hash value. */
  datatype Vars = Vars(a: word, b: word, c: word, d: word, e: word, f: word, g: word, h: word)

  // ---------------------------------------------------------------- sections 4.2.2 and 5.3.3

  /** The constant of round t. */
  function K(t: nat): word
    requires t < 64
  {
    match t
    case 0 => 0x428a2f98 case 1 => 0x71374491 case 2 => 0xb5c0fbcf case 3 => 0xe9b5dba5
    case 4 => 0x3956c25b case 5 => 0x59f111f1 case 6 => 0x923f82a4 case 7 => 0xab1c5ed5
    case 8 => 0xd807aa98 case 9 => 0x12835b01 case 10 => 0x243185be case 11 => 0x550c7dc3
    case 12 => 0x72be5d74 case 13 => 0x80deb1fe case 14 => 0x9bdc06a7 case 15 => 0xc19bf174
    case 16 => 0xe49b69c1 case 17 => 0xefbe4786 case 18 => 0x0fc19dc6 case 19 => 0x240ca1cc
    case 20 => 0x2de92c6f case 21 => 0x4a7484aa case 22 => 0x5cb0a9dc case 23 => 0x76f988da
    case 24 => 0x983e5152 case 25 => 0xa831c66d case 26 => 0xb00327c8 case 27 => 0xbf597fc7
    case 28 => 0xc6e00bf3 case 29 => 0xd5a79147 case 30 => 0x06ca6351 case 31 => 0x14292967
    case 32 => 0x27b70a85 case 33 => 0x2e1b2138 case 34 => 0x4d2c6dfc case 35 => 0x53380d13
    case 36 => 0x650a7354 case 37 => 0x766a0abb case 38 => 0x81c2c92e case 39 => 0x92722c85
    case 40 => 0xa2bfe8a1 case 41 => 0xa81a664b case 42 => 0xc24b8b70 case 43 => 0xc76c51a3
    case 44 => 0xd192e819 case 45 => 0xd6990624 case 46 => 0xf40e3585 case 47 => 0x106aa070
    case 48 => 0x19a4c116 case 49 => 0x1e376c08 case 50 => 0x2748774c case 51 => 0x34b0bcb5
    case 52 => 0x391c0cb3 case 53 => 0x4ed8aa4a case 54 => 0x5b9cca4f case 55 => 0x682e6ff3
    case 56 => 0x748f82ee case 57 => 0x78a5636f case 58 => 0x84c87814 case 59 => 0x8cc70208
    case 60 => 0x90befffa case 61 => 0xa4506ceb case 62 => 0xbef9a3f7 case _ => 0xc67178f2
  }

  const H0: Vars := Vars(0x6A09E667, 0xBB67AE85, 0x3C6EF372, 0xA54FF53A, 0x510E527F, 0x9B05688C, 0x1F83D9AB, 0x5BE0CD19)

  // ---------------------------------------------------------------- section 5.1.1

  /** The low bytes of a number, most significant first. */
  function BigEndian(value: nat, size: nat): (r: seq<byte>)
    ensures |r| == size
  {
    if size == 0 then [] else BigEndian(value / 256, size - 1) + [value % 256]
  }

  /** The least number of zero bytes that makes the padded length a multiple of 64. */
  function PadZeros(len: nat): (r: nat)
    ensures r < 64 && (len + 1 + r + 8) % 64 == 0
  {
    (119 - len % 64) % 64
  }

  function Zeros(n: nat): (r: seq<byte>)
    ensures |r| == n && forall i :: 0 <= i < n ==> r[i] == 0
  {
    seq(n, _ => 0)
  }

  /**
    The message, a one bit, zeros, and the length in bits. FIPS 180-4 defines this for lengths
    below 2^64 bits, where the reduction does nothing.
    */
  function Pad(message: seq<byte>): (r: seq<byte>)
    ensures |r| % 64 == 0
  {
    message + [0x80] + Zeros(PadZeros(|message|)) + BigEndian(8 * |message| % 0x1_0000_0000_0000_0000, 8)
  }

  // ---------------------------------------------------------------- section 6.2.2

  /** Word t of a block, most significant byte first (section 3.1). */
  function BlockWord(block: Block, t: nat): word
    requires t < 16
  {
    BigEndianWord(block[4 * t], block[4 * t + 1], block[4 * t + 2], block[4 * t + 3])
  }

  function NextScheduleWord(w2: word, w7: word, w15: word, w16: word): word {
    Add(Add(Add(SmallSigma1(w2), w7), SmallSigma0(w15)), w16)
  }

  /** The words of a block. */
  function BlockWords(block: Block): (r: seq<word>)
    ensures |r| == 16
  {
    seq(16, t requires 0 <= t < 16 => BlockWord(block, t))
  }

  /** The message schedule: W[t] from W[t - 2], W[t - 7], W[t - 15] and W[t - 16], until there are 64 words. */
  function Schedule(w: seq<word>): (r: seq<word>)
    requires 16 <= |w| <= 64
    ensures |r| == 64
    decreases 64 - |w|
  {
    if |w| == 64 then w
    else Schedule(w + [NextScheduleWord(w[|w| - 2], w[|w| - 7], w[|w| - 15], w[|w| - 16])])
  }

  function Temp1(v: Vars, k: word, w: word): word {
    Add(Add(Add(Add(v.h, BigSigma1(v.e)), Ch(v.e, v.f, v.g)), k), w)
  }

  function Temp2(v: Vars): word {
    Add(BigSigma0(v.a), Maj(v.a, v.b, v.c))
  }

  function Round(v: Vars, k: word, w: word): Vars {
    Vars(Add(Temp1(v, k, w), Temp2(v)), v.a, v.b, v.c, Add(v.d, Temp1(v, k, w)), v.e, v.f, v.g)
  }

  /** The working variables after one round for each word of w. */
  function Rounds(v: Vars, w: seq<word>): Vars
    requires |w| <= 64
  {
    if w == [] then v else Round(Rounds(v, w[..|w| - 1]), K(|w| - 1), w[|w| - 1])
  }

  function AddVars(x: Vars, y: Vars): Vars {
    Vars(Add(x.a, y.a), Add(x.b, y.b), Add(x.c, y.c), Add(x.d, y.d),
         Add(x.e, y.e), Add(x.f, y.f), Add(x.g, y.g), Add(x.h, y.h))
  }

  function CompressBlock(h: Vars, block: Block): Vars {
    AddVars(h, Rounds(h, Schedule(BlockWords(block))))
  }

  /** The hash value after all blocks of the data. */
  function HashBlocks(data: seq<byte>): Vars
    requires |data| % 64 == 0
  {
    Fold(CompressBlock, H0, data, |data| / 64)
  }

  /** The bytes of words, each most significant first. */
  function WordsBytes(ws: seq<word>): (r: seq<byte>)
    ensures |r| == 4 * |ws|
  {
    if ws == [] then [] else WordsBytes(ws[..|ws| - 1]) + BigEndian(ws[|ws| - 1], 4)
  }

  function DigestBytes(h: Vars): (r: seq<byte>)
    ensures |r| == 32
  {
    WordsBytes([h.a, h.b, h.c, h.d, h.e, h.f, h.g, h.h])
  }

  function Digest(message: seq<byte>): (r: seq<byte>)
    ensures |r| == 32
  {
    DigestBytes(HashBlocks(Pad(message)))
  }
}
