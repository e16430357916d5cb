/** Strings packed into 32-bit integers (src/game/gamecore.cpp): four signed characters plus 128 to an integer. */
module IntStrings {
  import opened Bytes
  import opened Utf8
  import opened Utf8Strings

  type int32 = n: int | -0x8000_0000 <= n < 0x8000_0000

  /** The value of a byte as a signed char, and back. */
  function Signed(b: byte): (r: int)
    ensures -128 <= r < 128
  {
    if b < 128 then b else b - 256
  }

  function Unsigned(c: int): (r: byte)
    requires -128 <= c < 128
  {
    if c < 0 then c + 256 else c
  }

  /** The 32 bits of a number below 2^32 as an int. */
  function ToInt32(n: int): (r: int32)
    requires 0 <= n < 0x1_0000_0000
  {
    if n < 0x8000_0000 then n else n - 0x1_0000_0000
  }

  /** ((b0 + 128) << 24) | ((b1 + 128) << 16) | ((b2 + 128) << 8) | (b3 + 128): the four parts share no bit. */
  function Pack(b0: byte, b1: byte, b2: byte, b3: byte): (r: int32)
  {
    ToInt32((Signed(b0) + 128) * 0x100_0000 + (Signed(b1) + 128) * 0x1_0000
            + (Signed(b2) + 128) * 0x100 + (Signed(b3) + 128))
  }

  /** n &= 0xFFFFFF00 */
  function MaskLast(n: int32): (r: int32)
    ensures r == n - n % 256
  {
    n / 256 * 256
  }

  /** ((n >> (24 - 8 * c)) & 0xff) - 128, stored in a char; >> on a negative number rounds down. */
  function UnpackAt(n: int32, c: nat): (r: byte)
    requires c < 4
  {
    Unsigned((if c == 0 then n / 0x100_0000 else if c == 1 then n / 0x1_0000
              else if c == 2 then n / 0x100 else n) % 256 - 128)
  }

  /** Quotients of a number written with one signed and three unsigned digits. */
  lemma Quotients(top: int, x1: int, x2: int, x3: int)
    requires 0 <= x1 < 256 && 0 <= x2 < 256 && 0 <= x3 < 256
    ensures var n := top * 0x100_0000 + x1 * 0x1_0000 + x2 * 0x100 + x3;
            && n % 0x100 == x3
            && n / 0x100 == top * 0x1_0000 + x1 * 0x100 + x2
            && n / 0x1_0000 == top * 0x100 + x1
            && n / 0x100_0000 == top
  {
  }

  lemma Remainder(q: int, r: int)
    requires 0 <= r < 256
    ensures (q * 256 + r) % 256 == r
  {
  }

  lemma UnpackOfPack(b0: byte, b1: byte, b2: byte, b3: byte)
    ensures var n := Pack(b0, b1, b2, b3);
            UnpackAt(n, 0) == b0 && UnpackAt(n, 1) == b1 && UnpackAt(n, 2) == b2 && UnpackAt(n, 3) == b3
  {
    var x0, x1, x2, x3 := Signed(b0) + 128, Signed(b1) + 128, Signed(b2) + 128, Signed(b3) + 128;
    var top := if x0 < 128 then x0 else x0 - 256;
    Quotients(top, x1, x2, x3);
    Remainder(top * 0x100 + x1, x2);
    Remainder(top, x1);
    Remainder(if x0 < 128 then 0 else -1, x0);
  }

  lemma UnpackOfMasked(n: int32, c: nat)
    requires c < 3
    ensures UnpackAt(MaskLast(n), c) == UnpackAt(n, c)
  {
    var q, m := n / 256, MaskLast(n);
    assert m == q * 256 && m / 256 == q;
    assert n / 0x1_0000 == q / 0x100 && m / 0x1_0000 == q / 0x100;
    assert n / 0x100_0000 == q / 0x1_0000 && m / 0x100_0000 == q / 0x1_0000;
  }

  // ---------------------------------------------------------------- what the integers are

  /** The 32 bits of the integer are the bytes, each plus 128 modulo 256, the first one on top. */
  lemma PackIsBigEndian(b0: byte, b1: byte, b2: byte, b3: byte)
    ensures Pack(b0, b1, b2, b3) % 0x1_0000_0000
            == (b0 + 128) % 256 * 0x100_0000 + (b1 + 128) % 256 * 0x1_0000 + (b2 + 128) % 256 * 0x100 + (b3 + 128) % 256
  {
    OffsetByte(b0);
    OffsetByte(b1);
    OffsetByte(b2);
    OffsetByte(b3);
  }

  lemma OffsetByte(b: byte)
    ensures Signed(b) + 128 == (b + 128) % 256
  {
  }

  lemma SignedOfUnsigned(x: nat)
    requires x < 256
    ensures Signed(Unsigned(x - 128)) + 128 == x
  {
  }

  lemma DigitsOf(n: int) returns (top: int, x0: nat, x1: nat, x2: nat, x3: nat)
    ensures x0 < 256 && x1 < 256 && x2 < 256 && x3 < 256
    ensures n == (256 * top + x0) * 0x100_0000 + x1 * 0x1_0000 + x2 * 0x100 + x3
    ensures n % 256 == x3 && n / 0x100 % 256 == x2 && n / 0x1_0000 % 256 == x1 && n / 0x100_0000 % 256 == x0
  {
    var q1 := n / 256;
    var q2 := q1 / 256;
    var q3 := q2 / 256;
    top, x0, x1, x2, x3 := q3 / 256, q3 % 256, q2 % 256, q1 % 256, n % 256;
    Quotients(q3, x1, x2, x3);
  }

  lemma ToInt32Is(n: int32, low: nat, top: int)
    requires low < 0x1_0000_0000 && n == top * 0x1_0000_0000 + low
    ensures ToInt32(low) == n
  {
  }

  /** Packing the four bytes of any integer gives it back: no two integers unpack to the same bytes. */
  lemma PackOfUnpack(n: int32)
    ensures Pack(UnpackAt(n, 0), UnpackAt(n, 1), UnpackAt(n, 2), UnpackAt(n, 3)) == n
  {
    var top, x0, x1, x2, x3 := DigitsOf(n);
    SignedOfUnsigned(x0);
    SignedOfUnsigned(x1);
    SignedOfUnsigned(x2);
    SignedOfUnsigned(x3);
    ToInt32Is(n, x0 * 0x100_0000 + x1 * 0x1_0000 + x2 * 0x100 + x3, top);
  }

  // ---------------------------------------------------------------- the specification

  /** Byte k of the string padded with null bytes. */
  function Padded(s: seq<byte>, k: nat): byte {
    if k < |s| then s[k] else 0
  }

  /** Integer i of the packed string. */
  function PackedAt(s: seq<byte>, i: nat): int32 {
    Pack(Padded(s, 4 * i), Padded(s, 4 * i + 1), Padded(s, 4 * i + 2), Padded(s, 4 * i + 3))
  }

  /** The whole string as numInts integers; the last byte of the last one is cleared. */
  function Packed(s: seq<byte>, numInts: nat): (r: seq<int32>)
    requires numInts > 0
    ensures |r| == numInts
  {
    seq(numInts, i requires 0 <= i < numInts => if i == numInts - 1 then MaskLast(PackedAt(s, i)) else PackedAt(s, i))
  }

  /** The bytes of some integers; the last one is replaced by the terminator. */
  function Unpacked(ints: seq<int32>): (r: seq<byte>)
    requires |ints| > 0
    ensures |r| == 4 * |ints| && r[|r| - 1] == 0
  {
    seq(4 * |ints|, k requires 0 <= k < 4 * |ints| => if k == 4 * |ints| - 1 then 0 else UnpackAt(ints[k / 4], k % 4))
  }

  lemma UnpackedByte(s: CString, numInts: nat, k: nat)
    requires numInts > 0 && |s| + 1 <= 4 * numInts && k < 4 * numInts
    ensures Unpacked(Packed(s, numInts))[k] == Padded(s, k)
  {
    var i, c := k / 4, k % 4;
    UnpackOfPack(Padded(s, 4 * i), Padded(s, 4 * i + 1), Padded(s, 4 * i + 2), Padded(s, 4 * i + 3));
    if c < 3 {
      UnpackOfMasked(PackedAt(s, i), c);
    }
  }

  /** Unpacking what was packed gives the string back, padded with null bytes. */
  lemma UnpackedOfPacked(s: CString, numInts: nat)
    requires numInts > 0 && |s| + 1 <= 4 * numInts
    ensures StrOf(Unpacked(Packed(s, numInts))) == s
  {
    var mem := Unpacked(Packed(s, numInts));
    forall k: nat | k < 4 * numInts
      ensures mem[k] == Padded(s, k)
    {
      UnpackedByte(s, numInts, k);
    }
    assert mem[..|s|] == s;
    StrOfUnique(mem, s);
  }

  // ---------------------------------------------------------------- StrToInts

  /** The inner loop: four bytes of the string, and zeros behind its end. */
  method ReadFour(str: CString, i: nat) returns (buf: array<byte>)
    ensures fresh(buf) && buf.Length == 4
    ensures forall c :: 0 <= c < 4 ==> buf[c] == Padded(str, i * 4 + c)
  {
    var strSize := |str| + 1;
    buf := new byte[4](_ => 0);
    var c := 0;
    while c < 4 && i * 4 + c < strSize
      invariant c <= 4 && (c > 0 ==> i * 4 + c <= strSize)
      invariant forall k :: 0 <= k < c ==> buf[k] == Padded(str, i * 4 + k)
      invariant forall k :: c <= k < 4 ==> buf[k] == 0
    {
      buf[c] := At(str, i * 4 + c);
      c := c + 1;
    }
  }

  method StrToInts(ints: array<int32>, numInts: nat, str: CString)
    requires 0 < numInts <= ints.Length
    requires |str| + 1 <= numInts * 4
    modifies ints
    ensures ints[..numInts] == Packed(str, numInts)
    ensures forall k :: numInts <= k < ints.Length ==> ints[k] == old(ints[k])
  {
    for i := 0 to numInts
      invariant forall k :: 0 <= k < i ==> ints[k] == PackedAt(str, k)
      invariant forall k :: numInts <= k < ints.Length ==> ints[k] == old(ints[k])
    {
      var buf := ReadFour(str, i);
      ints[i] := Pack(buf[0], buf[1], buf[2], buf[3]);
    }
    ints[numInts - 1] := MaskLast(ints[numInts - 1]);
  }

  // ---------------------------------------------------------------- IntsToStr

  /** The loop that unpacks the bytes without validation. */
  method UnpackInto(ints: array<int32>, numInts: nat, str: array<byte>) returns (strIndex: nat)
    requires numInts <= ints.Length && numInts * 4 <= str.Length
    modifies str
    ensures strIndex == 4 * numInts
    ensures forall k :: 0 <= k < 4 * numInts ==> str[k] == UnpackAt(ints[k / 4], k % 4)
    ensures forall k :: numInts * 4 <= k < str.Length ==> str[k] == old(str[k])
  {
    strIndex := 0;
    for intIndex := 0 to numInts
      invariant strIndex == 4 * intIndex
      invariant forall k :: 0 <= k < strIndex ==> str[k] == UnpackAt(ints[k / 4], k % 4)
      invariant forall k :: numInts * 4 <= k < str.Length ==> str[k] == old(str[k])
    {
      var currentInt := ints[intIndex];
      str[strIndex] := UnpackAt(currentInt, 0);
      strIndex := strIndex + 1;
      str[strIndex] := UnpackAt(currentInt, 1);
      strIndex := strIndex + 1;
      str[strIndex] := UnpackAt(currentInt, 2);
      strIndex := strIndex + 1;
      str[strIndex] := UnpackAt(currentInt, 3);
      strIndex := strIndex + 1;
    }
  }

  /** The same with the last byte replaced by the terminator. */
  method UnpackAll(ints: array<int32>, numInts: nat, str: array<byte>)
    requires 0 < numInts <= ints.Length && numInts * 4 <= str.Length
    modifies str
    ensures str[..4 * numInts] == Unpacked(ints[..numInts])
    ensures forall k :: numInts * 4 <= k < str.Length ==> str[k] == old(str[k])
  {
    var strIndex := UnpackInto(ints, numInts, str);
    str[strIndex - 1] := 0;
  }

  method IntsToStr(ints: array<int32>, numInts: nat, str: array<byte>, strSize: nat) returns (ok: bool)
    requires 0 < numInts <= ints.Length
    requires numInts * 4 <= strSize <= str.Length
    modifies str
    ensures var s := StrOf(Unpacked(ints[..numInts]));
            (ok <==> IsValid(s)) && StrOf(str[..]) == if ok then s else []
    ensures forall k :: numInts * 4 <= k < str.Length ==> str[k] == old(str[k])
  {
    UnpackAll(ints, numInts, str);
    StrOfPrefix(str[..], Unpacked(ints[..numInts]));
    var valid := Check(StrOf(str[..]));
    if valid {
      return true;
    }
    str[0] := 0;
    StrOfUnique(str[..], []);
    return false;
  }

  /** A string that ends in a part of the memory is the same in all of it. */
  lemma StrOfPrefix(mem: seq<byte>, start: seq<byte>)
    requires start != [] && start[|start| - 1] == 0 && |start| <= |mem| && mem[..|start|] == start
    ensures StrOf(mem) == StrOf(start)
  {
    StrOfEnds(start);
    var s := StrOf(start);
    assert mem[..|s|] == start[..|s|];
    StrOfUnique(mem, s);
  }

  lemma {:induction false} StrOfEnds(mem: seq<byte>)
    requires mem != [] && mem[|mem| - 1] == 0
    ensures var s := StrOf(mem); |s| < |mem| && s == mem[..|s|] && mem[|s|] == 0
  {
    if mem[0] != 0 {
      StrOfEnds(mem[1..]);
    }
  }

  /**
    Packing and unpacking any string that fits: valid UTF-8 comes back unchanged, with success;
    anything else comes back as failure and an empty string.
    */
  method PackAndUnpack(s: CString, numInts: nat) returns (ok: bool, result: CString)
    requires numInts > 0 && |s| + 1 <= 4 * numInts
    ensures ok <==> IsValid(s)
    ensures result == if ok then s else []
  {
    var ints := new int32[numInts];
    StrToInts(ints, numInts, s);
    var str := new byte[4 * numInts];
    ok := IntsToStr(ints, numInts, str, 4 * numInts);
    UnpackedOfPacked(s, numInts);
    result := StrOf(str[..]);
  }
}
