/** str_base64 and str_base64_decode (src/base/str.cpp), against section 4 of RFC 4648. */
module Base64 {
  import opened Bytes
  import opened Common
  import opened GroupCode
  import opened Utf8Strings

  const PAD: byte := 61  // '='

  // ---------------------------------------------------------------- the alphabet

  /** "ABC...Zabc...z0123456789+/" */
  function Digit(v: int): (r: byte)
    requires 0 <= v < 64
    ensures r != 0 && r != PAD
  {
    if v < 26 then 65 + v
    else if v < 52 then 97 + (v - 26)
    else if v < 62 then 48 + (v - 52)
    else if v == 62 then 43
    else 47
  }

  // ---------------------------------------------------------------- the encoding

  /** One group of up to three bytes, as four characters. */
  function EncodeGroup(d: Group): Quad
  {
    var d1 := if |d| > 1 then d[1] else 0;
    var d2 := if |d| > 2 then d[2] else 0;
    [Digit(d[0] / 4),
     Digit(d[0] % 4 * 16 + d1 / 16),
     if |d| > 1 then Digit(d1 % 16 * 4 + d2 / 64) else PAD,
     if |d| > 2 then Digit(d2 % 64) else PAD]
  }

  /** Byte k, or zero behind the end. */
  function ByteOr0(data: seq<byte>, k: nat): byte {
    if k < |data| then data[k] else 0
  }

  /** Character o of the encoding. */
  function CharAt(data: seq<byte>, o: nat): byte
  {
    var base := o / 4 * 3;
    match o % 4
    case 0 => Digit(ByteOr0(data, base) / 4)
    case 1 => Digit(ByteOr0(data, base) % 4 * 16 + ByteOr0(data, base + 1) / 16)
    case 2 => if base + 1 < |data| then Digit(ByteOr0(data, base + 1) % 16 * 4 + ByteOr0(data, base + 2) / 64) else PAD
    case _ => if base + 2 < |data| then Digit(ByteOr0(data, base + 2) % 64) else PAD
  }

  lemma CharAtShift(data: seq<byte>, o: nat)
    requires |data| >= 3
    ensures CharAt(data[3..], o) == CharAt(data, o + 4)
  {
    var base := o / 4 * 3;
    assert (o + 4) / 4 * 3 == base + 3 && (o + 4) % 4 == o % 4;
    assert forall k: nat :: ByteOr0(data[3..], k) == ByteOr0(data, k + 3);
  }

  lemma CharOfGroup(data: seq<byte>, o: nat)
    requires data != [] && o < 4
    ensures EncodeGroup(data[..Min(3, |data|)])[o] == CharAt(data, o)
  {
  }

  lemma {:induction false} EncodedAt(data: seq<byte>, o: nat)
    requires o < |Encoded(EncodeGroup, data)|
    ensures Encoded(EncodeGroup, data)[o] == CharAt(data, o)
    decreases |data|
  {
    if o < 4 {
      CharOfGroup(data, o);
      assert |data| <= 3 ==> data[..Min(3, |data|)] == data;
    } else {
      EncodedAt(data[3..], o - 4);
      CharAtShift(data, o - 4);
    }
  }

  // ---------------------------------------------------------------- str_base64

  lemma Multiple(a: nat, c: nat)
    ensures (4096 * a + c) % 4096 == c % 4096
  {
  }

  lemma Multiple64(a: nat, c: nat)
    ensures (64 * a + c) % 64 == c % 64
  {
  }

  /** value = (value << 8) | b, in 32 bits. Only the low twelve bits are ever used again. */
  function Shl8Or(value: nat, b: byte): (r: nat)
    ensures r < 0x1_0000_0000
  {
    (value * 256 + b) % 0x1_0000_0000
  }

  lemma Shl8OrLow(value: nat, b: byte)
    ensures Shl8Or(value, b) % 4096 == value % 4096 % 16 * 256 + b
  {
    assert value % 4096 % 16 == value % 16;
    var q, r := value / 16, value % 16;
    var x := value * 256 + b;
    assert x == 4096 * q + (r * 256 + b);
    Multiple(q, r * 256 + b);
    var k, y := x / 0x1_0000_0000, x % 0x1_0000_0000;
    assert x == 4096 * (0x10_0000 * k) + y;
    Multiple(0x10_0000 * k, y);
  }

  /** The next six bits, with zeros behind the last byte. */
  function Padded(value: nat, numBits: nat): (r: nat)
    ensures r < 64
  {
    (if numBits >= 6 then
       (if numBits == 6 then value else if numBits == 8 then value / 4
        else if numBits == 10 then value / 16 else value / 64)
     else
       (if numBits == 2 then value * 16 else value * 4)) % 64
  }

  lemma PaddedLow(value: nat, numBits: nat)
    ensures Padded(value, numBits) == Padded(value % 4096, numBits)
  {
    var q, w := value / 4096, value % 4096;
    assert value == 4096 * q + w;
    if numBits == 6 {
      Multiple64(64 * q, w);
    } else if numBits == 8 {
      assert value / 4 == 64 * (16 * q) + w / 4;
      Multiple64(16 * q, w / 4);
    } else if numBits == 10 {
      assert value / 16 == 64 * (4 * q) + w / 16;
      Multiple64(4 * q, w / 16);
    } else if numBits > 6 {
      assert value / 64 == 64 * q + w / 64;
      Multiple64(q, w / 64);
    } else if numBits == 2 {
      assert value * 16 == 64 * (1024 * q) + w * 16;
      Multiple64(1024 * q, w * 16);
    } else {
      assert value * 4 == 64 * (256 * q) + w * 4;
      Multiple64(256 * q, w * 4);
    }
  }

  /** What the loop of the encoder knows at output position o; w is the low end of the accumulator. */
  predicate EncoderAt(d: seq<byte>, i: nat, o: nat, w: nat, numBits: int) {
    var base := o / 4 * 3;
    && i <= |d| && w < 4096
    && match o % 4
       case 0 => (numBits == 0 && i == base) || (numBits < 0 && i == |d| && base >= |d|)
       case 1 => numBits == 2 && i == base + 1 && w % 4 == d[base] % 4
       case 2 => (numBits == 4 && i == base + 2 && w % 16 == d[base + 1] % 16)
                 || (numBits == -4 && i == |d| == base + 1)
       case _ => (numBits == 6 && i == base + 3 && w % 64 == d[base + 2] % 64)
                 || (numBits == -2 && i == |d| == base + 2) || (numBits == -4 && i == |d| == base + 1)
  }

  /** The same after the next byte has been read if there is one and it is needed. */
  predicate EncoderReady(d: seq<byte>, i: nat, o: nat, w: nat, numBits: int) {
    var base := o / 4 * 3;
    && i <= |d| && w < 4096
    && match o % 4
       case 0 => (numBits == 8 && i == base + 1 && w % 256 == d[base]) || (numBits <= 0 && i == |d| && base >= |d|)
       case 1 => (numBits == 10 && i == base + 2 && w % 1024 == (d[base] as int) % 4 * 256 + d[base + 1])
                 || (numBits == 2 && i == |d| == base + 1 && w % 4 == d[base] % 4)
       case 2 => (numBits == 12 && i == base + 3 && w == (d[base + 1] as int) % 16 * 256 + d[base + 2])
                 || (numBits == 4 && i == |d| == base + 2 && w % 16 == d[base + 1] % 16)
                 || (numBits == -4 && i == |d| == base + 1)
       case _ => EncoderAt(d, i, o, w, numBits)
  }

  lemma ReadByte(d: seq<byte>, i: nat, o: nat, w: nat, numBits: int)
    requires EncoderAt(d, i, o, w, numBits)
    ensures if numBits < 6 && i < |d| then EncoderReady(d, i + 1, o, w % 16 * 256 + d[i], numBits + 8)
            else EncoderReady(d, i, o, w, numBits)
  {
    if numBits < 6 && i < |d| {
      LowBitsAfter(w, d[i]);
    }
  }

  /** What the low bits of the accumulator are when a byte has been shifted in. */
  lemma LowBitsAfter(w: nat, b: byte)
    ensures var v: int := w % 16 * 256 + b;
            v < 4096 && v % 256 == b && v % 1024 == w % 4 * 256 + b
  {
    var q, r := w % 16 / 4, w % 16 % 4;
    LowDigit(w / 16, q, r);
    LowBits(q, r, b);
  }

  lemma LowDigit(p: nat, q: nat, r: nat)
    requires q < 4 && r < 4
    ensures (16 * p + 4 * q + r) % 4 == r
  {
  }

  lemma LowBits(q: nat, r: nat, b: byte)
    requires q < 4 && r < 4
    ensures var v: int := (4 * q + r) * 256 + b;
            v < 4096 && v % 256 == b && v % 1024 == r * 256 + b
  {
  }

  lemma NextPosition(o: nat)
    ensures o % 4 < 3 ==> (o + 1) / 4 == o / 4 && (o + 1) % 4 == o % 4 + 1
    ensures o % 4 == 3 ==> (o + 1) / 4 == o / 4 + 1 && (o + 1) % 4 == 0
  {
  }

  lemma SixOfEight(w: nat)
    ensures w / 4 % 64 == w % 256 / 4 && w % 4 == w % 256 % 4
  {
    var p, r := w / 256, w % 256;
    assert w / 4 == 64 * p + r / 4 && w % 4 == r % 4;
    Multiple64(p, r / 4);
  }

  lemma WriteFirst(d: seq<byte>, i: nat, o: nat, w: nat)
    requires EncoderReady(d, i, o, w, 8) && o % 4 == 0
    ensures Digit(Padded(w, 8)) == CharAt(d, o) && EncoderAt(d, i, o + 1, w, 2)
  {
    NextPosition(o);
    SixOfEight(w);
  }

  lemma SixOfTen(a: nat, b: nat, w: nat)
    requires a < 4 && b < 256 && w % 1024 == a * 256 + b
    ensures w / 16 % 64 == a * 16 + b / 16 && w % 16 == b % 16
  {
    var p := w / 1024;
    assert w == 1024 * p + (a * 256 + b);
    assert w / 16 == 64 * p + (a * 16 + b / 16);
    Multiple64(p, a * 16 + b / 16);
  }

  lemma WriteSecond(d: seq<byte>, i: nat, o: nat, w: nat)
    requires EncoderReady(d, i, o, w, 10) && o % 4 == 1
    ensures Digit(Padded(w, 10)) == CharAt(d, o) && EncoderAt(d, i, o + 1, w, 4)
  {
    NextPosition(o);
    SixOfTen((d[o / 4 * 3] as int) % 4, d[o / 4 * 3 + 1], w);
  }

  lemma WriteSecondOfLast(d: seq<byte>, i: nat, o: nat, w: nat)
    requires EncoderReady(d, i, o, w, 2) && o % 4 == 1
    ensures Digit(Padded(w, 2)) == CharAt(d, o) && EncoderAt(d, i, o + 1, w, -4)
  {
    NextPosition(o);
    assert w * 16 % 64 == w % 4 * 16;
  }

  lemma WriteThird(d: seq<byte>, i: nat, o: nat, w: nat)
    requires EncoderReady(d, i, o, w, 12) && o % 4 == 2
    ensures Digit(Padded(w, 12)) == CharAt(d, o) && EncoderAt(d, i, o + 1, w, 6)
  {
    NextPosition(o);
  }

  lemma WriteThirdOfLast(d: seq<byte>, i: nat, o: nat, w: nat)
    requires EncoderReady(d, i, o, w, 4) && o % 4 == 2
    ensures Digit(Padded(w, 4)) == CharAt(d, o) && EncoderAt(d, i, o + 1, w, -2)
  {
    NextPosition(o);
    assert w * 4 % 64 == w % 16 * 4;
  }

  lemma WriteFourth(d: seq<byte>, i: nat, o: nat, w: nat, numBits: int)
    requires EncoderReady(d, i, o, w, numBits) && o % 4 == 3 && numBits > 0
    ensures Digit(Padded(w, numBits)) == CharAt(d, o) && EncoderAt(d, i, o + 1, w, numBits - 6)
  {
    NextPosition(o);
  }

  lemma WriteDigit(d: seq<byte>, i: nat, o: nat, value: nat, numBits: int)
    requires EncoderReady(d, i, o, value % 4096, numBits) && numBits > 0
    ensures Digit(Padded(value, numBits)) == CharAt(d, o)
    ensures EncoderAt(d, i, o + 1, value % 4096, numBits - 6)
    ensures o < (|d| + 2) / 3 * 4
  {
    PaddedLow(value, numBits);
    match o % 4 {
      case 0 => WriteFirst(d, i, o, value % 4096);
      case 1 =>
        if numBits == 10 {
          WriteSecond(d, i, o, value % 4096);
        } else {
          WriteSecondOfLast(d, i, o, value % 4096);
        }
      case 2 =>
        if numBits == 12 {
          WriteThird(d, i, o, value % 4096);
        } else {
          WriteThirdOfLast(d, i, o, value % 4096);
        }
      case _ => WriteFourth(d, i, o, value % 4096, numBits);
    }
  }

  lemma WritePad(d: seq<byte>, i: nat, o: nat, value: nat, numBits: int)
    requires EncoderReady(d, i, o, value, numBits) && numBits <= 0
    ensures o % 4 != 0 ==> PAD == CharAt(d, o) && EncoderAt(d, i, o + 1, value, numBits) && o < (|d| + 2) / 3 * 4
    ensures o % 4 == 0 ==> o >= (|d| + 2) / 3 * 4
  {
    var q, r := o / 4, o % 4;
    assert r < 3 ==> (o + 1) / 4 == q && (o + 1) % 4 == r + 1;
    assert r == 3 ==> (o + 1) / 4 == q + 1 && (o + 1) % 4 == 0;
  }

  /** A buffer whose first o characters are those of the encoding, followed by a null byte. */
  lemma PrefixWritten(mem: seq<byte>, d: seq<byte>, o: nat)
    requires o < |mem| && o <= |Encoded(EncodeGroup, d)| && mem[o] == 0
    requires forall k :: 0 <= k < o ==> mem[k] == CharAt(d, k)
    ensures StrOf(mem) == Encoded(EncodeGroup, d)[..o]
  {
    forall k | 0 <= k < o ensures mem[k] == Encoded(EncodeGroup, d)[k] {
      EncodedAt(d, k);
    }
    assert mem[..o] == Encoded(EncodeGroup, d)[..o];
    StrOfUnique(mem, Encoded(EncodeGroup, d)[..o]);
  }

  /** The first half of the loop body: another byte if fewer than six bits are left. */
  method ReadStep(data: array<byte>, dataSize: nat, value0: nat, numBits0: int, i0: nat, ghost o: nat)
    returns (value: nat, numBits: int, i: nat)
    requires dataSize <= data.Length && EncoderAt(data[..dataSize], i0, o, value0 % 4096, numBits0)
    ensures EncoderReady(data[..dataSize], i, o, value % 4096, numBits)
  {
    value, numBits, i := value0, numBits0, i0;
    ghost var d, w := data[..dataSize], value % 4096;
    ReadByte(d, i, o, w, numBits);
    if numBits < 6 && i < dataSize {
      Shl8OrLow(value, data[i]);
      value := Shl8Or(value, data[i]);
      assert value % 4096 == w % 16 * 256 + d[i];
      numBits := numBits + 8;
      i := i + 1;
    }
  }

  /** The second half: the character for position o, or the end of the encoding. */
  method WriteStep(ghost d: seq<byte>, value: nat, numBits0: int, ghost i: nat, o: nat)
    returns (c: byte, numBits: int, end: bool)
    requires EncoderReady(d, i, o, value % 4096, numBits0) && o <= (|d| + 2) / 3 * 4
    ensures end ==> o == (|d| + 2) / 3 * 4 && c == 0
    ensures !end ==> o < (|d| + 2) / 3 * 4 && c == CharAt(d, o) && EncoderAt(d, i, o + 1, value % 4096, numBits)
  {
    numBits := numBits0;
    if numBits > 0 {
      WriteDigit(d, i, o, value, numBits);
      c := Digit(Padded(value, numBits));
      numBits := numBits - 6;
      end := false;
    } else {
      WritePad(d, i, o, value % 4096, numBits);
      end := o % 4 == 0;
      c := if end then 0 else PAD;
    }
  }

  /** The loop of the encoder stops when the buffer or the encoding is full. */
  method EncodeLoop(dst: array<byte>, dstSize: nat, data: array<byte>, dataSize: nat) returns (o: nat)
    requires dstSize < dst.Length && dataSize <= data.Length && dst != data
    requires dst[dstSize] == 0
    modifies dst
    ensures o == Min((dataSize + 2) / 3 * 4, dstSize) && dst[o] == 0
    ensures forall k :: 0 <= k < o ==> dst[k] == CharAt(data[..dataSize], k)
    ensures forall k :: dstSize < k < dst.Length ==> dst[k] == old(dst[k])
  {
    ghost var d := data[..dataSize];
    var value: nat, numBits, i := 0, 0, 0;
    o := 0;
    while true
      invariant o <= dstSize && EncoderAt(d, i, o, value % 4096, numBits)
      invariant o <= (dataSize + 2) / 3 * 4
      invariant dst[dstSize] == 0
      invariant forall k :: 0 <= k < o ==> dst[k] == CharAt(d, k)
      invariant forall k :: dstSize < k < dst.Length ==> dst[k] == old(dst[k])
      decreases dstSize - o
    {
      assert data[..dataSize] == d;
      value, numBits, i := ReadStep(data, dataSize, value, numBits, i, o);
      if o == dstSize {
        break;
      }
      var c, end;
      c, numBits, end := WriteStep(d, value, numBits, i, o);
      dst[o] := c;
      if end {
        break;
      }
      o := o + 1;
    }
  }

  /** With a buffer of any size the encoder writes exactly the prefix of the encoding that fits, and a null byte. */
  method Encode64(dst: array<byte>, dstSize0: nat, data: array<byte>, dataSize: nat)
    requires 0 < dstSize0 <= dst.Length && dataSize <= data.Length && dst != data
    modifies dst
    ensures var e := Encoded(EncodeGroup, data[..dataSize]); StrOf(dst[..]) == e[..Min(|e|, dstSize0 - 1)]
    ensures forall k :: dstSize0 <= k < dst.Length ==> dst[k] == old(dst[k])
  {
    var dstSize := dstSize0 - 1;
    dst[dstSize] := 0;
    var o := EncodeLoop(dst, dstSize, data, dataSize);
    PrefixWritten(dst[..], data[..dataSize], o);
  }
}
