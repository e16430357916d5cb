/** The alphabet of base64, and the characters of an encoding and the errors of the decoder in its terms. */
module Base64Alphabet {
  import opened Bytes
  import opened GroupCode
  import opened Base64
  import opened Base64Decode
  import Utf8

  const UPPER_CASE: string := "ABCDEFGHIJKLMNOPQRSTUVWXYZ"
  const LOWER_CASE: string := "abcdefghijklmnopqrstuvwxyz"
  const OTHERS: string := "0123456789+/"

  /** The digits of section 4 of RFC 4648, from 0 to 63. */
  const ALPHABET: string := UPPER_CASE + LOWER_CASE + OTHERS

  function Letter(v: nat): int
    requires v < 64
  {
    ALPHABET[v] as int
  }

  lemma UpperCase(v: nat)
    requires v < 26
    ensures UPPER_CASE[v] as int == 'A' as int + v
  {
    match v
    case 0 => case 1 => case 2 => case 3 => case 4 => case 5 => case 6 =>
    case 7 => case 8 => case 9 => case 10 => case 11 => case 12 =>
    case 13 => case 14 => case 15 => case 16 => case 17 => case 18 => case 19 =>
    case 20 => case 21 => case 22 => case 23 => case 24 => case _ =>
  }

  lemma LowerCase(v: nat)
    requires v < 26
    ensures LOWER_CASE[v] as int == 'a' as int + v
  {
    match v
    case 0 => case 1 => case 2 => case 3 => case 4 => case 5 => case 6 =>
    case 7 => case 8 => case 9 => case 10 => case 11 => case 12 =>
    case 13 => case 14 => case 15 => case 16 => case 17 => case 18 => case 19 =>
    case 20 => case 21 => case 22 => case 23 => case 24 => case _ =>
  }

  lemma OtherDigits(v: nat)
    requires v < 12
    ensures OTHERS[v] as int == if v < 10 then '0' as int + v else if v == 10 then '+' as int else '/' as int
  {
    match v
    case 0 => case 1 => case 2 => case 3 => case 4 => case 5 =>
    case 6 => case 7 => case 8 => case 9 => case 10 => case _ =>
  }

  lemma DigitIsLetter(v: nat)
    requires v < 64
    ensures |ALPHABET| == 64 && Digit(v) == Letter(v) && PAD == '=' as int
  {
    if v < 26 {
      UpperCase(v);
    } else if v < 52 {
      LowerCase(v - 26);
    } else {
      OtherDigits(v - 52);
    }
  }

  // ---------------------------------------------------------------- the encoding

  /** Three bytes as a number of 24 bits, with zeros for those behind the end. */
  function Bits24(data: seq<byte>, g: nat): nat {
    ByteOr0(data, 3 * g) * 65536 + ByteOr0(data, 3 * g + 1) * 256 + ByteOr0(data, 3 * g + 2)
  }

  /** Six of 24 bits, from the top. */
  function SixBits(bits: nat, k: nat): (v: nat)
    ensures v < 64
  {
    (if k == 0 then bits / 262144 else if k == 1 then bits / 4096 else if k == 2 then bits / 64 else bits) % 64
  }

  /** The same six bits from the bytes that hold them. */
  function SixOfBytes(b0: byte, b1: byte, b2: byte, k: nat): (v: nat)
    ensures v < 64
  {
    var x0: int, x1: int, x2: int := b0, b1, b2;
    if k == 0 then x0 / 4 else if k == 1 then x0 % 4 * 16 + x1 / 16
    else if k == 2 then x1 % 16 * 4 + x2 / 64 else x2 % 64
  }

  lemma SixBitsOfBytes(b0: byte, b1: byte, b2: byte, k: nat)
    requires k < 4
    ensures SixBits(b0 * 65536 + b1 * 256 + b2, k) == SixOfBytes(b0, b1, b2, k)
  {
    var x0: int, x1: int, x2: int := b0, b1, b2;
    Regrouped(x0, x1, x2);
    SixBitsOfDigits(x0 / 4, x0 % 4 * 16 + x1 / 16, x1 % 16 * 4 + x2 / 64, x2 % 64);
  }

  lemma SixBitsOfDigits(d0: nat, d1: nat, d2: nat, d3: nat)
    requires d0 < 64 && d1 < 64 && d2 < 64 && d3 < 64
    ensures var bits := d0 * 262144 + d1 * 4096 + d2 * 64 + d3;
            SixBits(bits, 0) == d0 && SixBits(bits, 1) == d1 && SixBits(bits, 2) == d2 && SixBits(bits, 3) == d3
  {
    Utf8.Digits(d0, d1, d2, d3);
  }

  lemma Regrouped(x0: nat, x1: nat, x2: nat)
    requires x0 < 256 && x1 < 256 && x2 < 256
    ensures x0 * 65536 + x1 * 256 + x2
            == x0 / 4 * 262144 + (x0 % 4 * 16 + x1 / 16) * 4096 + (x1 % 16 * 4 + x2 / 64) * 64 + x2 % 64
  {
  }

  /** A character that would end a byte behind the last one is padding. */
  predicate IsPad(size: nat, g: nat, k: nat) {
    k >= 2 && 3 * g + k > size
  }

  lemma Position(g: nat, k: nat)
    requires k < 4
    ensures (4 * g + k) / 4 == g && (4 * g + k) % 4 == k
  {
  }

  lemma CharOfBytes(data: seq<byte>, g: nat, k: nat, b0: byte, b1: byte, b2: byte)
    requires k < 4 && b0 == ByteOr0(data, 3 * g) && b1 == ByteOr0(data, 3 * g + 1) && b2 == ByteOr0(data, 3 * g + 2)
    ensures CharAt(data, 4 * g + k) == if IsPad(|data|, g, k) then PAD else Digit(SixOfBytes(b0, b1, b2, k))
  {
    Position(g, k);
  }

  lemma LetterOfBytes(b0: byte, b1: byte, b2: byte, k: nat)
    requires k < 4
    ensures Digit(SixOfBytes(b0, b1, b2, k)) == Letter(SixBits(b0 * 65536 + b1 * 256 + b2, k))
  {
    SixBitsOfBytes(b0, b1, b2, k);
    DigitIsLetter(SixOfBytes(b0, b1, b2, k));
  }

  lemma LetterOrPad(c: byte, pad: bool, b0: byte, b1: byte, b2: byte, bits: nat, k: nat)
    requires k < 4 && bits == b0 * 65536 + b1 * 256 + b2
    requires c == if pad then PAD else Digit(SixOfBytes(b0, b1, b2, k))
    ensures c as int == if pad then '=' as int else Letter(SixBits(bits, k))
  {
    LetterOfBytes(b0, b1, b2, k);
  }

  lemma CharIsLetter(data: seq<byte>, g: nat, k: nat)
    requires k < 4
    ensures CharAt(data, 4 * g + k) as int ==
            if IsPad(|data|, g, k) then '=' as int else Letter(SixBits(Bits24(data, g), k))
  {
    var b0, b1, b2 := ByteOr0(data, 3 * g), ByteOr0(data, 3 * g + 1), ByteOr0(data, 3 * g + 2);
    CharOfBytes(data, g, k, b0, b1, b2);
    LetterOrPad(CharAt(data, 4 * g + k), IsPad(|data|, g, k), b0, b1, b2, Bits24(data, g), k);
  }

  /** Character k of group g is the letter of six bits of the group, or padding. */
  lemma EncodedLetter(data: seq<byte>, g: nat, k: nat)
    requires k < 4 && 4 * g + k < |Encoded(EncodeGroup, data)|
    ensures Encoded(EncodeGroup, data)[4 * g + k] as int ==
            if IsPad(|data|, g, k) then '=' as int else Letter(SixBits(Bits24(data, g), k))
  {
    EncodedAt(data, 4 * g + k);
    CharIsLetter(data, g, k);
  }

  /** The two digits that are neither letters nor numbers are in their places. */
  lemma PlusAndSlash()
    ensures EncodeGroup([0xFB, 0xEF, 0xBE]) == ['+' as int, '+' as int, '+' as int, '+' as int]
    ensures EncodeGroup([0xFF, 0xFF, 0xFF]) == ['/' as int, '/' as int, '/' as int, '/' as int]
  {
  }

  // ---------------------------------------------------------------- the errors of the decoder

  predicate IsLetter(c: int) {
    exists v: nat :: v < 64 && Letter(v) == c
  }

  /** Padding stands at the end of the last group, for one missing byte or for two. */
  predicate IsPadding(c: Quad, k: nat, last: bool) {
    last && c[3] == PAD && (k == 3 || (k == 2 && c[2] == PAD))
  }

  predicate IsBad(c: Quad, k: nat, last: bool)
    requires k < 4
  {
    !IsLetter(c[k]) && !IsPadding(c, k, last)
  }

  lemma DigitValueOfLetter(c: byte)
    ensures DigitValue(c) == -1 <==> !IsLetter(c)
  {
    if DigitValue(c) != -1 {
      DigitIsLetter(DigitValue(c));
    }
    forall v: nat | v < 64 && Letter(v) == c ensures DigitValue(c) == v {
      DigitIsLetter(v);
    }
  }

  lemma GroupValueError(c: Quad, last: bool)
    ensures DecodeGroup(c, last) == Err(-1) <==>
            || DigitValue(c[0]) == -1 || DigitValue(c[1]) == -1
            || (DigitValue(c[2]) == -1 && !IsPadding(c, 2, last)) || (DigitValue(c[3]) == -1 && !IsPadding(c, 3, last))
  {
  }

  lemma BitsError(c: Quad, last: bool)
    requires DecodeGroup(c, last) == Err(-2)
    ensures IsPadding(c, 3, last)
  {
  }

  lemma SomeBad(c: Quad, last: bool)
    ensures (exists k: nat :: k < 4 && IsBad(c, k, last)) <==>
            IsBad(c, 0, last) || IsBad(c, 1, last) || IsBad(c, 2, last) || IsBad(c, 3, last)
  {
  }

  /** A group is refused with -1 for a bad character, and with -2 only if bits behind the padding are set. */
  lemma GroupError(c: Quad, last: bool)
    ensures DecodeGroup(c, last) == Err(-1) <==> exists k: nat :: k < 4 && IsBad(c, k, last)
    ensures DecodeGroup(c, last) == Err(-2) ==> IsPadding(c, 3, last)
  {
    DigitValueOfLetter(c[0]);
    DigitValueOfLetter(c[1]);
    DigitValueOfLetter(c[2]);
    DigitValueOfLetter(c[3]);
    GroupValueError(c, last);
    SomeBad(c, last);
    if DecodeGroup(c, last) == Err(-2) {
      BitsError(c, last);
    }
  }

  /** The code of an error is that of the first group with one, and these are its reasons. */
  lemma DecodingError(s: Text) returns (g: nat)
    requires Decoded(DecodeGroup, s).Err?
    ensures FailsAt(DecodeGroup, s, g, Decoded(DecodeGroup, s).code)
    ensures var c, last := GroupOf(s, g), 4 * g + 4 == |s|;
            && (Decoded(DecodeGroup, s) == Err(-1) <==> exists k: nat :: k < 4 && IsBad(c, k, last))
            && (Decoded(DecodeGroup, s) == Err(-2) ==> IsPadding(c, 3, last))
  {
    g := FirstErrorCounts(DecodeGroup, s);
    GroupError(GroupOf(s, g), 4 * g + 4 == |s|);
  }
}
