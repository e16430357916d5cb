/** str_base64_decode (src/base/str.cpp): it accepts exactly the strings the encoder writes. */
module Base64Decode {
  import opened Bytes
  import opened GroupCode
  import opened Base64
  import Utf8

  // ---------------------------------------------------------------- a group

  /** base64_digit_value is the inverse of the table, and -1 elsewhere. */
  function DigitValue(c: byte): (r: int)
    ensures -1 <= r < 64
    ensures r >= 0 ==> Digit(r) == c
    ensures forall v :: 0 <= v < 64 && Digit(v) == c ==> r == v
  {
    if 65 <= c <= 90 then c - 65
    else if 97 <= c <= 122 then c - 97 + 26
    else if 48 <= c <= 57 then c - 48 + 52
    else if c == 43 then 62
    else if c == 47 then 63
    else -1
  }

  /** The number of bytes a group of characters stands for; padding counts only in the last group. */
  function GroupSize(c2: byte, c3: byte, last: bool): (n: nat)
    ensures 1 <= n <= 3
  {
    if last && c3 == PAD then (if c2 == PAD then 1 else 2) else 3
  }

  /** The four digits of a group, with padding read as the digit zero; -1 if one is invalid. */
  function GroupValue(c: Quad, last: bool): (r: int)
    ensures r >= -1
  {
    var n := GroupSize(c[2], c[3], last);
    var d0, d1 := DigitValue(c[0]), DigitValue(c[1]);
    var d2, d3 := if n < 2 then 0 else DigitValue(c[2]), if n < 3 then 0 else DigitValue(c[3]);
    if d0 == -1 || d1 == -1 || d2 == -1 || d3 == -1 then -1
    else d0 * 262144 + d1 * 4096 + d2 * 64 + d3
  }

  /** (value >> (16 - 8 * b)) & 0xff */
  function ByteOf(value: nat, b: nat): (r: byte)
  {
    (if b == 0 then value / 65536 else if b == 1 then value / 256 else value) % 256
  }

  /** The bytes behind the padding are zero. */
  predicate ZeroBehind(value: nat, n: nat) {
    forall k :: n <= k < 3 ==> ByteOf(value, k) == 0
  }

  function BytesOf(value: nat, n: nat): (r: seq<byte>)
    ensures |r| == n
  {
    seq(n, k requires k >= 0 => ByteOf(value, k))
  }

  /** The bytes of a group, or the error for an invalid digit (-1) or padding bits that are not zero (-2). */
  function DecodeGroup(c: Quad, last: bool): (r: Result<Group>)
    ensures r.Err? ==> r.code == -1 || r.code == -2
  {
    var value, n := GroupValue(c, last), GroupSize(c[2], c[3], last);
    if value == -1 then Err(-1) else if !ZeroBehind(value, n) then Err(-2) else Ok(BytesOf(value, n))
  }

  // ---------------------------------------------------------------- groups decode to what was encoded

  lemma BytesOfDigits(d0: nat, d1: nat, d2: nat, d3: nat)
    requires d0 < 64 && d1 < 64 && d2 < 64 && d3 < 64
    ensures var value := d0 * 262144 + d1 * 4096 + d2 * 64 + d3;
            && ByteOf(value, 0) == d0 * 4 + d1 / 16
            && ByteOf(value, 1) == d1 % 16 * 16 + d2 / 4
            && ByteOf(value, 2) == d2 % 4 * 64 + d3
  {
    var q1, r1, q2, r2 := d1 / 16, d1 % 16, d2 / 4, d2 % 4;
    ThreeBytes(d0 * 4 + q1, r1 * 16 + q2, r2 * 64 + d3);
    assert d0 * 262144 + d1 * 4096 + d2 * 64 + d3 == (d0 * 4 + q1) * 65536 + (r1 * 16 + q2) * 256 + (r2 * 64 + d3);
  }

  lemma ThreeBytes(b0: nat, b1: nat, b2: nat)
    requires b0 < 256 && b1 < 256 && b2 < 256
    ensures var value := b0 * 65536 + b1 * 256 + b2;
            ByteOf(value, 0) == b0 && ByteOf(value, 1) == b1 && ByteOf(value, 2) == b2
  {
    assert (b0 * 65536 + b1 * 256 + b2) / 256 == b0 * 256 + b1;
  }

  lemma DigitsOfBytes(b0: byte, b1: byte, b2: byte)
    returns (d0: nat, d1: nat, d2: nat, d3: nat, value: nat)
    ensures d0 < 64 && d1 < 64 && d2 < 64 && d3 < 64
    ensures d0 == b0 / 4 && d1 == b0 % 4 * 16 + b1 / 16 && d2 == b1 % 16 * 4 + b2 / 64 && d3 == b2 % 64
    ensures value == d0 * 262144 + d1 * 4096 + d2 * 64 + d3
    ensures ByteOf(value, 0) == b0 && ByteOf(value, 1) == b1 && ByteOf(value, 2) == b2
  {
    var x0: int, x1: int, x2: int := b0 as int, b1 as int, b2 as int;
    d0, d1, d2, d3 := x0 / 4, x0 % 4 * 16 + x1 / 16, x1 % 16 * 4 + x2 / 64, x2 % 64;
    value := d0 * 262144 + d1 * 4096 + d2 * 64 + d3;
    BytesOfDigits(d0, d1, d2, d3);
    SplitsAgree(x0, x1, x2);
  }

  lemma SplitsAgree(x0: nat, x1: nat, x2: nat)
    requires x0 < 256 && x1 < 256 && x2 < 256
    ensures x0 / 4 * 4 + (x0 % 4 * 16 + x1 / 16) / 16 == x0
    ensures (x0 % 4 * 16 + x1 / 16) % 16 * 16 + (x1 % 16 * 4 + x2 / 64) / 4 == x1
    ensures (x1 % 16 * 4 + x2 / 64) % 4 * 64 + x2 % 64 == x2
  {
  }

  lemma DigitValueOfDigit(v: nat)
    requires v < 64
    ensures DigitValue(Digit(v)) == v
  {
  }

  /** A group of one to three bytes comes back from its four characters. */
  lemma DecodeOfEncodedGroup(d: Group, last: bool)
    requires |d| == 3 || last
    ensures DecodeGroup(EncodeGroup(d), last) == Ok(d)
  {
    var d0, d1, d2, d3, value := DigitsOfBytes(d[0], if |d| > 1 then d[1] else 0, if |d| > 2 then d[2] else 0);
    DigitValueOfDigit(d0);
    DigitValueOfDigit(d1);
    DigitValueOfDigit(d2);
    DigitValueOfDigit(d3);
    var c := EncodeGroup(d);
    assert c[0] == Digit(d0) && c[1] == Digit(d1);
    assert c[2] == (if |d| > 1 then Digit(d2) else PAD) && c[3] == (if |d| > 2 then Digit(d3) else PAD);
    ValueOfDigits(c, last, |d|, d0, d1, d2, d3);
    BytesAre(d, value);
  }

  lemma ValueOfDigits(c: Quad, last: bool, n: nat, d0: nat, d1: nat, d2: nat, d3: nat)
    requires d0 < 64 && d1 < 64 && d2 < 64 && d3 < 64 && 1 <= n <= 3 && (n == 3 || last)
    requires DigitValue(c[0]) == d0 && DigitValue(c[1]) == d1
    requires if n > 1 then c[2] != PAD && DigitValue(c[2]) == d2 else c[2] == PAD && d2 == 0
    requires if n > 2 then c[3] != PAD && DigitValue(c[3]) == d3 else c[3] == PAD && d3 == 0
    ensures GroupSize(c[2], c[3], last) == n && GroupValue(c, last) == d0 * 262144 + d1 * 4096 + d2 * 64 + d3
  {
  }

  lemma BytesAre(d: Group, value: nat)
    requires ByteOf(value, 0) == d[0]
    requires ByteOf(value, 1) == (if |d| > 1 then d[1] else 0) && ByteOf(value, 2) == (if |d| > 2 then d[2] else 0)
    ensures ZeroBehind(value, |d|) && BytesOf(value, |d|) == d
  {
  }

  /** The digits behind the value of a valid group. */
  lemma DigitsOfGroup(c: Quad, last: bool) returns (d0: nat, d1: nat, d2: nat, d3: nat)
    requires GroupValue(c, last) != -1
    ensures d0 < 64 && d1 < 64 && d2 < 64 && d3 < 64
    ensures GroupValue(c, last) == d0 * 262144 + d1 * 4096 + d2 * 64 + d3
    ensures var n := GroupSize(c[2], c[3], last);
            c == [Digit(d0), Digit(d1), if n > 1 then Digit(d2) else PAD, if n > 2 then Digit(d3) else PAD]
  {
    var n := GroupSize(c[2], c[3], last);
    d0, d1 := DigitValue(c[0]), DigitValue(c[1]);
    d2, d3 := if n < 2 then 0 else DigitValue(c[2]), if n < 3 then 0 else DigitValue(c[3]);
  }

  /** Any four characters that decode are the encoding of what they decode to. */
  lemma EncodeOfDecodedGroup(c: Quad, last: bool)
    requires DecodeGroup(c, last).Ok?
    ensures var d := DecodeGroup(c, last).value; (|d| == 3 || last) && EncodeGroup(d) == c
  {
    var d0, d1, d2, d3 := DigitsOfGroup(c, last);
    EncodeOfValue(GroupSize(c[2], c[3], last), d0, d1, d2, d3);
  }

  lemma EncodeOfValue(n: nat, d0: nat, d1: nat, d2: nat, d3: nat)
    requires 1 <= n <= 3 && d0 < 64 && d1 < 64 && d2 < 64 && d3 < 64
    requires ZeroBehind(d0 * 262144 + d1 * 4096 + d2 * 64 + d3, n)
    ensures EncodeGroup(BytesOf(d0 * 262144 + d1 * 4096 + d2 * 64 + d3, n)) ==
            [Digit(d0), Digit(d1), if n > 1 then Digit(d2) else PAD, if n > 2 then Digit(d3) else PAD]
  {
    BytesOfDigits(d0, d1, d2, d3);
    var value := d0 * 262144 + d1 * 4096 + d2 * 64 + d3;
    assert n < 3 ==> ByteOf(value, 2) == 0;
    assert n < 2 ==> ByteOf(value, 1) == 0;
    EncodeOfDigits(BytesOf(value, n), d0, d1, d2, d3);
  }

  /** The bytes of four digits encode to these digits, with padding for the bytes that are not there. */
  lemma EncodeOfDigits(d: Group, d0: nat, d1: nat, d2: nat, d3: nat)
    requires d0 < 64 && d1 < 64 && d2 < 64 && d3 < 64
    requires d[0] == d0 * 4 + d1 / 16
    requires if |d| > 1 then d[1] == d1 % 16 * 16 + d2 / 4 else d1 % 16 * 16 + d2 / 4 == 0
    requires if |d| > 2 then d[2] == d2 % 4 * 64 + d3 else d2 % 4 * 64 + d3 == 0
    ensures EncodeGroup(d) ==
            [Digit(d0), Digit(d1), if |d| > 1 then Digit(d2) else PAD, if |d| > 2 then Digit(d3) else PAD]
  {
    var x0, x1, x2 := d0 * 4 + d1 / 16, d1 % 16 * 16 + d2 / 4, d2 % 4 * 64 + d3;
    assert x0 / 4 == d0 && x0 % 4 * 16 + x1 / 16 == d1;
    assert x1 % 16 * 4 + x2 / 64 == d2 && x2 % 64 == d3;
  }

  lemma GroupsInverse()
    ensures Inverse(EncodeGroup, DecodeGroup)
  {
    forall d: Group, last: bool | |d| == 3 || last ensures DecodeGroup(EncodeGroup(d), last) == Ok(d) {
      DecodeOfEncodedGroup(d, last);
    }
    forall c: Quad, last: bool | DecodeGroup(c, last).Ok?
      ensures (|DecodeGroup(c, last).value| == 3 || last) && EncodeGroup(DecodeGroup(c, last).value) == c
    {
      EncodeOfDecodedGroup(c, last);
    }
  }

  /** Base64 is a bijection between byte strings and the strings the decoder accepts. */
  lemma AcceptedIffEncoding(s: Text, d: seq<byte>)
    ensures Decoded(DecodeGroup, s) == Ok(d) <==> s == Encoded(EncodeGroup, d)
  {
    GroupsInverse();
    GroupCode.AcceptedIffEncoding(EncodeGroup, DecodeGroup, s, d);
  }

  /** No two byte strings have the same encoding. */
  lemma EncodingIsInjective(d: seq<byte>, e: seq<byte>)
    requires Encoded(EncodeGroup, d) == Encoded(EncodeGroup, e)
    ensures d == e
  {
    AcceptedIffEncoding(Encoded(EncodeGroup, d), d);
    AcceptedIffEncoding(Encoded(EncodeGroup, d), e);
  }

  // ---------------------------------------------------------------- str_base64_decode

  /** Four characters, with the padding of the last group replaced by zero digits. */
  method ReadGroup(data: Quad, last: bool) returns (value: int, numOutputBytes: nat)
    ensures value == GroupValue(data, last) && numOutputBytes == GroupSize(data[2], data[3], last)
  {
    numOutputBytes := 3;
    var copy: seq<byte> := data;
    if last {
      if copy[3] == PAD {
        copy := copy[3 := 65];
        numOutputBytes := 2;
        if copy[2] == PAD {
          copy := copy[2 := 65];
          numOutputBytes := 1;
        }
      }
    }
    var d0, d1, d2, d3 := DigitValue(copy[0]), DigitValue(copy[1]), DigitValue(copy[2]), DigitValue(copy[3]);
    if d0 == -1 || d1 == -1 || d2 == -1 || d3 == -1 {
      return -1, numOutputBytes;
    }
    value := d0 * 262144 + d1 * 4096 + d2 * 64 + d3;
  }

  /** The inner loop: the bytes of a group go to dst, and those behind the padding must be zero. */
  method StoreBytes(dst: array<byte>, o0: nat, value: nat, numOutputBytes: nat) returns (ok: bool, o: nat)
    requires numOutputBytes <= 3 && o0 + 3 <= dst.Length
    modifies dst
    ensures ok <==> ZeroBehind(value, numOutputBytes)
    ensures ok ==> o == o0 + numOutputBytes
    ensures ok ==> forall k :: 0 <= k < numOutputBytes ==> dst[o0 + k] == BytesOf(value, numOutputBytes)[k]
    ensures forall k :: 0 <= k < dst.Length && !(o0 <= k < o0 + 3) ==> dst[k] == old(dst[k])
  {
    o := o0;
    for b := 0 to 3
      invariant o == o0 + if b < numOutputBytes then b else numOutputBytes
      invariant forall k :: 0 <= k < b && k < numOutputBytes ==> dst[o0 + k] == ByteOf(value, k)
      invariant forall k :: numOutputBytes <= k < b ==> ByteOf(value, k) == 0
      invariant forall k :: 0 <= k < dst.Length && !(o0 <= k < o0 + 3) ==> dst[k] == old(dst[k])
    {
      var byteValue := ByteOf(value, b);
      if b < numOutputBytes {
        dst[o] := byteValue;
        o := o + 1;
      } else {
        if byteValue != 0 {
          return false, o;
        }
      }
    }
    ok := true;
  }

  /** dec is the decoder of a single group. */
  ghost predicate DecodesGroups(dec: Decoder) {
    forall c, last {:trigger DecodeGroup(c, last)} :: dec(c, last) == DecodeGroup(c, last)
  }

  /** The body of the loop over the groups. */
  method PutGroup(dst: array<byte>, o0: nat, c: Quad, last: bool, ghost dec: Decoder, ghost group: Result<Group>)
    returns (status: int, o: nat)
    requires o0 + 3 <= dst.Length && DecodesGroups(dec) && group == dec(c, last)
    modifies dst
    ensures status == if group.Ok? then 0 else group.code
    ensures group.Err? ==> -2 <= status < 0
    ensures group.Ok? ==> o == o0 + |group.value|
    ensures group.Ok? ==> forall k :: 0 <= k < |group.value| ==> dst[o0 + k] == group.value[k]
    ensures forall k :: 0 <= k < dst.Length && !(o0 <= k < o0 + 3) ==> dst[k] == old(dst[k])
  {
    assert dec(c, last) == DecodeGroup(c, last);
    var value, n := ReadGroup(c, last);
    if value == -1 {
      return -1, o0;
    }
    var ok;
    ok, o := StoreBytes(dst, o0, value, n);
    status := if ok then 0 else -2;
  }

  /** There is a whole group at index g, and room for its bytes. */
  lemma GroupAt(data: Text, g: nat)
    requires 4 * g < |data|
    ensures 4 * g % 4 == 0 && 4 * g + 4 <= |data| && 3 * g + 3 <= |data| / 4 * 3
    ensures |data[4 * g..]| % 4 == 0 && |data[4 * g + 4..]| % 4 == 0
  {
    var n := |data| / 4;
    assert |data| == 4 * n && g + 1 <= n;
    FourTimes(g);
    FourTimes(n - g);
    FourTimes(n - g - 1);
  }

  lemma FourTimes(n: nat)
    ensures 4 * n % 4 == 0
  {
  }

  method DecodeLoop(dst: array<byte>, data: Text, ghost dec: Decoder) returns (r: int)
    requires |data| / 4 * 3 <= dst.Length && DecodesGroups(dec)
    modifies dst
    ensures var result := Decoded(dec, data);
            if result.Ok? then r == |result.value| && forall k :: 0 <= k < r ==> dst[k] == result.value[k]
            else -2 <= r < 0 && result == Err(r)
    ensures forall k :: |data| / 4 * 3 <= k < dst.Length ==> dst[k] == old(dst[k])
  {
    var i, o: nat := 0, 0;
    ghost var all, done, g := Decoded(dec, data), [], 0;
    assert data[0..] == data;
    JoinEmpty(all);
    while i < |data|
      invariant i == 4 * g <= |data| && o == |done| <= 3 * g
      invariant all == Join(Ok(done), Decoded(dec, data[i..]))
      invariant forall k :: 0 <= k < o ==> dst[k] == done[k]
      invariant forall k :: |data| / 4 * 3 <= k < dst.Length ==> dst[k] == old(dst[k])
    {
      GroupAt(data, g);
      DecodeStep(dec, data, i, done);
      ghost var group := dec(data[i..i + 4], i == |data| - 4);
      var status, next := PutGroup(dst, o, data[i..i + 4], i == |data| - 4, dec, group);
      if status != 0 {
        return status;
      }
      done := done + group.value;
      i, o, g := i + 4, next, g + 1;
    }
    assert data[i..] == [];
    JoinEmpty(Ok(done));
    r := o;
  }

  method DecodeText(dst: array<byte>, dstSize: nat, data: Utf8.CString, ghost enc: Encoder, ghost dec: Decoder)
    returns (r: int)
    requires dstSize <= dst.Length && DecodesGroups(dec) && Inverse(enc, dec)
    modifies dst
    ensures |data| % 4 != 0 <==> r == -3
    ensures |data| % 4 == 0 && |data| / 4 * 3 > dstSize ==> r == -2
    ensures |data| % 4 == 0 && |data| / 4 * 3 <= dstSize ==>
              if exists d :: data == Encoded(enc, d) then 0 <= r <= dstSize && data == Encoded(enc, dst[..r])
              else -2 <= r < 0 && Decoded(dec, data) == Err(r)
    ensures |data| % 4 != 0 || |data| / 4 * 3 > dstSize ==> dst[..] == old(dst[..])
    ensures forall k :: dstSize <= k < dst.Length ==> dst[k] == old(dst[k])
  {
    var dataLen := |data|;
    if dataLen % 4 != 0 {
      return -3;
    }
    if dataLen / 4 * 3 > dstSize {
      return -2;
    }
    r := DecodeLoop(dst, data, dec);
    if r >= 0 {
      assert dst[..r] == Decoded(dec, data).value;
      GroupCode.AcceptedIffEncoding(enc, dec, data, dst[..r]);
    } else {
      forall d ensures data != Encoded(enc, d) {
        GroupCode.AcceptedIffEncoding(enc, dec, data, d);
      }
    }
  }

  /**
    The decoder returns the length of the data if the string is the encoding of some data, and the number
    of the first error otherwise; -3 and -2 also reject lengths and buffers before looking at the text.
    */
  method Decode64(dst: array<byte>, dstSize: nat, data: Utf8.CString) returns (r: int)
    requires dstSize <= dst.Length
    modifies dst
    ensures |data| % 4 != 0 <==> r == -3
    ensures |data| % 4 == 0 && |data| / 4 * 3 > dstSize ==> r == -2
    ensures |data| % 4 == 0 && |data| / 4 * 3 <= dstSize ==>
              if exists d :: data == Encoded(EncodeGroup, d)
              then 0 <= r <= dstSize && data == Encoded(EncodeGroup, dst[..r])
              else -2 <= r < 0 && Decoded(DecodeGroup, data) == Err(r)
    ensures |data| % 4 != 0 || |data| / 4 * 3 > dstSize ==> dst[..] == old(dst[..])
    ensures forall k :: dstSize <= k < dst.Length ==> dst[k] == old(dst[k])
  {
    GroupsInverse();
    r := DecodeText(dst, dstSize, data, EncodeGroup, DecodeGroup);
  }
}
