/** UTF-8 encoding, decoding and checking (src/base/str.cpp, src/base/system.cpp). */
module Utf8 {
  import opened Bytes

  /** The content of a null-terminated string; the terminator is not part of it. */
  type CString = s: seq<byte> | forall i :: 0 <= i < |s| ==> s[i] != 0

  /** What a read at position i of the string finds; the terminator is the last byte that may be read. */
  function At(s: seq<byte>, i: nat): byte
    requires i <= |s|
  {
    if i < |s| then s[i] else 0
  }

  // ---------------------------------------------------------------- RFC 3629

  /** Unicode scalar values: no surrogates. */
  predicate IsScalar(v: int) {
    0 <= v <= 0x10FFFF && !(0xD800 <= v <= 0xDFFF)
  }

  /** The octets of a scalar value, after the table of section 3. */
  function Encode(v: int): (r: seq<byte>)
    requires 0 <= v <= 0x10FFFF
    ensures 1 <= |r| <= 4
  {
    if v <= 0x7F then [v]
    else if v <= 0x7FF then [0xC0 + v / 64, 0x80 + v % 64]
    else if v <= 0xFFFF then [0xE0 + v / 4096, 0x80 + v / 64 % 64, 0x80 + v % 64]
    else [0xF0 + v / 262144, 0x80 + v / 4096 % 64, 0x80 + v / 64 % 64, 0x80 + v % 64]
  }

  /** UTF8-tail of section 4. */
  predicate IsTail(b: byte) {
    0x80 <= b <= 0xBF
  }

  /** The second octets that section 4 allows after a first octet of a longer sequence. */
  predicate IsSecond(first: byte, second: byte) {
    (if first == 0xE0 then 0xA0 else if first == 0xF0 then 0x90 else 0x80)
    <= second <=
    (if first == 0xED then 0x9F else if first == 0xF4 then 0x8F else 0xBF)
  }

  /** The result of decoding: a code point, or -1, and the number of bytes consumed. */
  datatype Decoded = Decoded(code: int, len: nat)

  /** The first code point of a string, by the productions UTF8-1 to UTF8-4 of section 4. */
  function First(s: seq<byte>): (r: Decoded)
    ensures r.len >= 1
    ensures r.len <= |s| + 1
  {
    var b0 := At(s, 0);
    if b0 <= 0x7F then Decoded(b0, 1)
    else if b0 < 0xC2 || b0 > 0xF4 then Decoded(-1, 1)
    else
      var b1 := At(s, 1);
      if !IsSecond(b0, b1) then Decoded(-1, 1)
      else if b0 <= 0xDF then Decoded((b0 - 0xC0) * 64 + (b1 - 0x80), 2)
      else
        var b2 := At(s, 2);
        if !IsTail(b2) then Decoded(-1, 2)
        else if b0 <= 0xEF then Decoded((b0 - 0xE0) * 4096 + (b1 - 0x80) * 64 + (b2 - 0x80), 3)
        else
          var b3 := At(s, 3);
          if !IsTail(b3) then Decoded(-1, 3)
          else Decoded((b0 - 0xF0) * 262144 + (b1 - 0x80) * 4096 + (b2 - 0x80) * 64 + (b3 - 0x80), 4)
  }

  /** Decoding at any position but the end makes progress and stays inside the string. */
  lemma FirstAdvances(s: CString)
    ensures s == [] <==> First(s).code == 0
    ensures s != [] ==> 1 <= First(s).len <= |s|
  {
  }

  lemma LastDigit(q: nat, r: nat)
    requires r < 64
    ensures (q * 64 + r) / 64 == q && (q * 64 + r) % 64 == r
  {
  }

  /** The divisions and remainders of Encode are the base-64 digits. */
  lemma Digits(w: nat, x: nat, y: nat, z: nat)
    requires x < 64 && y < 64 && z < 64
    ensures var v := w * 262144 + x * 4096 + y * 64 + z;
            && v / 64 == w * 4096 + x * 64 + y && v % 64 == z && v / 64 % 64 == y
            && v / 4096 == w * 64 + x && v / 4096 % 64 == x && v / 262144 == w
  {
    var v := w * 262144 + x * 4096 + y * 64 + z;
    LastDigit(w * 4096 + x * 64 + y, z);
    LastDigit(w * 64 + x, y);
    LastDigit(w, x);
    assert v / 4096 == v / 64 / 64;
    assert v / 262144 == v / 64 / 64 / 64;
  }

  lemma DigitsOf(v: nat) returns (w: nat, x: nat, y: nat, z: nat)
    ensures x < 64 && y < 64 && z < 64 && v == w * 262144 + x * 4096 + y * 64 + z
    ensures v / 262144 == w && v / 4096 == w * 64 + x && v / 4096 % 64 == x && v / 64 % 64 == y && v % 64 == z
    ensures v / 64 == w * 4096 + x * 64 + y
  {
    w, x, y, z := v / 64 / 64 / 64, v / 64 / 64 % 64, v / 64 % 64, v % 64;
    Digits(w, x, y, z);
  }

  lemma DecodeOfFour(w: nat, x: nat, y: nat, z: nat, s: seq<byte>)
    requires x < 64 && y < 64 && z < 64 && 0x10000 <= w * 262144 + x * 4096 + y * 64 + z <= 0x10FFFF
    requires |s| >= 4 && s[0] == 0xF0 + w && s[1] == 0x80 + x && s[2] == 0x80 + y && s[3] == 0x80 + z
    ensures First(s) == Decoded(w * 262144 + x * 4096 + y * 64 + z, 4)
  {
    assert w == 0 ==> x >= 16;
    assert w == 4 ==> x < 16;
    assert IsSecond(s[0], s[1]);
  }

  lemma DecodeOfThree(x: nat, y: nat, z: nat, s: seq<byte>)
    requires y < 64 && z < 64 && 0x800 <= x * 4096 + y * 64 + z <= 0xFFFF && IsScalar(x * 4096 + y * 64 + z)
    requires |s| >= 3 && s[0] == 0xE0 + x && s[1] == 0x80 + y && s[2] == 0x80 + z
    ensures First(s) == Decoded(x * 4096 + y * 64 + z, 3)
  {
    assert x == 0 ==> y >= 32;
    assert x == 13 ==> y < 32;
    assert IsSecond(s[0], s[1]);
  }

  lemma DecodeOfEncode(v: int, rest: seq<byte>)
    requires IsScalar(v)
    ensures First(Encode(v) + rest) == Decoded(v, |Encode(v)|)
  {
    var s := Encode(v) + rest;
    var w, x, y, z := DigitsOf(v);
    assert forall k :: 0 <= k < |Encode(v)| ==> s[k] == Encode(v)[k];
    if v <= 0x7FF {
    } else if v <= 0xFFFF {
      DecodeOfThree(x, y, z, s);
    } else {
      DecodeOfFour(w, x, y, z, s);
    }
  }

  lemma EncodeOfTwo(b0: byte, b1: byte)
    requires 0xC2 <= b0 <= 0xDF && IsTail(b1)
    ensures var v := (b0 - 0xC0) * 64 + (b1 - 0x80); IsScalar(v) && v > 0 && Encode(v) == [b0, b1]
  {
    Digits(0, 0, b0 - 0xC0, b1 - 0x80);
  }

  lemma EncodeOfThree(b0: byte, b1: byte, b2: byte)
    requires 0xE0 <= b0 <= 0xEF && IsSecond(b0, b1) && IsTail(b2)
    ensures var v := (b0 - 0xE0) * 4096 + (b1 - 0x80) * 64 + (b2 - 0x80);
            IsScalar(v) && v > 0 && Encode(v) == [b0, b1, b2]
  {
    Digits(0, b0 - 0xE0, b1 - 0x80, b2 - 0x80);
  }

  lemma EncodeOfFour(b0: byte, b1: byte, b2: byte, b3: byte)
    requires 0xF0 <= b0 <= 0xF4 && IsSecond(b0, b1) && IsTail(b2) && IsTail(b3)
    ensures var v := (b0 - 0xF0) * 262144 + (b1 - 0x80) * 4096 + (b2 - 0x80) * 64 + (b3 - 0x80);
            IsScalar(v) && v > 0 && Encode(v) == [b0, b1, b2, b3]
  {
    Digits(b0 - 0xF0, b1 - 0x80, b2 - 0x80, b3 - 0x80);
  }

  lemma EncodeOfDecode(s: CString)
    requires s != [] && First(s).code != -1
    ensures IsScalar(First(s).code) && First(s).code > 0
    ensures First(s).len <= |s| && s[..First(s).len] == Encode(First(s).code)
  {
    if s[0] <= 0x7F {
    } else if s[0] <= 0xDF {
      EncodeOfTwo(s[0], At(s, 1));
      assert s[..2] == [s[0], s[1]];
    } else if s[0] <= 0xEF {
      EncodeOfThree(s[0], At(s, 1), At(s, 2));
      assert s[..3] == [s[0], s[1], s[2]];
    } else {
      EncodeOfFour(s[0], At(s, 1), At(s, 2), At(s, 3));
      assert s[..4] == [s[0], s[1], s[2], s[3]];
    }
  }

  // ---------------------------------------------------------------- str_utf8_encode

  /** (x >> (6 * k)) & mask, for a mask of low bits. */
  function ShiftMask(x: nat, k: nat, mask: int): (r: nat)
    requires mask > 0
    ensures r < mask
  {
    (if k == 0 then x else if k == 1 then x / 64 else if k == 2 then x / 4096 else x / 262144) % mask
  }

  lemma TwoMasked(x: nat)
    requires 0x7F < x <= 0x7FF
    ensures Encode(x) == [0xC0 + ShiftMask(x, 1, 0x20), 0x80 + ShiftMask(x, 0, 0x40)]
  {
  }

  lemma ThreeMasked(x: nat)
    requires 0x7FF < x <= 0xFFFF
    ensures Encode(x) == [0xE0 + ShiftMask(x, 2, 0x10), 0x80 + ShiftMask(x, 1, 0x40), 0x80 + ShiftMask(x, 0, 0x40)]
  {
  }

  lemma FourMasked(x: nat)
    requires 0xFFFF < x <= 0x10FFFF
    ensures Encode(x) == [0xF0 + ShiftMask(x, 3, 0x08), 0x80 + ShiftMask(x, 2, 0x40),
                          0x80 + ShiftMask(x, 1, 0x40), 0x80 + ShiftMask(x, 0, 0x40)]
  {
  }

  /**
    The masks lose nothing: the bytes written are those of RFC 3629. Above 0x10FFFF nothing is written, and
    of a negative number the low byte.
    */
  method EncodeTo(ptr: array<byte>, chr: int) returns (n: nat)
    requires ptr.Length >= 4
    modifies ptr
    ensures chr > 0x10FFFF ==> n == 0
    ensures chr < 0 ==> n == 1 && ptr[0] == chr % 0x100
    ensures 0 <= chr <= 0x10FFFF ==> n == |Encode(chr)| && ptr[..n] == Encode(chr)
    ensures forall k :: n <= k < ptr.Length ==> ptr[k] == old(ptr[k])
  {
    if chr <= 0x7F {
      ptr[0] := chr % 0x100;
      return 1;
    } else if chr <= 0x7FF {
      TwoMasked(chr);
      ptr[0] := 0xC0 + ShiftMask(chr, 1, 0x20);
      ptr[1] := 0x80 + ShiftMask(chr, 0, 0x40);
      return 2;
    } else if chr <= 0xFFFF {
      ThreeMasked(chr);
      ptr[0] := 0xE0 + ShiftMask(chr, 2, 0x10);
      ptr[1] := 0x80 + ShiftMask(chr, 1, 0x40);
      ptr[2] := 0x80 + ShiftMask(chr, 0, 0x40);
      return 3;
    } else if chr <= 0x10FFFF {
      FourMasked(chr);
      ptr[0] := 0xF0 + ShiftMask(chr, 3, 0x08);
      ptr[1] := 0x80 + ShiftMask(chr, 2, 0x40);
      ptr[2] := 0x80 + ShiftMask(chr, 1, 0x40);
      ptr[3] := 0x80 + ShiftMask(chr, 0, 0x40);
      return 4;
    }
    return 0;
  }

  // ---------------------------------------------------------------- str_utf8_decode

  /** How many bytes follow a first byte; 0 for one that nothing may follow. */
  function TailLength(first: byte): nat {
    if 0xC2 <= first <= 0xDF then 1 else if 0xE0 <= first <= 0xEF then 2 else if 0xF0 <= first <= 0xF4 then 3 else 0
  }

  /** x << (6 * k) */
  function Shift6(x: int, k: nat): int
    requires k <= 3
  {
    if k == 0 then x else if k == 1 then x * 64 else if k == 2 then x * 4096 else x * 262144
  }

  /** What the loop has accumulated after the first byte and `seen` more. */
  function Accumulated(s: seq<byte>, p: nat, needed: nat, seen: nat): int
    requires p + seen <= |s| && seen <= needed <= 3
  {
    if seen == 0 then
      Shift6(At(s, p) - (if needed == 1 then 0xC0 else if needed == 2 then 0xE0 else 0xF0), needed)
    else Accumulated(s, p, needed, seen - 1) + Shift6(At(s, p + seen) - 0x80, needed - seen)
  }

  lemma AccumulatedIsCode(s: CString, p: nat, needed: nat)
    requires p + needed <= |s| && 1 <= needed <= 3
    requires needed == TailLength(At(s, p))
    requires IsSecond(At(s, p), At(s, p + 1))
    requires needed >= 2 ==> IsTail(At(s, p + 2))
    requires needed >= 3 ==> IsTail(At(s, p + 3))
    ensures First(s[p..]) == Decoded(Accumulated(s, p, needed, needed), needed + 1)
  {
    assert forall k: nat :: p + k <= |s| ==> At(s, p + k) == At(s[p..], k);
    assert Accumulated(s, p, needed, 1) == Accumulated(s, p, needed, 0) + Shift6(At(s, p + 1) - 0x80, needed - 1);
    if needed >= 2 {
      assert Accumulated(s, p, needed, 2) == Accumulated(s, p, needed, 1) + Shift6(At(s, p + 2) - 0x80, needed - 2);
    }
  }

  /** The decoder's loop with its boundaries and counters reads exactly the first code point at p. */
  method Decode(s: CString, p: nat) returns (code: int, next: nat)
    requires p <= |s|
    ensures code == First(s[p..]).code && next == p + First(s[p..]).len
  {
    var lower, upper, codePoint, bytesSeen, bytesNeeded := 0x80, 0xBF, 0, 0, 0;
    next := p;
    while true
      invariant bytesSeen <= bytesNeeded <= 3 && p <= next <= |s|
      invariant bytesNeeded == 0 ==> next == p && bytesSeen == 0 && lower == 0x80 && upper == 0xBF
      invariant bytesNeeded > 0 ==>
                  && next == p + 1 + bytesSeen && bytesSeen < bytesNeeded
                  && bytesNeeded == TailLength(At(s, p))
                  && codePoint == Accumulated(s, p, bytesNeeded, bytesSeen)
                  && (bytesSeen == 0 ==> forall b: byte :: lower <= b <= upper <==> IsSecond(At(s, p), b))
                  && (bytesSeen > 0 ==> IsSecond(At(s, p), At(s, p + 1)) && lower == 0x80 && upper == 0xBF)
                  && (bytesSeen > 1 ==> IsTail(At(s, p + 2)))
      decreases 4 - (next - p)
    {
      assert forall k: nat :: p + k <= |s| ==> At(s, p + k) == At(s[p..], k);
      var byteValue := At(s, next);
      next := next + 1;
      if bytesNeeded == 0 {
        if byteValue <= 0x7F {
          return byteValue, next;
        } else if 0xC2 <= byteValue <= 0xDF {
          bytesNeeded := 1;
          codePoint := byteValue - 0xC0;
        } else if 0xE0 <= byteValue <= 0xEF {
          if byteValue == 0xE0 {
            lower := 0xA0;
          }
          if byteValue == 0xED {
            upper := 0x9F;
          }
          bytesNeeded := 2;
          codePoint := byteValue - 0xE0;
        } else if 0xF0 <= byteValue <= 0xF4 {
          if byteValue == 0xF0 {
            lower := 0x90;
          }
          if byteValue == 0xF4 {
            upper := 0x8F;
          }
          bytesNeeded := 3;
          codePoint := byteValue - 0xF0;
        } else {
          return -1, next;
        }
        codePoint := Shift6(codePoint, bytesNeeded);
        continue;
      }
      if !(lower <= byteValue <= upper) {
        next := next - 1;
        return -1, next;
      }
      lower, upper := 0x80, 0xBF;
      bytesSeen := bytesSeen + 1;
      codePoint := codePoint + Shift6(byteValue - 0x80, bytesNeeded - bytesSeen);
      if bytesSeen != bytesNeeded {
        continue;
      }
      AccumulatedIsCode(s, p, bytesNeeded);
      return codePoint, next;
    }
  }

  // ---------------------------------------------------------------- whole strings

  /** The code points a null-terminated string can hold. */
  type Scalar = v: int | 0 < v <= 0x10FFFF && !(0xD800 <= v <= 0xDFFF) witness 1

  lemma EncodeHasNoNul(v: Scalar)
    ensures forall k :: 0 <= k < |Encode(v)| ==> Encode(v)[k] != 0
  {
    var w, x, y, z := DigitsOf(v);
  }

  function EncodeAll(vs: seq<Scalar>): (r: CString)
  {
    if vs == [] then [] else
      EncodeHasNoNul(vs[0]);
      Encode(vs[0]) + EncodeAll(vs[1..])
  }

  /** Decoding again and again, up to the terminator. */
  function DecodeAll(s: CString): (r: seq<int>)
    decreases |s|
  {
    if s == [] then [] else
      FirstAdvances(s);
      [First(s).code] + DecodeAll(s[First(s).len..])
  }

  /** The string is the UTF-8 form of some code points. */
  ghost predicate IsValid(s: CString) {
    exists vs: seq<Scalar> :: EncodeAll(vs) == s
  }

  lemma {:induction false} DecodeAllOfEncodeAll(vs: seq<Scalar>)
    ensures DecodeAll(EncodeAll(vs)) == vs
  {
    if vs != [] {
      var rest := EncodeAll(vs[1..]);
      EncodeHasNoNul(vs[0]);
      DecodeOfEncode(vs[0], rest);
      assert (Encode(vs[0]) + rest)[|Encode(vs[0])|..] == rest;
      DecodeAllOfEncodeAll(vs[1..]);
    }
  }

  lemma DecodeAllStep(s: CString)
    requires s != []
    ensures 1 <= First(s).len <= |s| && DecodeAll(s) == [First(s).code] + DecodeAll(s[First(s).len..])
  {
    FirstAdvances(s);
  }

  /** The first code point of a string without errors. */
  lemma HeadOfDecoded(s: CString) returns (v: Scalar, tail: CString)
    requires s != [] && -1 !in DecodeAll(s)
    ensures |tail| < |s| && DecodeAll(s) == [v] + DecodeAll(tail) && -1 !in DecodeAll(tail)
    ensures s == Encode(v) + tail
  {
    DecodeAllStep(s);
    NotInParts(First(s).code, DecodeAll(s[First(s).len..]));
    EncodeOfDecode(s);
    v, tail := First(s).code, s[First(s).len..];
    assert s[..First(s).len] + tail == s;
  }

  lemma {:induction false} EncodeAllOfDecodeAll(s: CString) returns (vs: seq<Scalar>)
    requires -1 !in DecodeAll(s)
    ensures vs == DecodeAll(s) && EncodeAll(vs) == s
    decreases |s|
  {
    if s == [] {
      vs := [];
    } else {
      var v, tail := HeadOfDecoded(s);
      var rest := EncodeAllOfDecodeAll(tail);
      vs := [v] + rest;
      EncodeAllCons(v, rest);
    }
  }

  lemma NotInParts(v: int, codes: seq<int>)
    requires -1 !in [v] + codes
    ensures v != -1 && -1 !in codes
  {
    assert v in [v] + codes;
    assert forall c :: c in codes ==> c in [v] + codes;
  }

  lemma EncodeAllCons(v: Scalar, rest: seq<Scalar>)
    ensures EncodeAll([v] + rest) == Encode(v) + EncodeAll(rest)
  {
    assert ([v] + rest)[1..] == rest;
  }

  /** A string is valid iff decoding it meets no error; the code points are then unique. */
  lemma ValidIffNoError(s: CString)
    ensures IsValid(s) <==> -1 !in DecodeAll(s)
    ensures forall vs: seq<Scalar> :: EncodeAll(vs) == s ==> vs == DecodeAll(s)
  {
    forall vs: seq<Scalar> | EncodeAll(vs) == s
      ensures vs == DecodeAll(s) && -1 !in DecodeAll(s)
    {
      DecodeAllOfEncodeAll(vs);
    }
    if -1 !in DecodeAll(s) {
      var vs := EncodeAllOfDecodeAll(s);
    }
  }

  /** str_utf8_check accepts exactly the valid strings. */
  method Check(s: CString) returns (ok: bool)
    ensures ok <==> IsValid(s)
  {
    ValidIffNoError(s);
    var p := 0;
    assert s[0..] == s;
    while true
      invariant p <= |s|
      invariant -1 in DecodeAll(s) <==> -1 in DecodeAll(s[p..])
      decreases |s| - p
    {
      FirstAdvances(s[p..]);
      var code, next := Decode(s, p);
      if code == 0 {
        return true;
      }
      assert s[p..][next - p..] == s[next..];
      if code == -1 {
        return false;
      }
      p := next;
    }
  }

  /** str_utf8_forward: the cursor behind the next code point, or where it was at the end. */
  method Forward(s: CString, cursor: nat) returns (r: nat)
    requires cursor <= |s|
    ensures cursor < |s| ==> cursor < r <= |s| && r == cursor + First(s[cursor..]).len
    ensures cursor == |s| ==> r == cursor
  {
    FirstAdvances(s[cursor..]);
    var code, next := Decode(s, cursor);
    if code == 0 {
      return cursor;
    }
    return next;
  }
}
