/**
  The coder and the string functions on bytes that are not valid UTF-8 (src/base/str.cpp): how much of them an error
  consumes, what the repair removes, and where truncation stops.
  */
module Utf8Errors {
  import opened Bytes
  import opened Common
  import opened Utf8
  import opened Utf8Strings

  // ---------------------------------------------------------------- how much an error consumes

  /** The bytes are the beginning of the encoding of some code point. */
  ghost predicate StartsSome(p: seq<byte>) {
    exists v: Scalar :: p <= Encode(v)
  }

  lemma StartsWith(p: seq<byte>, v: int)
    requires IsScalar(v) && v > 0 && p <= Encode(v)
    ensures StartsSome(p)
  {
    var w: Scalar := v;
    assert p <= Encode(w);
  }

  lemma FirstByteStarts(b: byte)
    requires 0xC2 <= b <= 0xF4
    ensures StartsSome([b])
  {
    if b <= 0xDF {
      EncodeOfTwo(b, 0x80);
      StartsWith([b], (b - 0xC0) * 64);
    } else if b <= 0xEF {
      var second := if b == 0xE0 then 0xA0 else 0x80;
      EncodeOfThree(b, second, 0x80);
      StartsWith([b], (b - 0xE0) * 4096 + (second - 0x80) * 64);
    } else {
      var second := if b == 0xF0 then 0x90 else 0x80;
      EncodeOfFour(b, second, 0x80, 0x80);
      StartsWith([b], (b - 0xF0) * 262144 + (second - 0x80) * 4096);
    }
  }

  lemma TwoBytesStart(b0: byte, b1: byte)
    requires 0xE0 <= b0 <= 0xF4 && IsSecond(b0, b1)
    ensures StartsSome([b0, b1])
  {
    if b0 <= 0xEF {
      EncodeOfThree(b0, b1, 0x80);
      StartsWith([b0, b1], (b0 - 0xE0) * 4096 + (b1 - 0x80) * 64);
    } else {
      EncodeOfFour(b0, b1, 0x80, 0x80);
      StartsWith([b0, b1], (b0 - 0xF0) * 262144 + (b1 - 0x80) * 4096);
    }
  }

  lemma ThreeBytesStart(b0: byte, b1: byte, b2: byte)
    requires 0xF0 <= b0 <= 0xF4 && IsSecond(b0, b1) && IsTail(b2)
    ensures StartsSome([b0, b1, b2])
  {
    EncodeOfFour(b0, b1, b2, 0x80);
    StartsWith([b0, b1, b2], (b0 - 0xF0) * 262144 + (b1 - 0x80) * 4096 + (b2 - 0x80) * 64);
  }

  /** An error depends only on the bytes it consumes and the one behind them. */
  lemma ErrorIsLocal(s: seq<byte>, t: seq<byte>, n: nat)
    requires s != [] && First(s) == Decoded(-1, n) && n < |s| && n < |t| && s[..n + 1] == t[..n + 1]
    ensures First(t).code == -1
  {
    assert forall k :: 0 <= k <= n ==> s[k] == s[..n + 1][k] && t[k] == t[..n + 1][k];
  }

  lemma NothingLonger(s: CString, k: nat)
    requires s != [] && First(s).code == -1 && First(s).len < k <= |s|
    ensures !StartsSome(s[..k])
  {
    var n := First(s).len;
    forall v: Scalar | s[..k] <= Encode(v) ensures false {
      var t := Encode(v);
      assert s[..n + 1] == s[..k][..n + 1] == t[..n + 1];
      assert t + [] == t;
      DecodeOfEncode(v, []);
      ErrorIsLocal(s, t, n);
    }
  }

  /** The longest beginning of a code point is consumed, or a single byte where none begins. */
  lemma ErrorIsMaximalSubpart(s: CString)
    requires s != [] && First(s).code == -1
    ensures var n := First(s).len;
            && 1 <= n <= |s| && (n > 1 ==> StartsSome(s[..n]))
            && forall k :: n < k <= |s| ==> !StartsSome(s[..k])
  {
    FirstAdvances(s);
    var n := First(s).len;
    if n == 2 {
      assert s[..2] == [s[0], s[1]];
      TwoBytesStart(s[0], s[1]);
    } else if n == 3 {
      assert s[..3] == [s[0], s[1], s[2]];
      ThreeBytesStart(s[0], s[1], s[2]);
    }
    forall k | n < k <= |s| ensures !StartsSome(s[..k]) {
      NothingLonger(s, k);
    }
  }

  // ---------------------------------------------------------------- what the repair removes

  /** The start byte before the cursor is the last one there is. */
  lemma {:induction false} RewoundIsLastStart(s: seq<byte>, cursor: nat)
    requires 0 < cursor <= |s|
    ensures var r := Rewound(s, cursor);
            && r < cursor && (r > 0 ==> IsStart(s[r]))
            && forall k :: r < k < cursor ==> !IsStart(s[k])
  {
    if !IsStart(s[cursor - 1]) && cursor > 1 {
      RewoundIsLastStart(s, cursor - 1);
    }
  }

  lemma {:induction false} RewoundToFront(s: seq<byte>, cursor: nat)
    requires cursor <= |s| && forall k :: 1 <= k < cursor ==> !IsStart(s[k])
    ensures Rewound(s, cursor) == 0
  {
    if cursor > 1 {
      RewoundToFront(s, cursor - 1);
    }
  }

  ghost predicate BeginsWithCodePoint(s: seq<byte>) {
    exists v: Scalar :: Encode(v) <= s
  }

  lemma DecodesIffCodePoint(s: CString)
    requires s != []
    ensures First(s).code != -1 <==> BeginsWithCodePoint(s)
  {
    if First(s).code != -1 {
      EncodeOfDecode(s);
      var v: Scalar := First(s).code;
      assert Encode(v) <= s;
    }
    forall v: Scalar | Encode(v) <= s ensures First(s).code == v {
      DecodeOfEncode(v, s[|Encode(v)|..]);
      assert Encode(v) + s[|Encode(v)|..] == s;
    }
  }

  /**
    Of any string, valid or not, the repair removes the last start byte and what follows it, exactly if no code
    point begins there.
    */
  lemma FixedOfAny(before: CString, last: CString)
    requires last != [] && (before != [] ==> IsStart(last[0])) && forall k :: 1 <= k < |last| ==> !IsStart(last[k])
    ensures Fixed(before + last) == if BeginsWithCodePoint(last) then before + last else before
  {
    var s := before + last;
    if before == [] {
      RewoundToFront(s, |s|);
    } else {
      RewoundToStart(before, last, |s|);
    }
    DecodesIffCodePoint(last);
    assert s[|before|..] == last && s[..|before|] == before;
  }

  // ---------------------------------------------------------------- where truncation stops

  /** The position after k code points, or errors. */
  function Boundary(s: CString, cursor: nat, k: nat): (r: nat)
    requires cursor <= |s|
    ensures cursor <= r <= |s|
    decreases k
  {
    if cursor == |s| || k == 0 then cursor
    else
      FirstAdvances(s[cursor..]);
      Boundary(s, cursor + First(s[cursor..]).len, k - 1)
  }

  /** It stops at a boundary below the size: behind all of them that are allowed, or the last one that fits. */
  lemma {:induction false} LimitedEndIsLast(s: CString, cursor: nat, num: nat, dstSize: nat) returns (k: nat)
    requires cursor <= |s| && cursor < dstSize
    ensures k <= num && LimitedEnd(s, cursor, num, dstSize) == Boundary(s, cursor, k) < dstSize
    ensures k == num || Boundary(s, cursor, k) == |s| || Boundary(s, cursor, k + 1) >= dstSize
    decreases num
  {
    if cursor == |s| || num == 0 {
      k := 0;
    } else {
      FirstAdvances(s[cursor..]);
      var next := cursor + First(s[cursor..]).len;
      if next >= dstSize {
        k := 0;
        assert Boundary(s, cursor, 1) == Boundary(s, next, 0);
      } else {
        k := LimitedEndIsLast(s, next, num - 1, dstSize);
        k := k + 1;
      }
    }
  }
}
