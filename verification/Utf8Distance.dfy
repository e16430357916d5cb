/** str_utf8_dist_buffer (src/base/system.cpp): both operands and the table of the edit distance in one buffer. */
module Utf8Distance {
  import opened Utf8
  import opened EditDistance

  lemma {:induction false} DecodeAllShorter(s: CString)
    ensures |DecodeAll(s)| <= |s|
    decreases |s|
  {
    if s != [] {
      FirstAdvances(s);
      DecodeAllShorter(s[First(s).len..]);
    }
  }

  /** dec is DecodeAll. */
  ghost predicate Decodes(dec: CString -> seq<int>) {
    forall s: CString {:trigger DecodeAll(s)} :: dec(s) == DecodeAll(s)
  }

  /** DecodeAll begins with the first code point. */
  lemma DecodeAllCons(s: CString, p: nat, code: int, next: nat)
    requires p < |s| && code == First(s[p..]).code && next == p + First(s[p..]).len
    ensures code != 0 && p < next <= |s| && DecodeAll(s[p..]) == [code] + DecodeAll(s[next..])
  {
    var t: CString := s[p..];
    FirstAdvances(t);
    assert t[next - p..] == s[next..];
  }

  /** One decoding step, as the next element of all code points. */
  method NextCode(s: CString, p: nat, ghost dec: CString -> seq<int>) returns (code: int, next: nat)
    requires p <= |s| && Decodes(dec)
    ensures p == |s| ==> code == 0 && dec(s[p..]) == []
    ensures p < |s| ==> code != 0 && p < next <= |s| && dec(s[p..]) == [code] + dec(s[next..])
  {
    code, next := Decode(s, p);
    assert dec(s[p..]) == DecodeAll(s[p..]);
    if p < |s| {
      DecodeAllCons(s, p, code, next);
      assert dec(s[next..]) == DecodeAll(s[next..]);
    } else {
      assert s[p..] == [] && code == 0;
    }
  }

  lemma CodesStep(codes: seq<int>, code: int, rest: seq<int>)
    ensures codes + ([code] + rest) == (codes + [code]) + rest
  {
  }

  /** The loop of str_to_utf32_unchecked. */
  method StoreCodes(s: CString, out: array<int>, at: nat, ghost dec: CString -> seq<int>) returns (n: nat)
    requires at + |s| < out.Length && Decodes(dec)
    modifies out
    ensures n == |dec(s)| <= |s| && out[at + n] == 0
    ensures forall k :: 0 <= k < n ==> out[at + k] == dec(s)[k]
    ensures forall k :: 0 <= k < out.Length && !(at <= k <= at + n) ==> out[k] == old(out[k])
  {
    n := 0;
    var p := 0;
    ghost var codes, all := [], dec(s);
    assert s[0..] == s;
    while true
      invariant p <= |s| && n == |codes| <= p
      invariant all == codes + dec(s[p..])
      invariant forall k :: 0 <= k < n ==> out[at + k] == codes[k]
      invariant forall k :: 0 <= k < out.Length && !(at <= k < at + n) ==> out[k] == old(out[k])
      decreases |s| - p
    {
      var code, next := NextCode(s, p, dec);
      out[at + n] := code;
      if code == 0 {
        assert codes + [] == codes;
        break;
      }
      CodesStep(codes, code, dec(s[next..]));
      codes := codes + [code];
      n := n + 1;
      p := next;
    }
    assert codes == all;
  }

  /** str_to_utf32_unchecked: the code points, errors included, and a zero behind them. */
  method ToUtf32Unchecked(s: CString, out: array<int>, at: nat) returns (n: nat)
    requires at + |s| < out.Length
    modifies out
    ensures n == |DecodeAll(s)| <= |s|
    ensures out[at..at + n] == DecodeAll(s) && out[at + n] == 0
    ensures forall k :: 0 <= k < out.Length && !(at <= k <= at + n) ==> out[k] == old(out[k])
  {
    DecodeAllShorter(s);
    n := StoreCodes(s, out, at, DecodeAll);
  }

  lemma IsDistanceSwapped(a: seq<int>, b: seq<int>, d: int)
    requires IsDistance(a, b, d)
    ensures IsDistance(b, a, d)
  {
    DistanceIsLeastCost(a, b);
    DistanceIsLeastCost(b, a);
    DistanceSymmetric(a, b);
  }

  /** Both strings in the buffer, one after the other, and the table behind them. */
  method DistInBuffer(first: CString, second: CString, buf: array<int>, bufLen: nat, ghost dec: CString -> seq<int>)
    returns (r: int)
    requires bufLen <= buf.Length && bufLen >= 2 * (|first| + 1 + |second| + 1) && Decodes(dec)
    modifies buf
    ensures IsDistance(dec(first), dec(second), r)
    ensures forall k :: bufLen <= k < buf.Length ==> buf[k] == old(buf[k])
  {
    var aLen := StoreCodes(first, buf, 0, dec);
    var bLen := StoreCodes(second, buf, aLen, dec);
    ghost var x, y := dec(first), dec(second);
    assert buf[0..aLen] == x && buf[aLen..aLen + bLen] == y;
    r := Utf32DistBuffer(buf, 0, aLen, buf, aLen, bLen, buf, aLen + bLen, bufLen - bLen - aLen);
    assert IsDistance(x, y, r);
  }

  /** The asserted size is enough for the code points of both strings and the two rows behind them. */
  method Utf8DistBuffer(aUtf8: CString, bUtf8: CString, buf: array<int>, bufLen: nat) returns (r: int)
    requires bufLen <= buf.Length && bufLen >= 2 * (|aUtf8| + 1 + |bUtf8| + 1)
    modifies buf
    ensures IsDistance(DecodeAll(aUtf8), DecodeAll(bUtf8), r)
    ensures forall k :: bufLen <= k < buf.Length ==> buf[k] == old(buf[k])
  {
    if |aUtf8| > |bUtf8| {
      r := DistInBuffer(bUtf8, aUtf8, buf, bufLen, DecodeAll);
      IsDistanceSwapped(DecodeAll(bUtf8), DecodeAll(aUtf8), r);
    } else {
      r := DistInBuffer(aUtf8, bUtf8, buf, bufLen, DecodeAll);
    }
  }
}
