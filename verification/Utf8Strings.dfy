/**
  Copying, appending and truncating UTF-8 strings in fixed buffers (src/base/str.cpp,
  src/base/system.cpp). A buffer is an array of bytes; the string in it ends at the first null byte.
  */
module Utf8Strings {
  import opened Bytes
  import opened Common
  import opened Utf8

  // ---------------------------------------------------------------- strings in buffers

  /** The string that a buffer holds. */
  function StrOf(mem: seq<byte>): (r: CString)
    ensures |r| <= |mem| && r == mem[..|r|]
    ensures |r| < |mem| ==> mem[|r|] == 0
  {
    if mem == [] || mem[0] == 0 then [] else [mem[0]] + StrOf(mem[1..])
  }

  lemma {:induction false} StrOfUnique(mem: seq<byte>, s: CString)
    requires |s| < |mem| && mem[..|s|] == s && mem[|s|] == 0
    ensures StrOf(mem) == s
  {
    if s != [] {
      assert s[0] == mem[0];
      assert mem[1..][..|s| - 1] == s[1..];
      StrOfUnique(mem[1..], s[1..]);
    }
  }

  /** str_length */
  method StrLength(mem: array<byte>) returns (n: nat)
    requires |StrOf(mem[..])| < mem.Length
    ensures n == |StrOf(mem[..])|
  {
    n := 0;
    while mem[n] != 0
      invariant n <= |StrOf(mem[..])|
      decreases mem.Length - n
    {
      n := n + 1;
    }
  }

  // ---------------------------------------------------------------- str_utf8_rewind and str_utf8_fix_truncation

  /** (c & 0xC0) != 0x80 */
  predicate IsStart(c: byte): (r: bool)
    ensures r <==> !IsTail(c)
  {
    c / 64 != 2
  }

  function Rewound(s: seq<byte>, cursor: nat): (r: nat)
    requires cursor <= |s|
    ensures r <= cursor && (cursor > 0 ==> r < cursor)
  {
    if cursor == 0 then 0
    else if IsStart(s[cursor - 1]) then cursor - 1
    else Rewound(s, cursor - 1)
  }

  method Rewind(mem: array<byte>, cursor0: nat) returns (cursor: nat)
    requires cursor0 <= mem.Length
    ensures cursor == Rewound(mem[..], cursor0)
  {
    cursor := cursor0;
    while cursor > 0
      invariant cursor <= cursor0
      invariant Rewound(mem[..], cursor) == Rewound(mem[..], cursor0)
    {
      cursor := cursor - 1;
      if IsStart(mem[cursor]) {
        break;
      }
    }
  }

  /** A string without a broken last code point. */
  function Fixed(s: CString): (r: CString)
    ensures r <= s
  {
    if s != [] && First(s[Rewound(s, |s|)..]).code == -1 then s[..Rewound(s, |s|)] else s
  }

  lemma {:induction false} RewoundInPrefix(s: seq<byte>, t: seq<byte>, cursor: nat)
    requires cursor <= |s| && s <= t
    ensures Rewound(t, cursor) == Rewound(s, cursor)
  {
    if cursor > 0 {
      RewoundInPrefix(s, t, cursor - 1);
    }
  }

  /** str_utf8_fix_truncation */
  method FixTruncation(mem: array<byte>) returns (n: nat)
    requires |StrOf(mem[..])| < mem.Length
    modifies mem
    ensures StrOf(mem[..]) == Fixed(old(StrOf(mem[..]))) && n == |StrOf(mem[..])|
    ensures |StrOf(mem[..])| < mem.Length
    ensures forall k :: 0 <= k < mem.Length && k != n ==> mem[k] == old(mem[k])
  {
    var len := StrLength(mem);
    if len > 0 {
      var lastCharIndex := Rewind(mem, len);
      RewoundInPrefix(StrOf(mem[..]), mem[..], len);
      var code, next := Decode(StrOf(mem[..]), lastCharIndex);
      if code == -1 {
        ghost var s := StrOf(mem[..]);
        mem[lastCharIndex] := 0;
        StrOfUnique(mem[..], s[..lastCharIndex]);
        return lastCharIndex;
      }
    }
    return len;
  }

  // ---------------------------------------------------------------- str_copy and str_append

  /** str_copy: strncat of at most dst_size - 1 bytes, then the repair of the last code point. */
  method StrCopy(dst: array<byte>, src: CString, dstSize: nat) returns (n: nat)
    requires 0 < dstSize <= dst.Length
    modifies dst
    ensures StrOf(dst[..]) == Fixed(src[..Min(|src|, dstSize - 1)]) && n == |StrOf(dst[..])| < dstSize
    ensures forall k :: dstSize <= k < dst.Length ==> dst[k] == old(dst[k])
  {
    var count := Min(|src|, dstSize - 1);
    for i := 0 to count
      invariant forall k :: 0 <= k < i ==> dst[k] == src[k]
      invariant forall k :: dstSize <= k < dst.Length ==> dst[k] == old(dst[k])
    {
      dst[i] := src[i];
    }
    dst[count] := 0;
    StrOfUnique(dst[..], src[..count]);
    n := FixTruncation(dst);
  }

  /** The copying loop of str_append, from position s on. */
  method AppendLoop(dst: array<byte>, src: CString, dstSize: nat, s0: nat)
    requires dstSize <= dst.Length
    modifies dst
    ensures forall k :: 0 <= k < dst.Length && !(s0 <= k < dstSize) ==> dst[k] == old(dst[k])
    ensures forall k :: 0 <= k < |src| && s0 + k < dstSize ==> dst[s0 + k] == src[k]
    ensures s0 + |src| < dstSize ==> dst[s0 + |src|] == 0
  {
    var s, i := s0, 0;
    while s < dstSize
      invariant i <= |src| && s == s0 + i && (s <= dstSize || i == 0)
      invariant forall k :: 0 <= k < dst.Length && !(s0 <= k < dstSize) ==> dst[k] == old(dst[k])
      invariant forall k :: 0 <= k < i ==> dst[s0 + k] == src[k]
      decreases dstSize - s
    {
      dst[s] := At(src, i);
      if At(src, i) == 0 {
        break;
      }
      s := s + 1;
      i := i + 1;
    }
  }

  /** str_append up to the final null byte. */
  method AppendRaw(dst: array<byte>, src: CString, dstSize: nat)
    requires 0 < dstSize <= dst.Length && |StrOf(dst[..])| < dst.Length
    modifies dst
    ensures var all := old(StrOf(dst[..])) + src; StrOf(dst[..]) == all[..Min(|all|, dstSize - 1)]
    ensures forall k :: dstSize <= k < dst.Length ==> dst[k] == old(dst[k])
  {
    ghost var before := StrOf(dst[..]);
    ghost var all := before + src;
    var s := StrLength(dst);
    AppendLoop(dst, src, dstSize, s);
    ghost var count := Min(|all|, dstSize - 1);
    forall k | 0 <= k < count
      ensures dst[k] == all[k]
    {
      if k >= s {
        assert dst[s + (k - s)] == src[k - s];
      }
    }
    dst[dstSize - 1] := 0;
    assert dst[..count] == all[..count];
    StrOfUnique(dst[..], all[..count]);
  }

  /** str_append: the bytes of src behind the string in dst, cut at dst_size, then repaired. */
  method StrAppend(dst: array<byte>, src: CString, dstSize: nat)
    requires 0 < dstSize <= dst.Length && |StrOf(dst[..])| < dst.Length
    modifies dst
    ensures StrOf(dst[..]) == Fixed((old(StrOf(dst[..])) + src)[..Min(|old(StrOf(dst[..]))| + |src|, dstSize - 1)])
    ensures |StrOf(dst[..])| < dstSize
    ensures forall k :: dstSize <= k < dst.Length ==> dst[k] == old(dst[k])
  {
    ghost var all := StrOf(dst[..]) + src;
    AppendRaw(dst, src, dstSize);
    assert StrOf(dst[..]) == all[..Min(|all|, dstSize - 1)];
    var n := FixTruncation(dst);
  }

  // ---------------------------------------------------------------- what survives of a valid string

  /** The longest run of whole code points from the start whose encoding fits into `room` bytes. */
  function AlignedPrefix(vs: seq<Scalar>, room: nat): (r: seq<Scalar>)
    ensures r <= vs
  {
    if vs == [] || |Encode(vs[0])| > room then []
    else [vs[0]] + AlignedPrefix(vs[1..], room - |Encode(vs[0])|)
  }

  lemma {:induction false} AlignedPrefixIsLongest(vs: seq<Scalar>, room: nat)
    ensures |EncodeAll(AlignedPrefix(vs, room))| <= room
    ensures forall k :: |AlignedPrefix(vs, room)| < k <= |vs| ==> |EncodeAll(vs[..k])| > room
  {
    if vs != [] {
      if |Encode(vs[0])| <= room {
        AlignedPrefixIsLongest(vs[1..], room - |Encode(vs[0])|);
        assert AlignedPrefix(vs, room)[1..] == AlignedPrefix(vs[1..], room - |Encode(vs[0])|);
      }
      forall k | |AlignedPrefix(vs, room)| < k <= |vs|
        ensures |EncodeAll(vs[..k])| > room
      {
        assert vs[..k][1..] == vs[1..][..k - 1];
      }
    }
  }

  lemma {:induction false} EncodeAllSnoc(vs: seq<Scalar>, v: Scalar)
    ensures EncodeAll(vs + [v]) == EncodeAll(vs) + Encode(v)
  {
    if vs == [] {
      assert [v][1..] == [];
    } else {
      assert (vs + [v])[1..] == vs[1..] + [v];
      EncodeAllSnoc(vs[1..], v);
    }
  }

  lemma EncodeShape(v: Scalar)
    ensures IsStart(Encode(v)[0])
    ensures forall k :: 1 <= k < |Encode(v)| ==> !IsStart(Encode(v)[k])
  {
    var w, x, y, z := DigitsOf(v);
  }

  /** A code point cut short does not decode. */
  lemma CutCodePoint(v: Scalar, k: nat)
    requires 0 < k < |Encode(v)|
    ensures First(Encode(v)[..k]).code == -1
  {
    DecodeOfEncode(v, []);
    assert Encode(v) + [] == Encode(v);
    assert forall i :: 0 <= i < k ==> Encode(v)[..k][i] == Encode(v)[i];
  }

  lemma {:induction false} RewoundToStart(before: seq<byte>, last: seq<byte>, cursor: nat)
    requires last != [] && IsStart(last[0]) && forall k :: 1 <= k < |last| ==> !IsStart(last[k])
    requires |before| < cursor <= |before + last|
    ensures Rewound(before + last, cursor) == |before|
  {
    if cursor > |before| + 1 {
      assert (before + last)[cursor - 1] == last[cursor - 1 - |before|];
      RewoundToStart(before, last, cursor - 1);
    }
  }

  /** Repairing whole code points changes nothing. */
  lemma FixedOfWhole(vs: seq<Scalar>)
    ensures Fixed(EncodeAll(vs)) == EncodeAll(vs)
  {
    if vs != [] {
      var front, v := vs[..|vs| - 1], vs[|vs| - 1];
      assert vs == front + [v];
      EncodeAllSnoc(front, v);
      EncodeShape(v);
      RewoundToStart(EncodeAll(front), Encode(v), |EncodeAll(vs)|);
      DecodeOfEncode(v, []);
      assert EncodeAll(vs)[|EncodeAll(front)|..] == Encode(v) + [];
    }
  }

  /** Repairing drops a code point that was cut short, and nothing else. */
  lemma FixedOfCut(vs: seq<Scalar>, v: Scalar, k: nat)
    requires 0 < k < |Encode(v)|
    ensures forall t: CString :: t == EncodeAll(vs) + Encode(v)[..k] ==> Fixed(t) == EncodeAll(vs)
  {
    var last := Encode(v)[..k];
    EncodeShape(v);
    CutCodePoint(v, k);
    forall t: CString | t == EncodeAll(vs) + last
      ensures Fixed(t) == EncodeAll(vs)
    {
      RewoundToStart(EncodeAll(vs), last, |t|);
      assert t[|EncodeAll(vs)|..] == last;
    }
  }

  /** What a cut after n bytes leaves of the code point behind the aligned prefix. */
  function CutRest(vs: seq<Scalar>, n: nat): (r: seq<byte>)
  {
    if vs == [] then []
    else if |Encode(vs[0])| > n then Encode(vs[0])[..n]
    else CutRest(vs[1..], n - |Encode(vs[0])|)
  }

  lemma CutBehind<T>(e: seq<T>, tail: seq<T>, n: nat, p: seq<T>, q: seq<T>)
    requires |e| <= n <= |e| + |tail| && tail[..n - |e|] == p + q
    ensures (e + tail)[..n] == (e + p) + q
  {
    assert (e + tail)[..n] == e + tail[..n - |e|];
  }

  lemma CutInside<T>(e: seq<T>, tail: seq<T>, n: nat)
    requires n <= |e|
    ensures (e + tail)[..n] == [] + e[..n]
  {
  }

  lemma {:induction false} CutAnywhere(vs: seq<Scalar>, n: nat)
    requires n <= |EncodeAll(vs)|
    ensures EncodeAll(vs)[..n] == EncodeAll(AlignedPrefix(vs, n)) + CutRest(vs, n)
  {
    if vs != [] {
      var e, tail := Encode(vs[0]), EncodeAll(vs[1..]);
      if |e| <= n {
        var m := n - |e|;
        CutAnywhere(vs[1..], m);
        var p := AlignedPrefix(vs[1..], m);
        EncodeAllCons(vs[0], p);
        CutBehind(e, tail, n, EncodeAll(p), CutRest(vs[1..], m));
      } else {
        CutInside(e, tail, n);
      }
    }
  }

  lemma {:induction false} CutRestIsPart(vs: seq<Scalar>, n: nat)
    ensures CutRest(vs, n) != [] ==>
              exists v: Scalar :: 0 < |CutRest(vs, n)| < |Encode(v)| && CutRest(vs, n) == Encode(v)[..|CutRest(vs, n)|]
  {
    if vs != [] && |Encode(vs[0])| <= n {
      CutRestIsPart(vs[1..], n - |Encode(vs[0])|);
    }
  }

  /** Cutting a valid string to n bytes and repairing it keeps the longest aligned prefix. */
  lemma FixedIsAlignedPrefix(vs: seq<Scalar>, n: nat)
    requires n <= |EncodeAll(vs)|
    ensures Fixed(EncodeAll(vs)[..n]) == EncodeAll(AlignedPrefix(vs, n))
  {
    CutAnywhere(vs, n);
    CutRestIsPart(vs, n);
    var p, rest := AlignedPrefix(vs, n), CutRest(vs, n);
    if rest == [] {
      assert EncodeAll(p) + rest == EncodeAll(p);
      FixedOfWhole(p);
    } else {
      var v: Scalar :| 0 < |rest| < |Encode(v)| && rest == Encode(v)[..|rest|];
      FixedOfCut(p, v, |rest|);
    }
  }

  lemma {:induction false} WholeFits(vs: seq<Scalar>, room: nat)
    requires |EncodeAll(vs)| <= room
    ensures AlignedPrefix(vs, room) == vs
  {
    if vs != [] {
      WholeFits(vs[1..], room - |Encode(vs[0])|);
    }
  }

  /** What str_copy leaves of a valid string: the longest run of whole code points that fits. */
  lemma CopyKeepsAlignedPrefix(vs: seq<Scalar>, room: nat)
    ensures Fixed(EncodeAll(vs)[..Min(|EncodeAll(vs)|, room)]) == EncodeAll(AlignedPrefix(vs, room))
  {
    if |EncodeAll(vs)| <= room {
      WholeFits(vs, room);
      WholeFits(vs, |EncodeAll(vs)|);
      FixedIsAlignedPrefix(vs, |EncodeAll(vs)|);
    } else {
      FixedIsAlignedPrefix(vs, room);
    }
  }

  lemma {:induction false} EncodeAllConcat(us: seq<Scalar>, vs: seq<Scalar>)
    ensures EncodeAll(us + vs) == EncodeAll(us) + EncodeAll(vs)
  {
    if us == [] {
      assert us + vs == vs;
    } else {
      assert (us + vs)[1..] == us[1..] + vs;
      EncodeAllConcat(us[1..], vs);
    }
  }

  /** str_append of valid strings: the longest run of whole code points of the concatenation that fits. */
  lemma AppendKeepsAlignedPrefix(us: seq<Scalar>, vs: seq<Scalar>, room: nat)
    ensures var all := EncodeAll(us) + EncodeAll(vs);
            Fixed(all[..Min(|all|, room)]) == EncodeAll(AlignedPrefix(us + vs, room))
  {
    EncodeAllConcat(us, vs);
    CopyKeepsAlignedPrefix(us + vs, room);
  }

  // ---------------------------------------------------------------- str_utf8_truncate and str_utf8_copy_num

  /** The position after at most num code points (or decoding errors) that stays below dst_size. */
  function LimitedEnd(s: CString, cursor: nat, num: nat, dstSize: nat): (r: nat)
    requires cursor <= |s|
    ensures cursor <= r <= |s|
    ensures cursor < dstSize ==> r < dstSize
    decreases |s| - cursor
  {
    if cursor == |s| || num == 0 then cursor else
      FirstAdvances(s[cursor..]);
      var next := cursor + First(s[cursor..]).len;
      if next >= dstSize then cursor else LimitedEnd(s, next, num - 1, dstSize)
  }

  /** The loop of str_utf8_truncate. */
  method TruncatedSize(dstSize: nat, src: CString, truncationLen: nat) returns (size: int)
    requires 0 < dstSize
    ensures size == LimitedEnd(src, 0, truncationLen, dstSize) < dstSize
  {
    var cursor, pos := 0, 0;
    size := -1;
    ghost var end := LimitedEnd(src, 0, truncationLen, dstSize);
    while pos <= truncationLen && cursor < dstSize && size != cursor
      invariant pos <= truncationLen + 1 && cursor <= |src| && -1 <= size < cursor
      invariant if pos <= truncationLen && cursor < dstSize
                then end == LimitedEnd(src, cursor, truncationLen - pos, dstSize)
                else size == end
      decreases truncationLen - pos + 1
    {
      size := cursor;
      FirstAdvances(src[cursor..]);
      var code, next := Decode(src, cursor);
      if code == 0 {
        break;
      }
      cursor := next;
      pos := pos + 1;
    }
  }

  /** str_utf8_truncate */
  method Truncate(dst: array<byte>, dstSize: nat, src: CString, truncationLen: nat)
    requires 0 < dstSize <= dst.Length
    modifies dst
    ensures StrOf(dst[..]) == Fixed(src[..LimitedEnd(src, 0, truncationLen, dstSize)])
    ensures forall k :: dstSize <= k < dst.Length ==> dst[k] == old(dst[k])
  {
    var size := TruncatedSize(dstSize, src, truncationLen);
    var n := StrCopy(dst, src, size + 1);
  }

  /** The loop of str_utf8_copy_num. */
  method LimitedCursor(src: CString, dstSize: nat, num0: int) returns (cursor: nat)
    requires 0 < dstSize
    ensures cursor == LimitedEnd(src, 0, if num0 < 0 then 0 else num0, dstSize) < dstSize
  {
    var num := num0;
    cursor := 0;
    ghost var end := LimitedEnd(src, 0, if num0 < 0 then 0 else num0, dstSize);
    while At(src, cursor) != 0 && num > 0
      invariant cursor <= |src| && cursor < dstSize
      invariant end == LimitedEnd(src, cursor, if num < 0 then 0 else num, dstSize)
      decreases |src| - cursor
    {
      var newCursor := Forward(src, cursor);
      if newCursor >= dstSize {
        break;
      } else {
        cursor := newCursor;
      }
      num := num - 1;
    }
  }

  /** str_utf8_copy_num */
  method CopyNum(dst: array<byte>, src: CString, dstSize: nat, num0: int)
    requires 0 < dstSize <= dst.Length
    modifies dst
    ensures StrOf(dst[..]) == Fixed(src[..LimitedEnd(src, 0, if num0 < 0 then 0 else num0, dstSize)])
    ensures forall k :: dstSize <= k < dst.Length ==> dst[k] == old(dst[k])
  {
    var cursor := LimitedCursor(src, dstSize, num0);
    var n := StrCopy(dst, src, if cursor < dstSize then cursor + 1 else dstSize);
  }

  /** From the cursor on, the string decodes into code points of these lengths. */
  predicate Marks(s: CString, cursor: nat, lens: seq<nat>)
    requires cursor <= |s|
    decreases |lens|
  {
    if lens == [] then cursor == |s|
    else
      && cursor < |s| && First(s[cursor..]).len == lens[0]
      && cursor + lens[0] <= |s| && Marks(s, cursor + lens[0], lens[1..])
  }

  function Lens(vs: seq<Scalar>): (r: seq<nat>)
  {
    if vs == [] then [] else [|Encode(vs[0])|] + Lens(vs[1..])
  }

  lemma HeadOfValid(before: seq<byte>, v: Scalar, tail: seq<byte>, s: CString)
    requires s == before + (Encode(v) + tail)
    ensures |before| < |s| && First(s[|before|..]).len == |Encode(v)|
    ensures s == (before + Encode(v)) + tail
  {
    DecodeOfEncode(v, tail);
    assert s[|before|..] == Encode(v) + tail;
  }

  lemma MarksCons(s: CString, cursor: nat, n: nat, lens: seq<nat>)
    requires cursor < |s| && First(s[cursor..]).len == n && cursor + n <= |s| && Marks(s, cursor + n, lens)
    ensures Marks(s, cursor, [n] + lens)
  {
    assert ([n] + lens)[1..] == lens;
  }

  lemma {:induction false} MarksOfValid(before: seq<byte>, vs: seq<Scalar>, s: CString)
    requires s == before + EncodeAll(vs)
    ensures Marks(s, |before|, Lens(vs))
    decreases |vs|
  {
    if vs == [] {
      assert |before| == |s|;
    } else {
      HeadOfValid(before, vs[0], EncodeAll(vs[1..]), s);
      MarksOfValid(before + Encode(vs[0]), vs[1..], s);
      MarksCons(s, |before|, |Encode(vs[0])|, Lens(vs[1..]));
    }
  }

  lemma AlignedPrefixStep(vs: seq<Scalar>, num: nat, room: nat)
    requires vs != [] && num > 0 && |Encode(vs[0])| <= room
    ensures var q := AlignedPrefix(vs[1..][..Min(num - 1, |vs| - 1)], room - |Encode(vs[0])|);
            AlignedPrefix(vs[..Min(num, |vs|)], room) == [vs[0]] + q
            && EncodeAll([vs[0]] + q) == Encode(vs[0]) + EncodeAll(q)
  {
    var taken := vs[..Min(num, |vs|)];
    assert taken[0] == vs[0] && taken[1..] == vs[1..][..Min(num - 1, |vs| - 1)];
    var q := AlignedPrefix(taken[1..], room - |Encode(vs[0])|);
    assert ([vs[0]] + q)[1..] == q;
  }

  /** The bytes of at most num code points of these lengths that fit into `room`. */
  function FitSum(lens: seq<nat>, num: nat, room: nat): (r: nat)
  {
    if lens == [] || num == 0 || lens[0] > room then 0
    else lens[0] + FitSum(lens[1..], num - 1, room - lens[0])
  }

  lemma {:induction false} FitSumIsLength(vs: seq<Scalar>, num: nat, room: nat)
    ensures FitSum(Lens(vs), num, room) == |EncodeAll(AlignedPrefix(vs[..Min(num, |vs|)], room))|
  {
    if vs == [] || num == 0 {
      assert vs[..Min(num, |vs|)] == [];
    } else {
      assert Lens(vs)[1..] == Lens(vs[1..]) && Lens(vs)[0] == |Encode(vs[0])|;
      if |Encode(vs[0])| <= room {
        AlignedPrefixStep(vs, num, room);
        FitSumIsLength(vs[1..], num - 1, room - |Encode(vs[0])|);
      } else {
        assert AlignedPrefix(vs[..Min(num, |vs|)], room) == [];
      }
    }
  }

  /** Both stop behind the code points that fit. */
  lemma {:induction false} LimitedEndOfMarks(s: CString, cursor: nat, lens: seq<nat>, num: nat, dstSize: nat)
    requires cursor <= |s| && Marks(s, cursor, lens) && cursor < dstSize
    ensures LimitedEnd(s, cursor, num, dstSize) == cursor + FitSum(lens, num, dstSize - 1 - cursor)
    decreases |lens|
  {
    if lens != [] && num > 0 {
      var next := cursor + lens[0];
      if next < dstSize {
        LimitedEndOfMarks(s, next, lens[1..], num - 1, dstSize);
      }
    }
  }

  lemma {:induction false} EncodeAllPrefix(us: seq<Scalar>, vs: seq<Scalar>)
    requires us <= vs
    ensures EncodeAll(us) <= EncodeAll(vs)
  {
    EncodeAllConcat(us, vs[|us|..]);
    assert vs == us + vs[|us|..];
  }

  lemma LimitedEndOfValid(vs: seq<Scalar>, num: nat, dstSize: nat)
    requires dstSize > 0
    ensures LimitedEnd(EncodeAll(vs), 0, num, dstSize) == |EncodeAll(AlignedPrefix(vs[..Min(num, |vs|)], dstSize - 1))|
  {
    LimitedEndIsFitSum(vs, EncodeAll(vs), num, dstSize);
    FitSumIsLength(vs, num, dstSize - 1);
  }

  lemma LimitedEndIsFitSum(vs: seq<Scalar>, s: CString, num: nat, dstSize: nat)
    requires dstSize > 0 && s == EncodeAll(vs)
    ensures LimitedEnd(s, 0, num, dstSize) == FitSum(Lens(vs), num, dstSize - 1)
  {
    assert s == [] + EncodeAll(vs);
    MarksOfValid([], vs, s);
    LimitedEndOfMarks(s, 0, Lens(vs), num, dstSize);
  }

  lemma FixedOfPrefix(us: seq<Scalar>, s: CString, end: nat)
    requires EncodeAll(us) <= s && end == |EncodeAll(us)|
    ensures Fixed(s[..end]) == EncodeAll(us)
  {
    FixedOfWhole(us);
    assert s[..end] == EncodeAll(us);
  }

  /** str_utf8_truncate and str_utf8_copy_num agree on every source; on a valid one this is what both leave. */
  lemma TruncatedIsAlignedPrefix(vs: seq<Scalar>, num: nat, dstSize: nat)
    requires dstSize > 0
    ensures Fixed(EncodeAll(vs)[..LimitedEnd(EncodeAll(vs), 0, num, dstSize)])
            == EncodeAll(AlignedPrefix(vs[..Min(num, |vs|)], dstSize - 1))
  {
    var p := AlignedPrefix(vs[..Min(num, |vs|)], dstSize - 1);
    EncodeAllPrefix(p, vs);
    LimitedEndOfValid(vs, num, dstSize);
    FixedOfPrefix(p, EncodeAll(vs), LimitedEnd(EncodeAll(vs), 0, num, dstSize));
  }
}
