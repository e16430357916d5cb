/**
  The edit distance of src/base/system.cpp: str_utf32_dist_buffer keeps two rows of the table in
  one buffer, chosen by the parity of the row number.

  What the distance means is defined by edit scripts, without the table.
  */
module EditDistance {

  // ---------------------------------------------------------------- edit scripts

  datatype Edit = Keep | Substitute(x: int) | Delete | Insert(x: int)

  function Last<T>(s: seq<T>): T
    requires s != []
  {
    s[|s| - 1]
  }

  function Front<T>(s: seq<T>): (r: seq<T>)
    requires s != []
    ensures |r| == |s| - 1
  {
    s[..|s| - 1]
  }

  /** The script turns a into b, element by element. */
  predicate Turns(script: seq<Edit>, a: seq<int>, b: seq<int>)
    decreases |script|
  {
    if script == [] then a == [] && b == []
    else
      match Last(script)
      case Keep => a != [] && b != [] && Last(a) == Last(b) && Turns(Front(script), Front(a), Front(b))
      case Substitute(x) => a != [] && b != [] && Last(b) == x && Turns(Front(script), Front(a), Front(b))
      case Delete => a != [] && Turns(Front(script), Front(a), b)
      case Insert(x) => b != [] && Last(b) == x && Turns(Front(script), a, Front(b))
  }

  /** Insertions, deletions and substitutions cost one each. */
  function Cost(script: seq<Edit>): (r: nat)
    decreases |script|
  {
    if script == [] then 0 else Cost(Front(script)) + (if Last(script).Keep? then 0 else 1)
  }

  /** d is the least cost of a script from a to b. */
  ghost predicate IsDistance(a: seq<int>, b: seq<int>, d: int) {
    && (exists script :: Turns(script, a, b) && Cost(script) == d)
    && (forall script :: Turns(script, a, b) ==> Cost(script) >= d)
  }

  // ---------------------------------------------------------------- the recurrence of the table

  function Min3(a: int, b: int, c: int): (r: int)
    ensures r <= a && r <= b && r <= c && (r == a || r == b || r == c)
  {
    if a < b then (if a < c then a else c) else (if b < c then b else c)
  }

  function Distance(a: seq<int>, b: seq<int>): (r: nat)
    decreases |a| + |b|
  {
    if a == [] then |b|
    else if b == [] then |a|
    else Min3(Distance(Front(a), b) + 1, Distance(a, Front(b)) + 1,
              Distance(Front(a), Front(b)) + if Last(a) != Last(b) then 1 else 0)
  }

  lemma Extend(script: seq<Edit>, e: Edit)
    ensures Front(script + [e]) == script && Last(script + [e]) == e
    ensures Cost(script + [e]) == Cost(script) + if e.Keep? then 0 else 1
  {
  }

  /** A script that costs no more than the table says. */
  lemma {:induction false} BestScript(a: seq<int>, b: seq<int>) returns (script: seq<Edit>)
    ensures Turns(script, a, b) && Cost(script) == Distance(a, b)
    decreases |a| + |b|
  {
    if a == [] && b == [] {
      script := [];
    } else if b != [] && (a == [] || Distance(a, b) == Distance(a, Front(b)) + 1) {
      script := BestScript(a, Front(b));
      Extend(script, Insert(Last(b)));
      script := script + [Insert(Last(b))];
    } else if a != [] && (b == [] || Distance(a, b) == Distance(Front(a), b) + 1) {
      script := BestScript(Front(a), b);
      Extend(script, Delete);
      script := script + [Delete];
    } else {
      script := BestScript(Front(a), Front(b));
      var e := if Last(a) == Last(b) then Keep else Substitute(Last(b));
      Extend(script, e);
      script := script + [e];
    }
  }

  /** No script costs less. */
  lemma {:induction false} NoCheaperScript(script: seq<Edit>, a: seq<int>, b: seq<int>)
    requires Turns(script, a, b)
    ensures Cost(script) >= Distance(a, b)
    decreases |script|
  {
    if script != [] {
      match Last(script) {
        case Keep => NoCheaperScript(Front(script), Front(a), Front(b));
        case Substitute(_) => NoCheaperScript(Front(script), Front(a), Front(b));
        case Delete => NoCheaperScript(Front(script), Front(a), b);
        case Insert(_) => NoCheaperScript(Front(script), a, Front(b));
      }
    }
  }

  /** The table computes the least cost of an edit script. */
  lemma DistanceIsLeastCost(a: seq<int>, b: seq<int>)
    ensures IsDistance(a, b, Distance(a, b))
  {
    var script := BestScript(a, b);
    forall script | Turns(script, a, b)
      ensures Cost(script) >= Distance(a, b)
    {
      NoCheaperScript(script, a, b);
    }
  }

  // ---------------------------------------------------------------- it is a metric

  lemma {:induction false} DistanceZero(a: seq<int>, b: seq<int>)
    ensures Distance(a, b) == 0 <==> a == b
    decreases |a| + |b|
  {
    if a != [] && b != [] {
      DistanceZero(Front(a), Front(b));
      assert a == Front(a) + [Last(a)] && b == Front(b) + [Last(b)];
    }
  }

  // ---------------------------------------------------------------- what single edits cost

  /** The number of positions in which two strings of the same length differ. */
  function Differences(a: seq<int>, b: seq<int>): (r: nat)
    requires |a| == |b|
    ensures r <= |a|
  {
    if a == [] then 0 else Differences(Front(a), Front(b)) + if Last(a) != Last(b) then 1 else 0
  }

  /** A substitution costs one: as many as there are differences are enough. */
  lemma {:induction false} NotMoreThanDifferences(a: seq<int>, b: seq<int>)
    requires |a| == |b|
    ensures Distance(a, b) <= Differences(a, b)
    decreases |a|
  {
    if a != [] {
      NotMoreThanDifferences(Front(a), Front(b));
    }
  }

  /** The distance lies between the difference of the lengths and the greater one. */
  lemma {:induction false} DistanceByLengths(a: seq<int>, b: seq<int>)
    ensures Distance(a, b) >= |a| - |b| && Distance(a, b) >= |b| - |a|
    ensures Distance(a, b) <= |a| || Distance(a, b) <= |b|
    decreases |a| + |b|
  {
    if a != [] && b != [] {
      DistanceByLengths(Front(a), b);
      DistanceByLengths(a, Front(b));
      DistanceByLengths(Front(a), Front(b));
    }
  }

  /** An insertion or a deletion costs exactly one, wherever it is. */
  lemma InsertionCostsOne(a: seq<int>, b: seq<int>, x: int)
    ensures Distance(a + b, a + [x] + b) == 1 && Distance(a + [x] + b, a + b) == 1
  {
    DistanceByLengths(a + b, a + [x] + b);
    SameTail(a, a + [x], b);
    DistanceSymmetric(a + b, a + [x] + b);
    assert Front(a + [x]) == a;
    DistanceZero(a, a);
    if a != [] {
      assert Distance(a, a + [x]) <= Distance(a, Front(a + [x])) + 1;
    }
  }

  /** A common end adds nothing to the distance. */
  lemma {:induction false} SameTail(a: seq<int>, b: seq<int>, tail: seq<int>)
    ensures Distance(a + tail, b + tail) <= Distance(a, b)
    decreases |tail|
  {
    if tail == [] {
      assert a + tail == a && b + tail == b;
    } else {
      assert Front(a + tail) == a + Front(tail) && Front(b + tail) == b + Front(tail);
      SameTail(a, b, Front(tail));
    }
  }

  lemma {:induction false} DistanceSymmetric(a: seq<int>, b: seq<int>)
    ensures Distance(a, b) == Distance(b, a)
    decreases |a| + |b|
  {
    if a != [] && b != [] {
      DistanceSymmetric(Front(a), b);
      DistanceSymmetric(a, Front(b));
      DistanceSymmetric(Front(a), Front(b));
    }
  }

  /** Two edits of the same element of b, one after the other, as at most one edit. */
  function Fuse(first: Edit, second: Edit): (r: Edit)
    requires !first.Delete? && !second.Insert? && !(first.Insert? && second.Delete?)
  {
    if second.Keep? then first
    else if second.Delete? then Delete
    else if first.Insert? then Insert(second.x)
    else Substitute(second.x)
  }

  /** Doing one script after the other is a script of no greater cost. */
  lemma {:induction false} Compose(s: seq<Edit>, t: seq<Edit>, a: seq<int>, b: seq<int>, c: seq<int>)
    returns (u: seq<Edit>)
    requires Turns(s, a, b) && Turns(t, b, c)
    ensures Turns(u, a, c) && Cost(u) <= Cost(s) + Cost(t)
    decreases |s| + |t|
  {
    if s == [] && t == [] {
      u := [];
    } else if s != [] && Last(s).Delete? {
      u := Compose(Front(s), t, Front(a), b, c);
      Extend(u, Delete);
      u := u + [Delete];
    } else if t != [] && Last(t).Insert? {
      u := Compose(s, Front(t), a, b, Front(c));
      Extend(u, Last(t));
      u := u + [Last(t)];
    } else {
      var first, second := Last(s), Last(t);
      var a', c' := if first.Insert? then a else Front(a), if second.Delete? then c else Front(c);
      u := Compose(Front(s), Front(t), a', Front(b), c');
      if !(first.Insert? && second.Delete?) {
        Extend(u, Fuse(first, second));
        u := u + [Fuse(first, second)];
      }
    }
  }

  lemma {:induction false} DistanceTriangle(a: seq<int>, b: seq<int>, c: seq<int>)
    ensures Distance(a, c) <= Distance(a, b) + Distance(b, c)
  {
    var s := BestScript(a, b);
    var t := BestScript(b, c);
    var u := Compose(s, t, a, b, c);
    NoCheaperScript(u, a, c);
  }

  // ---------------------------------------------------------------- the two-row table

  /** Entry (i, j): the distance of the prefixes of these lengths. */
  function Entry(a: seq<int>, b: seq<int>, i: int, j: int): (r: nat)
    requires 0 <= i <= |a| && 0 <= j <= |b|
  {
    Distance(a[..i], b[..j])
  }

  lemma EntryStep(a: seq<int>, b: seq<int>, i: int, j: int)
    requires 1 <= i <= |a| && 1 <= j <= |b|
    ensures Entry(a, b, i, j) == Min3(Entry(a, b, i - 1, j) + 1, Entry(a, b, i, j - 1) + 1,
                                      Entry(a, b, i - 1, j - 1) + if a[i - 1] != b[j - 1] then 1 else 0)
  {
    assert Front(a[..i]) == a[..i - 1] && Front(b[..j]) == b[..j - 1];
  }

  /** Entry (i, j) follows from its three neighbours. */
  predicate StepsAt(table: (int, int) -> int, a: seq<int>, b: seq<int>, i: int, j: int)
    requires 1 <= i <= |a| && 1 <= j <= |b|
  {
    table(i, j) == Min3(table(i - 1, j) + 1, table(i, j - 1) + 1,
                        table(i - 1, j - 1) + if a[i - 1] != b[j - 1] then 1 else 0)
  }

  /** A table with the right border and the right steps. */
  ghost predicate IsTable(table: (int, int) -> int, a: seq<int>, b: seq<int>) {
    && (forall i {:trigger table(i, 0)} :: 0 <= i <= |a| ==> table(i, 0) == i)
    && (forall j {:trigger table(0, j)} :: 0 <= j <= |b| ==> table(0, j) == j)
    && (forall i, j {:trigger StepsAt(table, a, b, i, j)} ::
          1 <= i <= |a| && 1 <= j <= |b| ==> StepsAt(table, a, b, i, j))
  }

  function Table(a: seq<int>, b: seq<int>): (int, int) -> int {
    (i: int, j: int) => if 0 <= i <= |a| && 0 <= j <= |b| then Entry(a, b, i, j) else 0
  }

  lemma DistancesAreTable(a: seq<int>, b: seq<int>)
    ensures IsTable(Table(a, b), a, b)
  {
    forall i, j {:trigger StepsAt(Table(a, b), a, b, i, j)} | 1 <= i <= |a| && 1 <= j <= |b|
      ensures StepsAt(Table(a, b), a, b, i, j)
    {
      EntryStep(a, b, i, j);
    }
  }

  /** #define B(i, j) buf[((j)&1) * (a_len + 1) + (i)] */
  function Cell(aLen: int, i: int, j: int): (r: int)
    requires 0 <= i <= aLen && 0 <= j
    ensures 0 <= r < 2 * (aLen + 1)
  {
    (if j % 2 == 1 then aLen + 1 else 0) + i
  }

  /** Row j of the table, up to column n, is in the buffer. */
  ghost predicate RowIs(buf: array<int>, off: int, aLen: nat, table: (int, int) -> int, j: int, n: int)
    requires 0 <= j && n <= aLen && 0 <= off && off + 2 * (aLen + 1) <= buf.Length
    reads buf
  {
    forall i :: 0 <= i <= n ==> buf[off + Cell(aLen, i, j)] == table(i, j)
  }

  /** A stretch of an array is untouched by writes to [off, off + len) of buf. */
  predicate Apart<T>(a: array<T>, start: int, count: int, buf: array<T>, off: int, len: int) {
    a != buf || start + count <= off || off + len <= start
  }

  /** What lies outside [off, off + len) is as before. */
  ghost predicate SameOutside(now: seq<int>, before: seq<int>, off: int, len: int) {
    |now| == |before| && forall k :: 0 <= k < |now| && !(off <= k < off + len) ==> now[k] == before[k]
  }

  /** Row 0: B(i, 0) = i. */
  method FirstRow(buf: array<int>, off: nat, bufLen: nat, aLen: nat,
                  ghost table: (int, int) -> int, ghost x: seq<int>, ghost y: seq<int>)
    requires |x| == aLen && 2 * (aLen + 1) <= bufLen && off + bufLen <= buf.Length && IsTable(table, x, y)
    modifies buf
    ensures RowIs(buf, off, aLen, table, 0, aLen)
    ensures SameOutside(buf[..], old(buf[..]), off, bufLen)
  {
    for i := 0 to aLen + 1
      invariant SameOutside(buf[..], old(buf[..]), off, bufLen)
      invariant RowIs(buf, off, aLen, table, 0, i - 1)
    {
      buf[off + Cell(aLen, i, 0)] := i;
      assert table(i, 0) == i;
    }
  }

  /** B(i, j) from its three neighbours. */
  method NextCell(ai: int, bj: int, aLen: nat, buf: array<int>, off: nat, bufLen: nat, i: nat, j: nat,
                  ghost table: (int, int) -> int, ghost x: seq<int>, ghost y: seq<int>)
    requires |x| == aLen && 1 <= i <= aLen && 1 <= j <= |y| && ai == x[i - 1] && bj == y[j - 1]
    requires off + bufLen <= buf.Length && 2 * (aLen + 1) <= bufLen && IsTable(table, x, y)
    requires RowIs(buf, off, aLen, table, j - 1, aLen) && RowIs(buf, off, aLen, table, j, i - 1)
    modifies buf
    ensures RowIs(buf, off, aLen, table, j - 1, aLen) && RowIs(buf, off, aLen, table, j, i)
    ensures SameOutside(buf[..], old(buf[..]), off, bufLen)
  {
    var subst := if ai != bj then 1 else 0;
    assert StepsAt(table, x, y, i, j);
    assert buf[off + Cell(aLen, i - 1, j)] == table(i - 1, j);
    assert buf[off + Cell(aLen, i, j - 1)] == table(i, j - 1);
    buf[off + Cell(aLen, i, j)] := Min3(
      buf[off + Cell(aLen, i - 1, j)] + 1,
      buf[off + Cell(aLen, i, j - 1)] + 1,
      buf[off + Cell(aLen, i - 1, j - 1)] + subst);
  }

  /** Row j from row j - 1. */
  method NextRow(a: array<int>, aOff: nat, aLen: nat, b: array<int>, bOff: nat, bLen: nat,
                 buf: array<int>, off: nat, bufLen: nat, j: nat,
                 ghost table: (int, int) -> int, ghost x: seq<int>, ghost y: seq<int>)
    requires aOff + aLen <= a.Length && bOff + bLen <= b.Length && off + bufLen <= buf.Length
    requires Apart(a, aOff, aLen, buf, off, bufLen) && Apart(b, bOff, bLen, buf, off, bufLen)
    requires 2 * (aLen + 1) <= bufLen && 1 <= j <= bLen && IsTable(table, x, y)
    requires x == a[aOff..aOff + aLen] && y == b[bOff..bOff + bLen]
    requires RowIs(buf, off, aLen, table, j - 1, aLen)
    modifies buf
    ensures RowIs(buf, off, aLen, table, j, aLen)
    ensures SameOutside(buf[..], old(buf[..]), off, bufLen)
  {
    buf[off + Cell(aLen, 0, j)] := j;
    assert table(0, j) == j;
    for i := 1 to aLen + 1
      invariant SameOutside(buf[..], old(buf[..]), off, bufLen)
      invariant RowIs(buf, off, aLen, table, j - 1, aLen)
      invariant RowIs(buf, off, aLen, table, j, i - 1)
    {
      assert a[aOff + i - 1] == x[i - 1] && b[bOff + j - 1] == y[j - 1];
      NextCell(a[aOff + i - 1], b[bOff + j - 1], aLen, buf, off, bufLen, i, j, table, x, y);
    }
  }

  /** The two loops. */
  method FillRows(a: array<int>, aOff: nat, aLen: nat, b: array<int>, bOff: nat, bLen: nat,
                  buf: array<int>, off: nat, bufLen: nat,
                  ghost table: (int, int) -> int, ghost x: seq<int>, ghost y: seq<int>)
    returns (r: int)
    requires aOff + aLen <= a.Length && bOff + bLen <= b.Length && off + bufLen <= buf.Length
    requires Apart(a, aOff, aLen, buf, off, bufLen) && Apart(b, bOff, bLen, buf, off, bufLen)
    requires 2 * (aLen + 1) <= bufLen && IsTable(table, x, y)
    requires x == a[aOff..aOff + aLen] && y == b[bOff..bOff + bLen]
    modifies buf
    ensures r == table(aLen, bLen)
    ensures SameOutside(buf[..], old(buf[..]), off, bufLen)
  {
    FirstRow(buf, off, bufLen, aLen, table, x, y);
    for j := 1 to bLen + 1
      invariant SameOutside(buf[..], old(buf[..]), off, bufLen)
      invariant RowIs(buf, off, aLen, table, j - 1, aLen)
    {
      assert x == a[aOff..aOff + aLen] && y == b[bOff..bOff + bLen];
      NextRow(a, aOff, aLen, b, bOff, bLen, buf, off, bufLen, j, table, x, y);
    }
    r := buf[off + Cell(aLen, aLen, bLen)];
  }

  /** The distance, for operands that are already in order. */
  method FillTable(a: array<int>, aOff: nat, aLen: nat, b: array<int>, bOff: nat, bLen: nat,
                   buf: array<int>, off: nat, bufLen: nat) returns (r: int)
    requires aOff + aLen <= a.Length && bOff + bLen <= b.Length && off + bufLen <= buf.Length
    requires Apart(a, aOff, aLen, buf, off, bufLen) && Apart(b, bOff, bLen, buf, off, bufLen)
    requires 2 * (aLen + 1) <= bufLen
    modifies buf
    ensures r == Distance(old(a[aOff..aOff + aLen]), old(b[bOff..bOff + bLen]))
    ensures SameOutside(buf[..], old(buf[..]), off, bufLen)
  {
    ghost var x, y := a[aOff..aOff + aLen], b[bOff..bOff + bLen];
    DistancesAreTable(x, y);
    r := FillRows(a, aOff, aLen, b, bOff, bLen, buf, off, bufLen, Table(x, y), x, y);
    LastEntry(x, y);
  }

  lemma LastEntry(a: seq<int>, b: seq<int>)
    ensures Entry(a, b, |a|, |b|) == Distance(a, b)
  {
    assert a[..|a|] == a && b[..|b|] == b;
  }

  /** str_utf32_dist_buffer: the shorter operand becomes the row, so two rows fit the asserted size. */
  method Utf32DistBuffer(a: array<int>, aOff: nat, aLen: nat, b: array<int>, bOff: nat, bLen: nat,
                         buf: array<int>, off: nat, bufLen: nat) returns (r: int)
    requires aOff + aLen <= a.Length && bOff + bLen <= b.Length && off + bufLen <= buf.Length
    requires Apart(a, aOff, aLen, buf, off, bufLen) && Apart(b, bOff, bLen, buf, off, bufLen)
    requires bufLen >= (aLen + 1) + (bLen + 1)
    modifies buf
    ensures IsDistance(old(a[aOff..aOff + aLen]), old(b[bOff..bOff + bLen]), r)
    ensures SameOutside(buf[..], old(buf[..]), off, bufLen)
  {
    ghost var x, y := a[aOff..aOff + aLen], b[bOff..bOff + bLen];
    if aLen > bLen {
      r := FillTable(b, bOff, bLen, a, aOff, aLen, buf, off, bufLen);
      DistanceSymmetric(x, y);
    } else {
      r := FillTable(a, aOff, aLen, b, bOff, bLen, buf, off, bufLen);
    }
    DistanceIsLeastCost(x, y);
  }
}
