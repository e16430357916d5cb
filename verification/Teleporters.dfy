/** The teleporter lists of CCollision (src/game/collision.cpp): one list per kind and number, filled from the map. */
module Teleporters {
  import opened Common

  const TILE_TELEIN := 26
  const TILE_TELEOUT := 27
  const TILE_TELECHECKOUT := 30

  type uint8 = n: int | 0 <= n < 256

  datatype TeleTile = TeleTile(number: uint8, typ: uint8)

  // ---------------------------------------------------------------- positions and indices

  function RoundToInt(r: real): int {
    if r > 0.0 then Truncate(r + 0.5) else Truncate(r - 0.5)
  }

  /** The division of integers rounds towards zero as well. */
  function Divide(n: int, d: nat): int
    requires d > 0
  {
    if n >= 0 then n / d else -(-n / d)
  }

  function Clamp(v: int, lo: int, hi: int): int {
    if v < lo then lo else if hi < v then hi else v
  }

  /** The tile a position is on, or the nearest one. */
  function PureMapIndex(width: nat, height: nat, pos: Vec): int {
    var nx := Clamp(Divide(RoundToInt(pos.x), 32), 0, width - 1);
    var ny := Clamp(Divide(RoundToInt(pos.y), 32), 0, height - 1);
    ny * width + nx
  }

  /** The centre of tile i. */
  function Centre(width: nat, i: nat): Vec
    requires width > 0
  {
    Vec((i % width) as real * 32.0 + 16.0, (i / width) as real * 32.0 + 16.0)
  }

  function Centres(width: nat): nat -> Vec {
    (i: nat) => if width > 0 then Centre(width, i) else Vec(0.0, 0.0)
  }

  ghost predicate IsCentre(at: nat -> Vec, width: nat) {
    forall i: nat {:trigger Centre(width, i)} :: width > 0 ==> at(i) == Centre(width, i)
  }

  lemma RoundOfCentre(k: nat)
    ensures Divide(RoundToInt(k as real * 32.0 + 16.0), 32) == k
  {
    assert k as real * 32.0 + 16.0 == (32 * k + 16) as real;
  }

  lemma RowBelow(y: nat, height: nat, width: nat)
    ensures y >= height ==> y * width >= width * height
  {
  }

  lemma RowInMap(width: nat, height: nat, i: nat)
    requires i < width * height
    ensures width > 0 && i / width < height && i == i / width * width + i % width
  {
    if width > 0 {
      RowBelow(i / width, height, width);
    }
  }

  lemma NonEmptyMap(width: nat, height: nat)
    ensures width * height > 0 ==> width > 0
    ensures width * height >= 0
  {
  }

  /** Tile i is the one its centre is on. */
  lemma IndexOfCentre(width: nat, height: nat, i: nat)
    requires i < width * height
    ensures width > 0 && PureMapIndex(width, height, Centre(width, i)) == i
  {
    RowInMap(width, height, i);
    RoundOfCentre(i % width);
    RoundOfCentre(i / width);
  }

  /** The column of a position, or the row: tile c lies between 32 c and 32 c + 32, up to rounding. */
  predicate IsColumn(v: real, c: nat, count: nat) {
    && c < count
    && (c > 0 ==> v >= 32.0 * c as real - 0.5)
    && (c < count - 1 ==> v < 32.0 * c as real + 31.5)
  }

  lemma RoundedBelow(v: real, c: nat)
    ensures v < 32.0 * c as real + 31.5 ==> Divide(RoundToInt(v), 32) <= c
    ensures v >= 32.0 * c as real - 0.5 && v > 0.0 ==> Divide(RoundToInt(v), 32) >= c
  {
    var n := RoundToInt(v);
    if v < 32.0 * c as real + 31.5 {
      assert n < 32 * c + 32;
    }
    if v >= 32.0 * c as real - 0.5 && v > 0.0 {
      assert n >= 32 * c;
    }
  }

  lemma ColumnIs(v: real, c: nat, count: nat)
    requires IsColumn(v, c, count)
    ensures Clamp(Divide(RoundToInt(v), 32), 0, count - 1) == c
  {
    RoundedBelow(v, c);
  }

  /** Every position has exactly the index of the tile it is on; off the map it is that of the nearest tile. */
  lemma PureMapIndexIs(width: nat, height: nat, pos: Vec, column: nat, row: nat)
    requires IsColumn(pos.x, column, width) && IsColumn(pos.y, row, height)
    ensures PureMapIndex(width, height, pos) == row * width + column
  {
    ColumnIs(pos.x, column, width);
    ColumnIs(pos.y, row, height);
  }

  /** There is such a column for every position, however far off. */
  lemma EveryPositionHasColumn(v: real, count: nat) returns (c: nat)
    requires count > 0
    ensures IsColumn(v, c, count)
  {
    c := 0;
    while c < count - 1 && v >= 32.0 * c as real + 31.5
      invariant c < count && (c > 0 ==> v >= 32.0 * c as real - 0.5)
    {
      c := c + 1;
    }
  }

  /** The centre of a tile is as far from its left side as from its right one, and from top and bottom. */
  lemma CentreIsHalfway(width: nat, i: nat)
    requires width > 0
    ensures var p, left, top := Centre(width, i), 32.0 * (i % width) as real, 32.0 * (i / width) as real;
            p.x - left == (left + 32.0) - p.x && p.y - top == (top + 32.0) - p.y
  {
  }

  // ---------------------------------------------------------------- the tiles of a list

  datatype Kind = In | Out | CheckOut | Other

  predicate HasKind(typ: uint8, kind: Kind) {
    match kind
    case In => typ == TILE_TELEIN
    case Out => typ == TILE_TELEOUT
    case CheckOut => typ == TILE_TELECHECKOUT
    case Other => typ != 0 && typ != TILE_TELEIN && typ != TILE_TELEOUT && typ != TILE_TELECHECKOUT
  }

  /** The types of the map format, and of every other type but none, one kind. */
  lemma KindsOfTypes(typ: uint8)
    ensures HasKind(26, In) && HasKind(27, Out) && HasKind(30, CheckOut)
    ensures typ !in {0, 26, 27, 30} ==> HasKind(typ, Other)
    ensures forall kind: Kind :: !HasKind(0, kind)
    ensures forall k: Kind, l: Kind :: HasKind(typ, k) && HasKind(typ, l) ==> k == l
  {
  }

  /** Lists are numbered from zero, tiles from one. */
  predicate InList(t: TeleTile, kind: Kind, number: int) {
    t.number > 0 && t.number - 1 == number && HasKind(t.typ, kind)
  }

  /** The tiles of a list among the first n of the map, in order. */
  function Tiles(tele: seq<TeleTile>, kind: Kind, number: int, n: nat): (r: seq<nat>)
    requires n <= |tele|
  {
    if n == 0 then []
    else Tiles(tele, kind, number, n - 1) + if InList(tele[n - 1], kind, number) then [n - 1] else []
  }

  /** r lists the tiles among the first n, once each and in order. */
  ghost predicate Exact(tele: seq<TeleTile>, kind: Kind, number: int, n: nat, r: seq<nat>)
    requires n <= |tele|
  {
    && (forall i: nat {:trigger i in r} :: i in r <==> i < n && InList(tele[i], kind, number))
    && (forall j, k :: 0 <= j < k < |r| ==> r[j] < r[k])
  }

  lemma ExactStep(tele: seq<TeleTile>, kind: Kind, number: int, n: nat, r: seq<nat>, r': seq<nat>)
    requires n < |tele| && Exact(tele, kind, number, n, r)
    requires r' == r + if InList(tele[n], kind, number) then [n] else []
    ensures Exact(tele, kind, number, n + 1, r')
  {
    forall i: nat ensures i in r' <==> i < n + 1 && InList(tele[i], kind, number) {
      assert i in r' <==> i in r || (i == n && InList(tele[n], kind, number));
    }
    forall j, k | 0 <= j < k < |r'| ensures r'[j] < r'[k] {
      assert r'[j] == r[j] && r[j] in r;
    }
  }

  lemma {:induction false} TilesAreExact(tele: seq<TeleTile>, kind: Kind, number: int, n: nat)
    requires n <= |tele|
    ensures Exact(tele, kind, number, n, Tiles(tele, kind, number, n))
  {
    if n > 0 {
      TilesAreExact(tele, kind, number, n - 1);
      ExactStep(tele, kind, number, n - 1, Tiles(tele, kind, number, n - 1), Tiles(tele, kind, number, n));
    }
  }

  /** All tiles of a number among the first n, kind by kind. */
  function AllTiles(tele: seq<TeleTile>, number: int, n: nat): seq<nat>
    requires n <= |tele|
  {
    Tiles(tele, In, number, n) + Tiles(tele, Out, number, n)
    + Tiles(tele, CheckOut, number, n) + Tiles(tele, Other, number, n)
  }

  /** Every tile with the number and a type, and no other, is in the list exactly once. */
  lemma AllTilesAreExact(tele: seq<TeleTile>, number: int, n: nat)
    requires n <= |tele|
    ensures var r := AllTiles(tele, number, n);
            && (forall i: nat :: i in r <==>
                  i < n && tele[i].number > 0 && tele[i].number - 1 == number && tele[i].typ != 0)
            && Distinct(r)
  {
    TilesAreExact(tele, In, number, n);
    TilesAreExact(tele, Out, number, n);
    TilesAreExact(tele, CheckOut, number, n);
    TilesAreExact(tele, Other, number, n);
    forall i: nat | i < n && tele[i].number > 0 && tele[i].number - 1 == number && tele[i].typ != 0
      ensures i in AllTiles(tele, number, n)
    {
      assert InList(tele[i], In, number) || InList(tele[i], Out, number)
             || InList(tele[i], CheckOut, number) || InList(tele[i], Other, number);
    }
    NoCommon(tele, number, n);
  }

  lemma NoCommon(tele: seq<TeleTile>, number: int, n: nat)
    requires n <= |tele|
    ensures Distinct(AllTiles(tele, number, n))
  {
    TilesAreExact(tele, In, number, n);
    TilesAreExact(tele, Out, number, n);
    TilesAreExact(tele, CheckOut, number, n);
    TilesAreExact(tele, Other, number, n);
    var a, b := Tiles(tele, In, number, n), Tiles(tele, Out, number, n);
    var c, d := Tiles(tele, CheckOut, number, n), Tiles(tele, Other, number, n);
    DistinctConcat(a, b);
    DistinctConcat(a + b, c);
    DistinctConcat(a + b + c, d);
  }

  ghost predicate Distinct(r: seq<nat>) {
    forall j, k :: 0 <= j < k < |r| ==> r[j] != r[k]
  }

  lemma DistinctConcat(r: seq<nat>, s: seq<nat>)
    requires Distinct(r) && Distinct(s)
    requires forall i: nat :: i in r ==> i !in s
    ensures Distinct(r + s)
  {
    forall j, k | 0 <= j < k < |r + s| ensures (r + s)[j] != (r + s)[k] {
      if j < |r| <= k {
        assert r[j] in r && s[k - |r|] in s;
      }
    }
  }

  // ---------------------------------------------------------------- the maps of lists

  type Lists = map<int, seq<Vec>>

  /** An entry that is missing stands for an empty list. */
  function ListOf(m: Lists, number: int): seq<Vec> {
    if number in m then m[number] else []
  }

  /** A list holds the positions of some tiles. */
  ghost predicate Holds(list: seq<Vec>, at: nat -> Vec, tiles: seq<nat>) {
    && |list| == |tiles|
    && forall j :: 0 <= j < |list| ==> list[j] == at(tiles[j])
  }

  /** The lists of a kind are those of the first n tiles. */
  ghost predicate AreLists(m: Lists, at: nat -> Vec, tele: seq<TeleTile>, kind: Kind, n: nat)
    requires n <= |tele|
  {
    forall number: int {:trigger ListOf(m, number)} :: Holds(ListOf(m, number), at, Tiles(tele, kind, number, n))
  }

  /** m_TeleIns[Number - 1].emplace_back(...) */
  function Append(m: Lists, number: int, pos: Vec): Lists {
    m[number := ListOf(m, number) + [pos]]
  }

  lemma ListStep(m: Lists, m': Lists, at: nat -> Vec, tele: seq<TeleTile>, kind: Kind, n: nat, number: int)
    requires n < |tele|
    requires Holds(ListOf(m, number), at, Tiles(tele, kind, number, n))
    requires ListOf(m', number) ==
             if InList(tele[n], kind, number) then ListOf(m, number) + [at(n)] else ListOf(m, number)
    ensures Holds(ListOf(m', number), at, Tiles(tele, kind, number, n + 1))
  {
    assert Tiles(tele, kind, number, n) + [] == Tiles(tele, kind, number, n);
  }

  /** The lists of a kind after the next tile, which has the given position. */
  function Emplaced(m: Lists, t: TeleTile, kind: Kind, pos: Vec): Lists {
    if t.number > 0 && HasKind(t.typ, kind) then Append(m, t.number - 1, pos) else m
  }

  // ---------------------------------------------------------------- filling the maps

  /** The lists of a kind after the first n tiles were emplaced in turn. */
  function Filled(tele: seq<TeleTile>, kind: Kind, at: nat -> Vec, n: nat): Lists
    requires n <= |tele|
  {
    if n == 0 then map[] else Emplaced(Filled(tele, kind, at, n - 1), tele[n - 1], kind, at(n - 1))
  }

  lemma {:induction false} FilledHolds(tele: seq<TeleTile>, kind: Kind, at: nat -> Vec, n: nat, number: int)
    requires n <= |tele|
    ensures Holds(ListOf(Filled(tele, kind, at, n), number), at, Tiles(tele, kind, number, n))
  {
    if n > 0 {
      FilledHolds(tele, kind, at, n - 1, number);
      ListStep(Filled(tele, kind, at, n - 1), Filled(tele, kind, at, n), at, tele, kind, n - 1, number);
    }
  }

  /** Emplacing the tiles in turn makes the lists of the first n tiles. */
  lemma FilledAreLists(tele: seq<TeleTile>, kind: Kind, at: nat -> Vec, n: nat)
    requires n <= |tele|
    ensures AreLists(Filled(tele, kind, at, n), at, tele, kind, n)
  {
    forall number: int ensures Holds(ListOf(Filled(tele, kind, at, n), number), at, Tiles(tele, kind, number, n)) {
      FilledHolds(tele, kind, at, n, number);
    }
  }

  // ---------------------------------------------------------------- the class

  class Collision {
    var width: nat
    var height: nat
    var tele: Option<seq<TeleTile>>
    var teleIns: Lists
    var teleOuts: Lists
    var teleCheckOuts: Lists
    var teleOthers: Lists

    /** The teleporter layer; a map without one is like a map without teleporters. */
    ghost function Layer(): seq<TeleTile>
      reads this
    {
      if tele.Some? then tele.value else []
    }

    ghost function Area(): nat
      reads this
    {
      if tele.Some? then width * height else 0
    }

    /** The four maps hold the centres of the tiles of the layer. */
    ghost predicate Valid()
      reads this
    {
      && Area() <= |Layer()|
      && AreLists(teleIns, Centres(width), Layer(), In, Area())
      && AreLists(teleOuts, Centres(width), Layer(), Out, Area())
      && AreLists(teleCheckOuts, Centres(width), Layer(), CheckOut, Area())
      && AreLists(teleOthers, Centres(width), Layer(), Other, Area())
    }

    /** The four maps are what emplacing the first n tiles of a layer makes of empty ones. */
    ghost predicate FilledWith(layer: seq<TeleTile>, at: nat -> Vec, n: nat)
      requires n <= |layer|
      reads this
    {
      && teleIns == Filled(layer, In, at, n)
      && teleOuts == Filled(layer, Out, at, n)
      && teleCheckOuts == Filled(layer, CheckOut, at, n)
      && teleOthers == Filled(layer, Other, at, n)
    }

    /** The tiles of a number, in the order in which the teleporters are counted. */
    ghost function AllOf(number: int): seq<nat>
      requires Valid()
      reads this
    {
      AllTiles(Layer(), number, Area())
    }

    method Unload()
      modifies this
      ensures Valid() && tele == None && width == 0 && height == 0
      ensures teleIns == teleOuts == teleCheckOuts == teleOthers == map[]
    {
      width, height, tele := 0, 0, None;
      teleIns, teleOuts, teleCheckOuts, teleOthers := map[], map[], map[], map[];
    }

    constructor ()
      ensures Valid() && tele == None
    {
      width, height, tele := 0, 0, None;
      teleIns, teleOuts, teleCheckOuts, teleOthers := map[], map[], map[], map[];
    }

    /** The branches of the loop body. */
    method Emplace(number: uint8, typ: uint8, pos: Vec)
      modifies `teleIns, `teleOuts, `teleCheckOuts, `teleOthers
      ensures teleIns == Emplaced(old(teleIns), TeleTile(number, typ), In, pos)
      ensures teleOuts == Emplaced(old(teleOuts), TeleTile(number, typ), Out, pos)
      ensures teleCheckOuts == Emplaced(old(teleCheckOuts), TeleTile(number, typ), CheckOut, pos)
      ensures teleOthers == Emplaced(old(teleOthers), TeleTile(number, typ), Other, pos)
    {
      if number > 0 {
        if typ == TILE_TELEIN {
          teleIns := Append(teleIns, number - 1, pos);
        } else if typ == TILE_TELEOUT {
          teleOuts := Append(teleOuts, number - 1, pos);
        } else if typ == TILE_TELECHECKOUT {
          teleCheckOuts := Append(teleCheckOuts, number - 1, pos);
        } else if typ != 0 {
          teleOthers := Append(teleOthers, number - 1, pos);
        }
      }
    }

    /** The body of the loop over the tiles. */
    method AddTile(i: nat, ghost layer: seq<TeleTile>, ghost at: nat -> Vec)
      requires tele == Some(layer) && i < |layer| && width > 0 && IsCentre(at, width)
      requires FilledWith(layer, at, i)
      modifies `teleIns, `teleOuts, `teleCheckOuts, `teleOthers
      ensures FilledWith(layer, at, i + 1)
    {
      var centre := Centre(width, i);
      assert centre == at(i);
      Emplace(tele.value[i].number, tele.value[i].typ, centre);
    }

    /** The loop over the tiles. */
    method Fill(size: nat, ghost layer: seq<TeleTile>, ghost at: nat -> Vec)
      requires tele == Some(layer) && size <= |layer| && IsCentre(at, width) && (size > 0 ==> width > 0)
      requires FilledWith(layer, at, 0)
      modifies `teleIns, `teleOuts, `teleCheckOuts, `teleOthers
      ensures FilledWith(layer, at, size)
    {
      for i := 0 to size
        invariant tele == Some(layer) && width == old(width)
        invariant FilledWith(layer, at, i)
      {
        AddTile(i, layer, at);
      }
    }

    /** The part of Init that reads the teleporter layer; a layer that is too small is ignored. */
    method Init(w: nat, h: nat, layer: Option<seq<TeleTile>>)
      modifies this
      ensures Valid() && width == w && height == h
      ensures tele == if layer.Some? && |layer.value| >= w * h then layer else None
    {
      Unload();
      width, height := w, h;
      NonEmptyMap(w, h);
      if layer.Some? {
        if |layer.value| >= width * height {
          tele := layer;
        }
      }
      if tele.Some? {
        ghost var at, n: nat := Centres(width), w * h;
        Fill(width * height, tele.value, at);
        FilledAreLists(tele.value, In, at, n);
        FilledAreLists(tele.value, Out, at, n);
        FilledAreLists(tele.value, CheckOut, at, n);
        FilledAreLists(tele.value, Other, at, n);
      }
    }

    /** Reading a list through the accessor adds an empty entry for a number without one. */
    method TeleOuts(number: int) returns (list: seq<Vec>)
      requires Valid()
      modifies `teleOuts
      ensures Valid() && list == old(ListOf(teleOuts, number))
      ensures forall k :: ListOf(teleOuts, k) == old(ListOf(teleOuts, k))
    {
      if number !in teleOuts {
        ghost var before := teleOuts;
        teleOuts := teleOuts[number := []];
        assert forall k {:trigger ListOf(teleOuts, k)} :: ListOf(teleOuts, k) == ListOf(before, k);
      }
      list := teleOuts[number];
    }

    method TeleAllSize(number: int) returns (total: nat)
      requires Valid()
      ensures total == |AllOf(number)|
    {
      SizesOfLists(number);
      total := 0;
      if number in teleIns {
        total := total + |teleIns[number]|;
      }
      if number in teleOuts {
        total := total + |teleOuts[number]|;
      }
      if number in teleCheckOuts {
        total := total + |teleCheckOuts[number]|;
      }
      if number in teleOthers {
        total := total + |teleOthers[number]|;
      }
    }

    lemma SizesOfLists(number: int)
      requires Valid()
      ensures |AllOf(number)| == |ListOf(teleIns, number)| + |ListOf(teleOuts, number)|
                                 + |ListOf(teleCheckOuts, number)| + |ListOf(teleOthers, number)|
    {
    }

    /** The element of the four lists one after the other. */
    ghost function Nth(number: int, offset: nat): Vec
      reads this
    {
      var a, b := ListOf(teleIns, number), ListOf(teleOuts, number);
      var c, d := ListOf(teleCheckOuts, number), ListOf(teleOthers, number);
      if offset < |a| + |b| + |c| + |d| then (a + b + c + d)[offset] else Vec(-1.0, -1.0)
    }

    method TeleAllGet(number: int, offset0: nat) returns (pos: Vec)
      ensures pos == Nth(number, offset0)
    {
      var offset := offset0;
      if number in teleIns {
        if |teleIns[number]| > offset {
          return teleIns[number][offset];
        } else {
          offset := offset - |teleIns[number]|;
        }
      }
      if number in teleOuts {
        if |teleOuts[number]| > offset {
          return teleOuts[number][offset];
        } else {
          offset := offset - |teleOuts[number]|;
        }
      }
      if number in teleCheckOuts {
        if |teleCheckOuts[number]| > offset {
          return teleCheckOuts[number][offset];
        } else {
          offset := offset - |teleCheckOuts[number]|;
        }
      }
      if number in teleOthers {
        if |teleOthers[number]| > offset {
          return teleOthers[number][offset];
        }
      }
      return Vec(-1.0, -1.0);
    }

    /** The teleporters that are entered come first, then the exits, the exits of checkpoints, and all others. */
    lemma ListsFollowEachOther(number: int, offset: nat)
      ensures var ins, outs := ListOf(teleIns, number), ListOf(teleOuts, number);
              var checkOuts, others := ListOf(teleCheckOuts, number), ListOf(teleOthers, number);
              var second, third, fourth := |ins|, |ins| + |outs|, |ins| + |outs| + |checkOuts|;
              && (offset < |ins| ==> Nth(number, offset) == ins[offset])
              && (offset < |outs| ==> Nth(number, second + offset) == outs[offset])
              && (offset < |checkOuts| ==> Nth(number, third + offset) == checkOuts[offset])
              && (offset < |others| ==> Nth(number, fourth + offset) == others[offset])
              && Nth(number, fourth + |others| + offset) == Vec(-1.0, -1.0)
    {
    }

    /** Offsets below the size give the centres of the tiles with the number, larger ones a position off the map. */
    lemma NthIsCentre(number: int, offset: nat)
      requires Valid()
      ensures Nth(number, offset) ==
              if offset < |AllOf(number)| then Centres(width)(AllOf(number)[offset]) else Vec(-1.0, -1.0)
    {
      SizesOfLists(number);
      var a, b := ListOf(teleIns, number), ListOf(teleOuts, number);
      var c, d := ListOf(teleCheckOuts, number), ListOf(teleOthers, number);
      var x, y := Tiles(Layer(), In, number, Area()), Tiles(Layer(), Out, number, Area());
      var z, w := Tiles(Layer(), CheckOut, number, Area()), Tiles(Layer(), Other, number, Area());
      HoldsConcat(a, x, b, y, Centres(width));
      HoldsConcat(a + b, x + y, c, z, Centres(width));
      HoldsConcat(a + b + c, x + y + z, d, w, Centres(width));
    }

    /**
      Offsets below the size list every tile with the number and a type exactly once: each of these tiles has
      exactly one offset, and the position there is on this tile.
      */
    lemma ListsEveryTileOnce(number: int)
      requires Valid()
      ensures forall j {:trigger Nth(number, j)} :: 0 <= j < |AllOf(number)| ==>
                PureMapIndex(width, height, Nth(number, j)) == AllOf(number)[j]
      ensures forall i: nat :: i in AllOf(number) <==>
                i < Area() && Layer()[i].number > 0 && Layer()[i].number - 1 == number && Layer()[i].typ != 0
      ensures Distinct(AllOf(number))
    {
      AllTilesAreExact(Layer(), number, Area());
      forall j {:trigger Nth(number, j)} | 0 <= j < |AllOf(number)|
        ensures PureMapIndex(width, height, Nth(number, j)) == AllOf(number)[j]
      {
        NthIsCentre(number, j);
        assert AllOf(number)[j] in AllOf(number);
        IndexOfCentre(width, height, AllOf(number)[j]);
      }
    }

    /** GetPureMapIndex */
    method GetPureMapIndex(x: real, y: real) returns (index: int)
      ensures index == PureMapIndex(width, height, Vec(x, y))
      ensures width > 0 && height > 0 ==> 0 <= index < width * height
    {
      var nx := Clamp(Divide(RoundToInt(x), 32), 0, width - 1);
      var ny := Clamp(Divide(RoundToInt(y), 32), 0, height - 1);
      index := ny * width + nx;
      if width > 0 && height > 0 {
        IndexInMap(width, height, nx, ny);
      }
    }
  }

  lemma HoldsConcat(list: seq<Vec>, tiles: seq<nat>, list': seq<Vec>, tiles': seq<nat>, at: nat -> Vec)
    requires Holds(list, at, tiles) && Holds(list', at, tiles')
    ensures Holds(list + list', at, tiles + tiles')
  {
  }

  lemma IndexInMap(width: nat, height: nat, nx: nat, ny: nat)
    requires nx < width && ny < height
    ensures 0 <= ny * width + nx < width * height
  {
    assert ny * width + width == (ny + 1) * width <= height * width;
  }
}
