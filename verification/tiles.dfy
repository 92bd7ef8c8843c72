/**
  The tile addressor of mipper/mipper.go: a pyramid configuration, the
  mapping from a grid address to a tile's bounds and key (`makeTile`), the
  enumeration of tiles under a viewport (`tilesAt`) and of the whole
  pyramid (`ListAllTiles`).

  Bounds and viewports are integer source pixels. The source stores them
  divided by the longer image side; every comparison it makes is the same
  comparison scaled by that positive constant.
 */
module Tiles {
  import opened Arith
  import opened TileNames

  /** The pyramid description written by the builder and read by the manager. */
  datatype Config = Config(levels: int, tileSize: int, dx: int, dy: int)

  /** What a usable configuration needs; the source itself checks none of it. */
  predicate ValidConfig(c: Config) {
    c.levels >= 1 && c.tileSize > 0 && c.dx > 0 && c.dy > 0
  }

  /** Side, in source pixels, of an unclipped tile at `level`. */
  function TileSide(c: Config, level: nat): (s: int)
    ensures c.tileSize > 0 ==> s >= c.tileSize > 0
  {
    if c.tileSize > 0 then MulLe(1, Pow2(level), c.tileSize); c.tileSize * Pow2(level)
    else c.tileSize * Pow2(level)
  }

  /** A tile: its level, origin and extent in source pixels, and its key. */
  datatype Tile = Tile(level: nat, x: int, y: int, dx: int, dy: int, filename: string)

  /** A rectangle of the source image, origin and extent in source pixels. */
  datatype Viewport = Viewport(x: int, y: int, dx: int, dy: int)

  /** The tile at grid cell (gx, gy) of `level`: the origin sits on the grid, the extent is clipped to the image. */
  function MakeTile(c: Config, level: nat, gx: nat, gy: nat): (t: Tile)
    ensures t.level == level && t.filename == TileName(level, gx, gy)
    ensures t.x == gx * TileSide(c, level) && t.y == gy * TileSide(c, level)
    ensures t.dx <= TileSide(c, level) && t.x + t.dx <= c.dx
    ensures t.dx == TileSide(c, level) || t.x + t.dx == c.dx
    ensures t.dy <= TileSide(c, level) && t.y + t.dy <= c.dy
    ensures t.dy == TileSide(c, level) || t.y + t.dy == c.dy
  {
    var ts := TileSide(c, level);
    var x := gx * ts;
    var y := gy * ts;
    var dx := if x + ts > c.dx then c.dx - x else ts;
    var dy := if y + ts > c.dy then c.dy - y else ts;
    Tile(level, x, y, dx, dy, TileName(level, gx, gy))
  }

  /** The tile was not shrunk along either axis. */
  predicate Unclipped(c: Config, t: Tile) {
    t.dx == TileSide(c, t.level) && t.dy == TileSide(c, t.level)
  }

  /**
    On each axis, the viewport's span reaches into the tile's interior: the viewport
    starts before the tile's far edge and ends after its near edge. A viewport of
    zero extent still meets the tile whose interior holds its origin.
   */
  predicate Meets(t: Tile, vp: Viewport) {
    t.x < vp.x + vp.dx && vp.x < t.x + t.dx && t.y < vp.y + vp.dy && vp.y < t.y + t.dy
  }

  /** The pixel (px, py) lies inside the tile. */
  predicate Contains(t: Tile, px: int, py: int) {
    t.x <= px < t.x + t.dx && t.y <= py < t.y + t.dy
  }

  // ---------------------------------------------------------------------------
  // tilesAt

  /** First grid index of one axis: `int(lo / ts)` truncated toward zero, then raised to 0. */
  function LowIndex(lo: int, ts: int): (i: int)
    requires ts > 0
    ensures i >= 0
  {
    var i := TruncDiv(lo, ts);
    if i < 0 then 0 else i
  }

  /**
    One past the last grid index of one axis: the ceiling of `hi / ts` by the
    `+ ts - 1` trick, truncated toward zero; when that overshoots the image it
    is replaced by the FLOOR of `extent / ts`, which drops a partial last tile.
   */
  function HighIndex(hi: int, ts: int, extent: int): int
    requires ts > 0
  {
    var i := TruncDiv(hi + ts - 1, ts);
    if i * ts > extent then extent / ts else i
  }

  datatype GridRange = GridRange(x0: nat, x1: int, y0: nat, y1: int)

  /** The half-open index rectangle [x0, x1) x [y0, y1) that tilesAt enumerates. */
  function TileRange(c: Config, level: nat, vp: Viewport): GridRange
    requires ValidConfig(c)
  {
    var ts := TileSide(c, level);
    GridRange(LowIndex(vp.x, ts), HighIndex(vp.x + vp.dx, ts, c.dx),
              LowIndex(vp.y, ts), HighIndex(vp.y + vp.dy, ts, c.dy))
  }

  /**
    On one axis, index g lies in [LowIndex, HighIndex) exactly when its
    stride [g*ts, g*ts+ts) fits inside the image and meets [lo, hi).
   */
  lemma AxisExact(lo: int, hi: int, ts: int, extent: int, g: nat)
    requires ts > 0
    ensures LowIndex(lo, ts) <= g < HighIndex(hi, ts, extent)
        <==> g * ts + ts <= extent && g * ts < hi && lo < g * ts + ts
  {
    MulLe(0, g, ts);
    assert (g + 1) * ts == g * ts + ts;
    // lower end
    if lo >= 0 {
      BelowFloor(lo, ts, g);
    }
    // upper end before the clamp
    var raw := TruncDiv(hi + ts - 1, ts);
    if hi + ts - 1 >= 0 {
      BelowCeil(hi, ts, g);
    }
    assert g < raw <==> g * ts < hi;
    // the clamp
    if raw * ts > extent {
      BelowFloor(extent, ts, g);
      if g * ts + ts <= extent {
        if raw <= g + 1 {
          MulLe(raw, g + 1, ts);
        }
      }
    } else if g < raw {
      MulLe(g + 1, raw, ts);
    }
  }

  /** Grid cell (gx, gy) is in TileRange exactly when its tile is unclipped and meets the viewport. */
  lemma RangeExact(c: Config, level: nat, vp: Viewport, gx: nat, gy: nat)
    requires ValidConfig(c)
    ensures var g := TileRange(c, level, vp);
            var t := MakeTile(c, level, gx, gy);
            (g.x0 <= gx < g.x1 && g.y0 <= gy < g.y1) <==> Unclipped(c, t) && Meets(t, vp)
  {
    var ts := TileSide(c, level);
    AxisExact(vp.x, vp.x + vp.dx, ts, c.dx, gx);
    AxisExact(vp.y, vp.y + vp.dy, ts, c.dy, gy);
  }

  lemma RangeExactAll(c: Config, level: nat, vp: Viewport)
    requires ValidConfig(c)
    ensures var g := TileRange(c, level, vp);
            forall gx: nat, gy: nat ::
              (g.x0 <= gx < g.x1 && g.y0 <= gy < g.y1)
              <==> Unclipped(c, MakeTile(c, level, gx, gy)) && Meets(MakeTile(c, level, gx, gy), vp)
  {
    forall gx: nat, gy: nat {
      RangeExact(c, level, vp, gx, gy);
    }
  }

  /** The tiles of column gx with row index in [y0, y1), keyed by file name. */
  function ColumnTiles(c: Config, level: nat, gx: nat, y0: nat, y1: int): (r: map<string, Tile>)
    decreases y1 - y0
    ensures forall k :: k in r ==> exists gy: nat :: y0 <= gy < y1 && k == TileName(level, gx, gy)
    ensures forall gy: nat :: y0 <= gy < y1 ==>
              TileName(level, gx, gy) in r && r[TileName(level, gx, gy)] == MakeTile(c, level, gx, gy)
  {
    if y1 <= y0 then map[]
    else
      var rest := ColumnTiles(c, level, gx, y0 + 1, y1);
      var r := rest[TileName(level, gx, y0) := MakeTile(c, level, gx, y0)];
      AddRowKeepsOthers(c, level, gx, y0, y1, rest, r);
      r
  }

  lemma AddRowKeepsOthers(c: Config, level: nat, gx: nat, y0: nat, y1: int,
                          rest: map<string, Tile>, r: map<string, Tile>)
    requires forall gy: nat :: y0 + 1 <= gy < y1 ==>
               TileName(level, gx, gy) in rest && rest[TileName(level, gx, gy)] == MakeTile(c, level, gx, gy)
    requires r == rest[TileName(level, gx, y0) := MakeTile(c, level, gx, y0)]
    ensures forall gy: nat :: y0 <= gy < y1 ==>
              TileName(level, gx, gy) in r && r[TileName(level, gx, gy)] == MakeTile(c, level, gx, gy)
  {
    forall gy: nat | y0 < gy < y1
      ensures r[TileName(level, gx, gy)] == MakeTile(c, level, gx, gy)
    {
      if TileName(level, gx, gy) == TileName(level, gx, y0) {
        TileNameInjective(level, gx, gy, level, gx, y0);
      }
    }
  }

  /** The tiles of the index rectangle [x0, x1) x [y0, y1), keyed by file name. */
  function GridTiles(c: Config, level: nat, x0: nat, x1: int, y0: nat, y1: int): (r: map<string, Tile>)
    decreases x1 - x0
    ensures forall k :: k in r ==>
              exists gx: nat, gy: nat :: x0 <= gx < x1 && y0 <= gy < y1 && k == TileName(level, gx, gy)
    ensures forall gx: nat, gy: nat :: x0 <= gx < x1 && y0 <= gy < y1 ==>
              TileName(level, gx, gy) in r && r[TileName(level, gx, gy)] == MakeTile(c, level, gx, gy)
  {
    if x1 <= x0 then map[]
    else
      var col := ColumnTiles(c, level, x0, y0, y1);
      var rest := GridTiles(c, level, x0 + 1, x1, y0, y1);
      AddColumnKeepsOthers(c, level, x0, x1, y0, y1, col, rest);
      rest + col
  }

  lemma AddColumnKeepsOthers(c: Config, level: nat, x0: nat, x1: int, y0: nat, y1: int,
                             col: map<string, Tile>, rest: map<string, Tile>)
    requires forall k :: k in col ==> exists gy: nat :: y0 <= gy < y1 && k == TileName(level, x0, gy)
    requires forall gy: nat :: y0 <= gy < y1 ==>
               TileName(level, x0, gy) in col && col[TileName(level, x0, gy)] == MakeTile(c, level, x0, gy)
    requires forall gx: nat, gy: nat :: x0 + 1 <= gx < x1 && y0 <= gy < y1 ==>
               TileName(level, gx, gy) in rest && rest[TileName(level, gx, gy)] == MakeTile(c, level, gx, gy)
    ensures forall gx: nat, gy: nat :: x0 <= gx < x1 && y0 <= gy < y1 ==>
              TileName(level, gx, gy) in rest + col
              && (rest + col)[TileName(level, gx, gy)] == MakeTile(c, level, gx, gy)
  {
    forall gx: nat, gy: nat | x0 < gx < x1 && y0 <= gy < y1
      ensures (rest + col)[TileName(level, gx, gy)] == MakeTile(c, level, gx, gy)
    {
      if TileName(level, gx, gy) in col {
        var hy: nat :| y0 <= hy < y1 && TileName(level, gx, gy) == TileName(level, x0, hy);
        TileNameInjective(level, gx, gy, level, x0, hy);
      }
    }
  }

  /**
    `tilesAt`: the tiles of `level` under the viewport. With integer pixel
    coordinates it returns exactly the unclipped tiles that meet the
    viewport, so a clipped last column or row is never returned.
   */
  function TilesAt(c: Config, level: nat, vp: Viewport): (r: map<string, Tile>)
    requires ValidConfig(c)
    ensures forall k :: k in r ==> exists gx: nat, gy: nat ::
              k == TileName(level, gx, gy) && Unclipped(c, MakeTile(c, level, gx, gy))
              && Meets(MakeTile(c, level, gx, gy), vp)
    ensures forall gx: nat, gy: nat ::
              TileName(level, gx, gy) in r
              <==> Unclipped(c, MakeTile(c, level, gx, gy)) && Meets(MakeTile(c, level, gx, gy), vp)
    ensures forall gx: nat, gy: nat :: TileName(level, gx, gy) in r ==>
              r[TileName(level, gx, gy)] == MakeTile(c, level, gx, gy)
  {
    var g := TileRange(c, level, vp);
    RangeExactAll(c, level, vp);
    ParseAllTileNames();
    GridTiles(c, level, g.x0, g.x1, g.y0, g.y1)
  }

  // ---------------------------------------------------------------------------
  // ListAllTiles

  /** Number of grid columns of `level`: the columns whose origin lies inside the image. */
  function Columns(c: Config, level: nat): int
    requires ValidConfig(c)
  {
    CeilDiv(c.dx, TileSide(c, level))
  }

  /** Number of grid rows of `level`. */
  function Rows(c: Config, level: nat): int
    requires ValidConfig(c)
  {
    CeilDiv(c.dy, TileSide(c, level))
  }

  /** Addresses (level, gx, gy), (level, gx, gy+1), ...: the inner loop, while the row starts inside the image. */
  function ColumnAddresses(c: Config, level: nat, gx: nat, gy: nat): (r: seq<Address>)
    requires ValidConfig(c)
    decreases c.dy - gy * TileSide(c, level)
    ensures |r| == (if gy < Rows(c, level) then Rows(c, level) - gy else 0)
    ensures forall k :: 0 <= k < |r| ==> r[k] == Address(level, gx, gy + k)
  {
    var ts := TileSide(c, level);
    BelowCeil(c.dy, ts, gy);
    if gy * ts < c.dy then
      assert (gy + 1) * ts == gy * ts + ts;
      [Address(level, gx, gy)] + ColumnAddresses(c, level, gx, gy + 1)
    else []
  }

  /** The grid of `level` from column gx on, each address once. */
  ghost predicate IsColumnsFrom(c: Config, level: nat, gx: nat, r: seq<Address>)
    requires ValidConfig(c)
  {
    IsGridColumnsFrom(level, gx, Columns(c, level), Rows(c, level), r)
  }

  /** `r` lists columns gx .. nx-1 of an nx-by-ny grid of `level`, each without repeats. */
  ghost predicate IsGridColumnsFrom(level: nat, gx: nat, nx: int, ny: int, r: seq<Address>) {
    && |r| == (if gx < nx then (nx - gx) * ny else 0)
    && (forall k :: 0 <= k < |r| ==> r[k].level == level && gx <= r[k].gx < nx && r[k].gy < ny)
    && (forall i: nat, j: nat :: gx <= i < nx && j < ny ==> Address(level, i, j) in r)
    && (forall k1, k2 :: 0 <= k1 < k2 < |r| ==> r[k1] != r[k2])
  }

  /** Columns gx, gx+1, ... of one level: the middle loop, while the column starts inside the image. */
  function LevelAddresses(c: Config, level: nat, gx: nat): (r: seq<Address>)
    requires ValidConfig(c)
    decreases c.dx - gx * TileSide(c, level)
    ensures IsColumnsFrom(c, level, gx, r)
  {
    var ts := TileSide(c, level);
    BelowCeil(c.dx, ts, gx);
    BelowCeil(c.dy, ts, 0);
    if gx * ts < c.dx then
      assert (gx + 1) * ts == gx * ts + ts;
      var col := ColumnAddresses(c, level, gx, 0);
      var rest := LevelAddresses(c, level, gx + 1);
      PrependColumn(c, level, gx, col, rest);
      col + rest
    else []
  }

  lemma PrependColumn(c: Config, level: nat, gx: nat, col: seq<Address>, rest: seq<Address>)
    requires ValidConfig(c) && gx < Columns(c, level)
    requires |col| == Rows(c, level)
    requires forall k :: 0 <= k < |col| ==> col[k] == Address(level, gx, k)
    requires IsColumnsFrom(c, level, gx + 1, rest)
    ensures IsColumnsFrom(c, level, gx, col + rest)
  {
    PrependGridColumn(level, gx, Columns(c, level), Rows(c, level), col, rest);
  }

  lemma PrependGridColumn(level: nat, gx: nat, nx: int, ny: int, col: seq<Address>, rest: seq<Address>)
    requires gx < nx && |col| == ny
    requires forall k :: 0 <= k < |col| ==> col[k] == Address(level, gx, k)
    requires IsGridColumnsFrom(level, gx + 1, nx, ny, rest)
    ensures IsGridColumnsFrom(level, gx, nx, ny, col + rest)
  {
    var r := col + rest;
    assert |r| == (nx - gx) * ny by {
      SuccMul(nx - (gx + 1), ny);
    }
    GridColumnBounds(level, gx, nx, ny, col, rest);
    forall i: nat, j: nat | gx <= i < nx && j < ny
      ensures Address(level, i, j) in r
    {
      if i == gx {
        assert r[j] == Address(level, gx, j);
      } else {
        assert Address(level, i, j) in rest;
      }
    }
  }

  /**
    The middle loop walks the level column by column and each column top to
    bottom: position k holds row k mod Rows of column gx + k / Rows.
   */
  lemma {:induction false} LevelAddressesColumnMajor(c: Config, level: nat, gx: nat)
    requires ValidConfig(c)
    ensures forall k :: 0 <= k < |LevelAddresses(c, level, gx)| ==>
              Rows(c, level) > 0 && LevelAddresses(c, level, gx)[k] == Address(level, gx + k / Rows(c, level), k % Rows(c, level))
    decreases c.dx - gx * TileSide(c, level)
  {
    var ts := TileSide(c, level);
    BelowCeil(c.dx, ts, gx);
    BelowCeil(c.dy, ts, 0);
    if gx * ts < c.dx {
      assert (gx + 1) * ts == gx * ts + ts;
      LevelAddressesColumnMajor(c, level, gx + 1);
      GridColumnOrder(level, gx, Rows(c, level), ColumnAddresses(c, level, gx, 0), LevelAddresses(c, level, gx + 1));
    }
  }

  /** Column-major positions survive prepending column gx to the columns from gx+1 on. */
  lemma GridColumnOrder(level: nat, gx: nat, ny: int, col: seq<Address>, rest: seq<Address>)
    requires 0 < ny && |col| == ny
    requires forall k :: 0 <= k < |col| ==> col[k] == Address(level, gx, k)
    requires forall k :: 0 <= k < |rest| ==> ny > 0 && rest[k] == Address(level, gx + 1 + k / ny, k % ny)
    ensures forall k :: 0 <= k < |col + rest| ==> ny > 0 && (col + rest)[k] == Address(level, gx + k / ny, k % ny)
  {
    var r := col + rest;
    forall k | 0 <= k < |r|
      ensures r[k] == Address(level, gx + k / ny, k % ny)
    {
      if k < ny {
        DivModUnique(k, ny, 0, k);
      } else {
        assert r[k] == rest[k - ny];
        DivModShift(k, ny);
      }
    }
  }

  /** Bounds and distinctness of the addresses once a column is prepended. */
  lemma GridColumnBounds(level: nat, gx: nat, nx: int, ny: int, col: seq<Address>, rest: seq<Address>)
    requires gx < nx && |col| == ny
    requires forall k :: 0 <= k < |col| ==> col[k] == Address(level, gx, k)
    requires forall k :: 0 <= k < |rest| ==> rest[k].level == level && gx + 1 <= rest[k].gx < nx && rest[k].gy < ny
    requires forall k1, k2 :: 0 <= k1 < k2 < |rest| ==> rest[k1] != rest[k2]
    ensures forall k :: 0 <= k < |col + rest| ==>
              (col + rest)[k].level == level && gx <= (col + rest)[k].gx < nx && (col + rest)[k].gy < ny
    ensures forall k1, k2 :: 0 <= k1 < k2 < |col + rest| ==> (col + rest)[k1] != (col + rest)[k2]
  {
    var r := col + rest;
    forall k | 0 <= k < |r|
      ensures r[k].level == level && gx <= r[k].gx < nx && r[k].gy < ny
    {
      if k >= ny {
        assert r[k] == rest[k - ny];
      }
    }
    forall k1, k2 | 0 <= k1 < k2 < |r|
      ensures r[k1] != r[k2]
    {
      if k1 >= ny {
        assert r[k1] == rest[k1 - ny] && r[k2] == rest[k2 - ny];
      } else if k2 >= ny {
        assert r[k2] == rest[k2 - ny];
      }
    }
  }

  /** The number of tiles in levels 0..level: Columns * Rows per level. */
  function PyramidSize(c: Config, level: int): nat
    requires ValidConfig(c)
    decreases level
  {
    if level < 0 then 0
    else
      BelowCeil(c.dx, TileSide(c, level), 0);
      BelowCeil(c.dy, TileSide(c, level), 0);
      Columns(c, level) * Rows(c, level) + PyramidSize(c, level - 1)
  }

  /** Every address of levels 0..level, each once, coarser levels first. */
  ghost predicate IsLevelsUpTo(c: Config, level: int, r: seq<Address>)
    requires ValidConfig(c)
  {
    && |r| == PyramidSize(c, level)
    && (forall i, j :: 0 <= i < j < |r| ==> r[i].level >= r[j].level)
    && ColumnMajorWithinLevels(r)
    && (forall a :: a in r <==> a.level <= level && a.gx < Columns(c, a.level) && a.gy < Rows(c, a.level))
    && (forall k1, k2 :: 0 <= k1 < k2 < |r| ==> r[k1] != r[k2])
  }

  /** Within one level, addresses come column by column, each column top to bottom. */
  ghost predicate ColumnMajorWithinLevels(r: seq<Address>) {
    forall i, j :: 0 <= i < j < |r| && r[i].level == r[j].level ==>
      r[i].gx < r[j].gx || (r[i].gx == r[j].gx && r[i].gy < r[j].gy)
  }

  /** Levels `level`, level-1, ..., 0: the outer loop. */
  function LevelsFrom(c: Config, level: int): (r: seq<Address>)
    requires ValidConfig(c)
    decreases level
    ensures IsLevelsUpTo(c, level, r)
  {
    if level < 0 then []
    else
      var here := LevelAddresses(c, level, 0);
      var rest := LevelsFrom(c, level - 1);
      LevelAddressesColumnMajor(c, level, 0);
      PrependLevel(c, level, here, rest);
      here + rest
  }

  lemma PrependLevel(c: Config, level: nat, here: seq<Address>, rest: seq<Address>)
    requires ValidConfig(c)
    requires IsColumnsFrom(c, level, 0, here)
    requires forall k :: 0 <= k < |here| ==> Rows(c, level) > 0 && here[k] == Address(level, 0 + k / Rows(c, level), k % Rows(c, level))
    requires IsLevelsUpTo(c, level - 1, rest)
    ensures IsLevelsUpTo(c, level, here + rest)
  {
    var r := here + rest;
    var n := |here|;
    BelowCeil(c.dx, TileSide(c, level), 0);
    assert n == Columns(c, level) * Rows(c, level);
    assert |r| == PyramidSize(c, level);
    forall k | 0 <= k < |rest|
      ensures rest[k].level < level
    {
      assert rest[k] in rest;
    }
    PrependLevelOrder(level, Rows(c, level), here, rest);
    forall a | a in r
      ensures a.level <= level && a.gx < Columns(c, a.level) && a.gy < Rows(c, a.level)
    {
      if a in here {
        var k :| 0 <= k < |here| && here[k] == a;
      }
    }
    forall a: Address | a.level <= level && a.gx < Columns(c, a.level) && a.gy < Rows(c, a.level)
      ensures a in r
    {
      if a.level == level {
        assert a in here;
      } else {
        assert a in rest;
      }
    }
  }

  /**
    Putting one level, listed column-major without repeats, in front of lower
    levels keeps the list ordered by level, column-major within each level and
    free of repeats.
   */
  lemma PrependLevelOrder(level: nat, ny: int, here: seq<Address>, rest: seq<Address>)
    requires forall k :: 0 <= k < |here| ==> ny > 0 && here[k] == Address(level, 0 + k / ny, k % ny)
    requires forall k1, k2 :: 0 <= k1 < k2 < |here| ==> here[k1] != here[k2]
    requires forall k :: 0 <= k < |rest| ==> rest[k].level < level
    requires forall i, j :: 0 <= i < j < |rest| ==> rest[i].level >= rest[j].level
    requires ColumnMajorWithinLevels(rest)
    requires forall k1, k2 :: 0 <= k1 < k2 < |rest| ==> rest[k1] != rest[k2]
    ensures forall i, j :: 0 <= i < j < |here + rest| ==> (here + rest)[i].level >= (here + rest)[j].level
    ensures ColumnMajorWithinLevels(here + rest)
    ensures forall k1, k2 :: 0 <= k1 < k2 < |here + rest| ==> (here + rest)[k1] != (here + rest)[k2]
  {
    var r := here + rest;
    var n := |here|;
    forall i, j | 0 <= i < j < |r|
      ensures r[i].level >= r[j].level && r[i] != r[j]
    {
      if i >= n {
        assert r[i] == rest[i - n] && r[j] == rest[j - n];
      } else if j >= n {
        assert r[j] == rest[j - n];
      }
    }
    forall i, j | 0 <= i < j < |r| && r[i].level == r[j].level
      ensures r[i].gx < r[j].gx || (r[i].gx == r[j].gx && r[i].gy < r[j].gy)
    {
      if i >= n {
        assert r[i] == rest[i - n] && r[j] == rest[j - n];
      } else if j >= n {
        assert false;
      } else {
        DivModOrder(i, j, ny);
      }
    }
  }

  /**
    `ListAllTiles`: the tile of every address of every level, coarsest level
    first; each tile appears once and has positive extent.
   */
  function ListAllTiles(c: Config): (r: seq<Tile>)
    requires ValidConfig(c)
    ensures |r| == PyramidSize(c, c.levels - 1)
    ensures forall i, j :: 0 <= i < j < |r| ==> r[i].level >= r[j].level
    ensures forall i, j :: 0 <= i < j < |r| && r[i].level == r[j].level ==>
              r[i].x < r[j].x || (r[i].x == r[j].x && r[i].y < r[j].y)
    ensures forall l: nat, gx: nat, gy: nat ::
              MakeTile(c, l, gx, gy) in r <==> l < c.levels && gx < Columns(c, l) && gy < Rows(c, l)
    ensures forall k :: 0 <= k < |r| ==> ListedAsNamed(c, r[k])
    ensures forall k1, k2 :: 0 <= k1 < k2 < |r| ==> r[k1].filename != r[k2].filename
  {
    var a := LevelsFrom(c, c.levels - 1);
    var r := TilesOf(c, a);
    ListedMembership(c, a, r);
    ListedDistinct(c, a, r);
    ListedOrder(c, a, r);
    ListedColumnMajor(c, a, r);
    r
  }

  /** The tile is the one its own key names. */
  predicate ListedAsNamed(c: Config, t: Tile) {
    match ParseTileName(t.filename)
    case None => false
    case Some(p) => t == MakeTile(c, p.level, p.gx, p.gy)
  }

  /** The tile of each address, in order; each is the tile its key names. */
  function TilesOf(c: Config, a: seq<Address>): (r: seq<Tile>)
    ensures |r| == |a|
    ensures forall k :: 0 <= k < |a| ==> r[k] == MakeTile(c, a[k].level, a[k].gx, a[k].gy)
    ensures forall k :: 0 <= k < |r| ==> ListedAsNamed(c, r[k])
  {
    if |a| == 0 then []
    else
      ParseTileNameRoundTrip(a[0].level, a[0].gx, a[0].gy);
      [MakeTile(c, a[0].level, a[0].gx, a[0].gy)] + TilesOf(c, a[1..])
  }

  /** Tiles of one level sit at multiples of the level's tile side, so grid order is pixel order. */
  lemma ListedColumnMajor(c: Config, a: seq<Address>, r: seq<Tile>)
    requires ValidConfig(c)
    requires ColumnMajorWithinLevels(a)
    requires |r| == |a| && forall k :: 0 <= k < |a| ==> r[k] == MakeTile(c, a[k].level, a[k].gx, a[k].gy)
    ensures forall i, j :: 0 <= i < j < |r| && r[i].level == r[j].level ==>
              r[i].x < r[j].x || (r[i].x == r[j].x && r[i].y < r[j].y)
  {
    forall i, j | 0 <= i < j < |r| && r[i].level == r[j].level
      ensures r[i].x < r[j].x || (r[i].x == r[j].x && r[i].y < r[j].y)
    {
      var ts := TileSide(c, a[i].level);
      assert r[i].level == a[i].level && r[j].level == a[j].level;
      if a[i].gx < a[j].gx {
        MulLt(a[i].gx, a[j].gx, ts);
      } else {
        MulLt(a[i].gy, a[j].gy, ts);
      }
    }
  }

  lemma ListedOrder(c: Config, a: seq<Address>, r: seq<Tile>)
    requires forall i, j :: 0 <= i < j < |a| ==> a[i].level >= a[j].level
    requires |r| == |a| && forall k :: 0 <= k < |a| ==> r[k] == MakeTile(c, a[k].level, a[k].gx, a[k].gy)
    ensures forall i, j :: 0 <= i < j < |r| ==> r[i].level >= r[j].level
  {
    forall i, j | 0 <= i < j < |r|
      ensures r[i].level >= r[j].level
    {
      assert r[i].level == a[i].level && r[j].level == a[j].level;
    }
  }

  lemma ListedMembership(c: Config, a: seq<Address>, r: seq<Tile>)
    requires ValidConfig(c) && IsLevelsUpTo(c, c.levels - 1, a)
    requires |r| == |a| && forall k :: 0 <= k < |a| ==> r[k] == MakeTile(c, a[k].level, a[k].gx, a[k].gy)
    ensures forall l: nat, gx: nat, gy: nat ::
              MakeTile(c, l, gx, gy) in r <==> l < c.levels && gx < Columns(c, l) && gy < Rows(c, l)
  {
    forall l: nat, gx: nat, gy: nat
      ensures MakeTile(c, l, gx, gy) in r <==> l < c.levels && gx < Columns(c, l) && gy < Rows(c, l)
    {
      if MakeTile(c, l, gx, gy) in r {
        var k :| 0 <= k < |r| && r[k] == MakeTile(c, l, gx, gy);
        TileNameInjective(l, gx, gy, a[k].level, a[k].gx, a[k].gy);
        assert a[k] in a;
      }
      if l < c.levels && gx < Columns(c, l) && gy < Rows(c, l) {
        assert Address(l, gx, gy) in a;
        var k :| 0 <= k < |a| && a[k] == Address(l, gx, gy);
        assert r[k] == MakeTile(c, l, gx, gy);
      }
    }
  }

  lemma ListedDistinct(c: Config, a: seq<Address>, r: seq<Tile>)
    requires forall k1, k2 :: 0 <= k1 < k2 < |a| ==> a[k1] != a[k2]
    requires |r| == |a| && forall k :: 0 <= k < |a| ==> r[k] == MakeTile(c, a[k].level, a[k].gx, a[k].gy)
    ensures forall k1, k2 :: 0 <= k1 < k2 < |r| ==> r[k1].filename != r[k2].filename
  {
    forall k1, k2 | 0 <= k1 < k2 < |r|
      ensures r[k1].filename != r[k2].filename
    {
      if r[k1].filename == r[k2].filename {
        TileNameInjective(a[k1].level, a[k1].gx, a[k1].gy, a[k2].level, a[k2].gx, a[k2].gy);
      }
    }
  }

  /** Every tile of the pyramid has positive extent: its origin lies inside the image. */
  lemma ListedTilesNonEmpty(c: Config, l: nat, gx: nat, gy: nat)
    requires ValidConfig(c) && MakeTile(c, l, gx, gy) in ListAllTiles(c)
    ensures MakeTile(c, l, gx, gy).dx > 0 && MakeTile(c, l, gx, gy).dy > 0
  {
    BelowCeil(c.dx, TileSide(c, l), gx);
    BelowCeil(c.dy, TileSide(c, l), gy);
  }

  /**
    The tiles of one level partition the image: every pixel lies in exactly
    one of them, the tile at (px / ts, py / ts), which lies in the level's grid.
   */
  lemma LevelPartition(c: Config, level: nat, px: int, py: int)
    requires ValidConfig(c) && 0 <= px < c.dx && 0 <= py < c.dy
    ensures px / TileSide(c, level) < Columns(c, level) && py / TileSide(c, level) < Rows(c, level)
    ensures forall gx: nat, gy: nat :: Contains(MakeTile(c, level, gx, gy), px, py)
              <==> gx == px / TileSide(c, level) && gy == py / TileSide(c, level)
  {
    var ts := TileSide(c, level);
    FloorDivBounds(px, ts);
    FloorDivBounds(py, ts);
    var gx, gy := px / ts, py / ts;
    BelowCeil(c.dx, ts, gx);
    BelowCeil(c.dy, ts, gy);
    assert Contains(MakeTile(c, level, gx, gy), px, py);
    forall i: nat, j: nat | Contains(MakeTile(c, level, i, j), px, py)
      ensures i == gx && j == gy
    {
      DivModUnique(px, ts, i, px - i * ts);
      DivModUnique(py, ts, j, py - j * ts);
    }
  }

}
