/**
  The pyramid builder of chopper/main.go: `subImage` offset arithmetic, the
  cells `chop` cuts one level into and the names it gives them, the fold of
  the per-cell results into (tiles created, first error), and the level loop
  of `main` that doubles the source cell size until one cell covers the image.

  Decoding, resampling and PNG encoding are not modelled: each cell's file
  operation is an outcome supplied by the environment (`io`), directory
  creation likewise (`mkdir`), and the order in which the concurrent cell
  workers report is supplied by `schedule`.
 */
module Chopper {
  import opened Arith
  import opened Outcomes
  import opened TileNames
  import opened Tiles
  import Decimal

  // ---------------------------------------------------------------------------
  // subImage

  datatype Point = Point(x: int, y: int)

  /** `image.Rectangle`: Min inclusive, Max exclusive. */
  datatype Rectangle = Rectangle(min: Point, max: Point)

  /**
    An `image.RGBA` view: `start` is where its Pix slice begins in the byte
    array it shares with the image it was cut from.
   */
  datatype Rgba = Rgba(start: int, stride: int, rect: Rectangle)

  /** `PixOffset`: index in Pix of the first byte of pixel (x, y). */
  function PixOffset(im: Rgba, x: int, y: int): int {
    (y - im.rect.min.y) * im.stride + (x - im.rect.min.x) * 4
  }

  /** Index of the first byte of pixel (x, y) in the shared byte array. */
  function SharedOffset(im: Rgba, x: int, y: int): int {
    im.start + PixOffset(im, x, y)
  }

  /** `subImage`: reslices Pix at the corner's offset and moves the rectangle to the origin. */
  function SubImage(im: Rgba, bounds: Rectangle): Rgba {
    Rgba(im.start + bounds.min.y * im.stride + bounds.min.x * 4, im.stride,
         Rectangle(Point(0, 0), Point(bounds.max.x - bounds.min.x, bounds.max.y - bounds.min.y)))
  }

  /**
    For a parent whose rectangle starts at the origin, pixel (i, j) of the
    sub-image is pixel (Min.X + i, Min.Y + j) of the parent: the same bytes,
    at offset (Min.Y + j) * Stride + (Min.X + i) * 4 of the parent's Pix.
   */
  lemma SubImageAliases(im: Rgba, bounds: Rectangle, i: int, j: int)
    requires im.rect.min == Point(0, 0)
    ensures var sub := SubImage(im, bounds);
            sub.rect.min == Point(0, 0)
            && sub.rect.max == Point(bounds.max.x - bounds.min.x, bounds.max.y - bounds.min.y)
            && SharedOffset(sub, i, j) == SharedOffset(im, bounds.min.x + i, bounds.min.y + j)
            && PixOffset(im, bounds.min.x + i, bounds.min.y + j)
               == (bounds.min.y + j) * im.stride + (bounds.min.x + i) * 4
  {
    assert (bounds.min.y + j) * im.stride == bounds.min.y * im.stride + j * im.stride;
  }

  // ---------------------------------------------------------------------------
  // Cells of one level

  /** A source rectangle `chop` cuts out: origin, width and height in source pixels. */
  datatype Cell = Cell(x: nat, y: nat, width: int, height: int)

  /** The cell at (x, y): `size` square, shrunk where it would pass the right or bottom edge. */
  function CellAt(w: int, h: int, size: int, x: nat, y: nat): Cell {
    var width := if size + x > w then w - x else size;
    var height := if size + y > h then h - y else size;
    Cell(x, y, width, height)
  }

  /** The inner loop of `chop`: y = y, y + size, ... while y < h. */
  function ColumnCells(w: int, h: int, size: int, x: nat, y: nat): seq<Cell>
    requires size > 0
    decreases h - y
  {
    if y < h then [CellAt(w, h, size, x, y)] + ColumnCells(w, h, size, x, y + size) else []
  }

  /** The outer loop of `chop`: x = x, x + size, ... while x < w, in the order the workers are started. */
  function RowMajorCells(w: int, h: int, size: int, x: nat): seq<Cell>
    requires size > 0
    decreases w - x
  {
    if x < w then ColumnCells(w, h, size, x, 0) + RowMajorCells(w, h, size, x + size) else []
  }

  /** Every cell of a `w` x `h` image cut into `size` squares, in start order. */
  function Cells(w: int, h: int, size: int): seq<Cell>
    requires size > 0
  {
    RowMajorCells(w, h, size, 0)
  }

  /** The grid of the cells: one level of `size`-sided tiles over the image. */
  function GridConfig(w: int, h: int, size: int): Config {
    Config(1, size, w, h)
  }

  /** The cell at grid address a. */
  function GridCell(w: int, h: int, size: int, a: Address): Cell
    requires size > 0
  {
    MulLe(0, a.gx, size);
    MulLe(0, a.gy, size);
    CellAt(w, h, size, a.gx * size, a.gy * size)
  }

  function CellsOf(w: int, h: int, size: int, a: seq<Address>): (r: seq<Cell>)
    requires size > 0
    ensures |r| == |a| && forall k :: 0 <= k < |a| ==> r[k] == GridCell(w, h, size, a[k])
  {
    if |a| == 0 then [] else [GridCell(w, h, size, a[0])] + CellsOf(w, h, size, a[1..])
  }

  lemma CellsOfAppend(w: int, h: int, size: int, a: seq<Address>, b: seq<Address>)
    requires size > 0
    ensures CellsOf(w, h, size, a + b) == CellsOf(w, h, size, a) + CellsOf(w, h, size, b)
  {
    var l, r := CellsOf(w, h, size, a + b), CellsOf(w, h, size, a) + CellsOf(w, h, size, b);
    assert |l| == |r|;
    forall k | 0 <= k < |l|
      ensures l[k] == r[k]
    {
      if k < |a| {
        assert (a + b)[k] == a[k];
      } else {
        assert (a + b)[k] == b[k - |a|];
      }
    }
  }

  /** The inner loop visits the addresses (gx, gy), (gx, gy + 1), ... of the grid. */
  lemma {:induction false} ColumnCellsFollowGrid(w: int, h: int, size: int, gx: nat, gy: nat)
    requires w > 0 && h > 0 && size > 0
    ensures ColumnCells(w, h, size, gx * size, gy * size)
            == CellsOf(w, h, size, ColumnAddresses(GridConfig(w, h, size), 0, gx, gy))
    decreases h - gy * size
  {
    var c := GridConfig(w, h, size);
    assert TileSide(c, 0) == size;
    if gy * size < h {
      assert (gy + 1) * size == gy * size + size;
      ColumnCellsFollowGrid(w, h, size, gx, gy + 1);
      CellsOfAppend(w, h, size, [Address(0, gx, gy)], ColumnAddresses(c, 0, gx, gy + 1));
    }
  }

  /** The outer loop visits the grid's columns gx, gx + 1, ... in order. */
  lemma {:induction false} RowMajorCellsFollowGrid(w: int, h: int, size: int, gx: nat)
    requires w > 0 && h > 0 && size > 0
    ensures RowMajorCells(w, h, size, gx * size)
            == CellsOf(w, h, size, LevelAddresses(GridConfig(w, h, size), 0, gx))
    decreases w - gx * size
  {
    var c := GridConfig(w, h, size);
    assert TileSide(c, 0) == size;
    if gx * size < w {
      assert (gx + 1) * size == gx * size + size;
      RowMajorCellsFollowGrid(w, h, size, gx + 1);
      ColumnCellsFollowGrid(w, h, size, gx, 0);
      CellsOfAppend(w, h, size, ColumnAddresses(c, 0, gx, 0), LevelAddresses(c, 0, gx + 1));
    }
  }

  /** Number of cells across (and, for `h`, down): the strides of `size` that start inside the image. */
  function Across(extent: int, size: int): int
    requires size > 0
  {
    CeilDiv(extent, size)
  }

  /** The output name of a cell: its origin divided by the stride. */
  function CellName(size: int, cell: Cell): string
    requires size > 0
  {
    CellFileName(cell.x / size, cell.y / size)
  }

  /** `chop` starts one worker per address of the level grid, column by column. */
  lemma CellsFollowGrid(w: int, h: int, size: int)
    requires w > 0 && h > 0 && size > 0
    ensures Cells(w, h, size) == CellsOf(w, h, size, LevelAddresses(GridConfig(w, h, size), 0, 0))
    ensures |Cells(w, h, size)| == Across(w, size) * Across(h, size)
  {
    var c := GridConfig(w, h, size);
    assert TileSide(c, 0) == size;
    BelowCeil(w, size, 0);
    RowMajorCellsFollowGrid(w, h, size, 0);
  }

  /**
    Every cell `chop` cuts sits on the grid inside the image, is non-empty,
    and is `size` wide (high) unless it reaches the right (bottom) edge,
    where it is clipped.
   */
  lemma CellGeometry(w: int, h: int, size: int)
    requires w > 0 && h > 0 && size > 0
    ensures var cells := Cells(w, h, size);
            forall k :: 0 <= k < |cells| ==>
              var cell := cells[k];
              0 <= cell.x < w && 0 <= cell.y < h && cell.x % size == 0 && cell.y % size == 0
              && 0 < cell.width <= size && cell.x + cell.width <= w
              && (cell.width == size || cell.x + cell.width == w)
              && 0 < cell.height <= size && cell.y + cell.height <= h
              && (cell.height == size || cell.y + cell.height == h)
  {
    var c := GridConfig(w, h, size);
    assert TileSide(c, 0) == size;
    var a := LevelAddresses(c, 0, 0);
    CellsFollowGrid(w, h, size);
    var cells := Cells(w, h, size);
    forall k | 0 <= k < |cells|
      ensures var cell := cells[k];
              0 <= cell.x < w && 0 <= cell.y < h && cell.x % size == 0 && cell.y % size == 0
              && 0 < cell.width <= size && cell.x + cell.width <= w
              && (cell.width == size || cell.x + cell.width == w)
              && 0 < cell.height <= size && cell.y + cell.height <= h
              && (cell.height == size || cell.y + cell.height == h)
    {
      CellOfAddress(w, h, size, a[k]);
    }
  }

  /** `chop` cuts the cell at (i * size, j * size) exactly when i < Across(w) and j < Across(h). */
  lemma CellMembership(w: int, h: int, size: int, i: nat, j: nat)
    requires w > 0 && h > 0 && size > 0
    ensures CellAt(w, h, size, i * size, j * size) in Cells(w, h, size)
            <==> i < Across(w, size) && j < Across(h, size)
  {
    var a := LevelAddresses(GridConfig(w, h, size), 0, 0);
    CellsFollowGrid(w, h, size);
    var cell := CellAt(w, h, size, i * size, j * size);
    if cell in Cells(w, h, size) {
      CellOnGrid(w, h, size, a, i, j);
    }
    if i < Across(w, size) && j < Across(h, size) {
      GridHasCell(w, h, size, a, i, j);
    }
  }

  lemma CellOnGrid(w: int, h: int, size: int, a: seq<Address>, i: nat, j: nat)
    requires w > 0 && h > 0 && size > 0
    requires a == LevelAddresses(GridConfig(w, h, size), 0, 0)
    requires CellAt(w, h, size, i * size, j * size) in CellsOf(w, h, size, a)
    ensures i < Across(w, size) && j < Across(h, size)
  {
    var c := GridConfig(w, h, size);
    assert TileSide(c, 0) == size;
    var cells := CellsOf(w, h, size, a);
    var k :| 0 <= k < |cells| && cells[k] == CellAt(w, h, size, i * size, j * size);
    assert a[k].gx * size == i * size && a[k].gy * size == j * size;
    MulDivCancel(i, size);
    MulDivCancel(j, size);
    MulDivCancel(a[k].gx, size);
    MulDivCancel(a[k].gy, size);
    assert a[k].gx == i && a[k].gy == j;
    assert a[k].gx < Columns(c, 0) && a[k].gy < Rows(c, 0);
  }

  lemma GridHasCell(w: int, h: int, size: int, a: seq<Address>, i: nat, j: nat)
    requires w > 0 && h > 0 && size > 0
    requires a == LevelAddresses(GridConfig(w, h, size), 0, 0)
    requires i < Across(w, size) && j < Across(h, size)
    ensures CellAt(w, h, size, i * size, j * size) in CellsOf(w, h, size, a)
  {
    var c := GridConfig(w, h, size);
    assert TileSide(c, 0) == size;
    assert i < Columns(c, 0) && j < Rows(c, 0);
    assert Address(0, i, j) in a;
    var k :| 0 <= k < |a| && a[k] == Address(0, i, j);
    assert CellsOf(w, h, size, a)[k] == CellAt(w, h, size, i * size, j * size);
  }

  /** The cell at (i * size, j * size) is named `i_j.png`, after its grid address. */
  lemma CellNameIsGridAddress(w: int, h: int, size: int, i: nat, j: nat)
    requires size > 0
    ensures CellName(size, CellAt(w, h, size, i * size, j * size)) == CellFileName(i, j)
  {
    MulDivCancel(i, size);
    MulDivCancel(j, size);
  }

  /** Each cell is named by its grid address, so no two cells of a level share a file name. */
  lemma CellNamesDistinct(w: int, h: int, size: int)
    requires w > 0 && h > 0 && size > 0
    ensures var cells := Cells(w, h, size);
            forall k1, k2 :: 0 <= k1 < k2 < |cells| ==> CellName(size, cells[k1]) != CellName(size, cells[k2])
  {
    var c := GridConfig(w, h, size);
    assert TileSide(c, 0) == size;
    var a := LevelAddresses(c, 0, 0);
    CellsFollowGrid(w, h, size);
    var cells := Cells(w, h, size);
    forall k | 0 <= k < |cells|
      ensures cells[k].x / size == a[k].gx && cells[k].y / size == a[k].gy
    {
      CellOfAddress(w, h, size, a[k]);
    }
    forall k1, k2 | 0 <= k1 < k2 < |cells|
      ensures CellName(size, cells[k1]) != CellName(size, cells[k2])
    {
      if CellName(size, cells[k1]) == CellName(size, cells[k2]) {
        CellFileNameInjective(a[k1].gx, a[k1].gy, a[k2].gx, a[k2].gy);
      }
    }
  }

  /** The geometry of the cell at a grid address inside the image. */
  lemma CellOfAddress(w: int, h: int, size: int, a: Address)
    requires w > 0 && h > 0 && size > 0
    requires a.gx < Across(w, size) && a.gy < Across(h, size)
    ensures var cell := GridCell(w, h, size, a);
            0 <= cell.x < w && 0 <= cell.y < h && cell.x % size == 0 && cell.y % size == 0
            && 0 < cell.width <= size && cell.x + cell.width <= w
            && (cell.width == size || cell.x + cell.width == w)
            && 0 < cell.height <= size && cell.y + cell.height <= h
            && (cell.height == size || cell.y + cell.height == h)
            && cell.x / size == a.gx && cell.y / size == a.gy
  {
    BelowCeil(w, size, a.gx);
    BelowCeil(h, size, a.gy);
    DivModUnique(a.gx * size, size, a.gx, 0);
    DivModUnique(a.gy * size, size, a.gy, 0);
  }

  /** A `size` x `size` grid has a single cell exactly when `size` covers both sides. */
  lemma SingleCell(w: int, h: int, size: int)
    requires w > 0 && h > 0 && size > 0
    ensures Across(w, size) * Across(h, size) == 1 <==> size >= w && size >= h
  {
    BelowCeil(w, size, 0);
    BelowCeil(h, size, 0);
    BelowCeil(w, size, 1);
    BelowCeil(h, size, 1);
    var p, q := Across(w, size), Across(h, size);
    if p > 1 {
      MulLt(1, p, q);
    } else if q > 1 {
      MulLt(1, q, p);
    }
  }

  // ---------------------------------------------------------------------------
  // Per-cell outcomes and the fold of chop

  /** What the environment does with one cell's file. */
  datatype CellIo = Written | CreateFailed(cause: string) | EncodeFailed(cause: string)

  /** The two errors a cell worker can report, each carrying the cell's file name. */
  datatype ChopError = CreateError(name: string, cause: string) | WriteError(name: string, cause: string)

  /** One worker's report: None for a written tile (`errs <- nil`). */
  function CellOutcome(dir: string, size: int, cell: Cell, io: string -> CellIo): (r: Option<ChopError>)
    requires size > 0
    ensures r.None? <==> io(PathJoin(dir, CellName(size, cell))).Written?
    ensures r.Some? ==> r.value.name == CellName(size, cell)
  {
    var name := CellName(size, cell);
    match io(PathJoin(dir, name))
    case Written => None
    case CreateFailed(cause) => Some(CreateError(name, cause))
    case EncodeFailed(cause) => Some(WriteError(name, cause))
  }

  /** The reports of all workers of one `chop` call, in the order they were started. */
  function Reports(dir: string, w: int, h: int, size: int, io: string -> CellIo): (r: seq<Option<ChopError>>)
    requires w > 0 && h > 0 && size > 0
    ensures |r| == |Cells(w, h, size)| == Across(w, size) * Across(h, size)
    ensures forall k :: 0 <= k < |r| ==> r[k] == CellOutcome(dir, size, Cells(w, h, size)[k], io)
  {
    var cells := Cells(w, h, size);
    CellsFollowGrid(w, h, size);
    seq(|cells|, k requires 0 <= k < |cells| => CellOutcome(dir, size, cells[k], io))
  }

  /** Every report in `s` is a success. */
  predicate AllWritten(s: seq<Option<ChopError>>) {
    forall k :: 0 <= k < |s| ==> s[k].None?
  }

  /** Every report before position n is a success. */
  predicate WrittenBefore(s: seq<Option<ChopError>>, n: int) {
    forall k :: 0 <= k < n && k < |s| ==> s[k].None?
  }

  /** `e` is the first failure in `s`: every report before it succeeded. */
  predicate FirstFailure(s: seq<Option<ChopError>>, e: ChopError) {
    exists k :: 0 <= k < |s| && s[k] == Some(e) && WrittenBefore(s, k)
  }

  /**
    The receiving loop of `chop`: counts the successes and keeps the first
    error received.
   */
  method Collect(arrivals: seq<Option<ChopError>>) returns (created: nat, firstErr: Option<ChopError>)
    ensures created == multiset(arrivals)[None]
    ensures firstErr.None? <==> AllWritten(arrivals)
    ensures firstErr.Some? ==> FirstFailure(arrivals, firstErr.value)
  {
    created := 0;
    firstErr := None;
    ghost var at := 0;
    var i := 0;
    while i < |arrivals|
      invariant 0 <= i <= |arrivals|
      invariant created == multiset(arrivals[..i])[None]
      invariant firstErr.None? ==> WrittenBefore(arrivals, i)
      invariant firstErr.Some? ==> 0 <= at < i && arrivals[at] == firstErr && WrittenBefore(arrivals, at)
    {
      var err := arrivals[i];
      assert arrivals[..i + 1] == arrivals[..i] + [err];
      if err.Some? {
        if firstErr.None? {
          firstErr := err;
          at := i;
        }
      } else {
        created := created + 1;
      }
      i := i + 1;
    }
    assert arrivals[..i] == arrivals;
  }

  /** `s` has exactly as many successes as reports when every report succeeded, and never more. */
  lemma {:induction false} CountWritten(s: seq<Option<ChopError>>)
    ensures multiset(s)[None] <= |s|
    ensures multiset(s)[None] == |s| <==> AllWritten(s)
  {
    if |s| > 0 {
      var t := s[..|s| - 1];
      assert s == t + [s[|s| - 1]];
      CountWritten(t);
      assert AllWritten(s) <==> AllWritten(t) && s[|s| - 1].None?;
    }
  }

  /**
    `chop` for one level: `arrivals` is the order in which the workers'
    reports reach the receiving loop, any order of the started workers. The
    count is the number of written cells whatever the order; the error is
    absent exactly when every cell was written, and otherwise it is the
    report of a cell that failed.
   */
  method Chop(w: int, h: int, size: int, dir: string, io: string -> CellIo, arrivals: seq<Option<ChopError>>)
    returns (created: nat, firstErr: Option<ChopError>)
    requires w > 0 && h > 0 && size > 0
    requires multiset(arrivals) == multiset(Reports(dir, w, h, size, io))
    ensures created == multiset(Reports(dir, w, h, size, io))[None]
    ensures created <= Across(w, size) * Across(h, size)
    ensures firstErr.None? <==> AllWritten(Reports(dir, w, h, size, io))
    ensures firstErr.None? <==> created == Across(w, size) * Across(h, size)
    ensures firstErr.Some? ==> Some(firstErr.value) in Reports(dir, w, h, size, io)
    ensures firstErr.Some? ==> FirstFailure(arrivals, firstErr.value)
  {
    var reports := Reports(dir, w, h, size, io);
    created, firstErr := Collect(arrivals);
    assert |arrivals| == |multiset(arrivals)| == |multiset(reports)| == |reports|;
    CountWritten(arrivals);
    CountWritten(reports);
    if firstErr.Some? {
      var k :| 0 <= k < |arrivals| && arrivals[k] == firstErr && WrittenBefore(arrivals, k);
      assert arrivals[k] in multiset(arrivals);
    }
  }

  // ---------------------------------------------------------------------------
  // The level loop of main

  /** The directory of level `level`, relative to the output directory. */
  function LevelDir(level: nat): string {
    Decimal.Show(level)
  }

  /** The source cell side of pass `level`: the maximum tile side doubled `level` times. */
  function LevelSize(maxTileSize: int, level: nat): (size: int)
    requires maxTileSize > 0
    ensures size >= maxTileSize
  {
    MulLe(1, Pow2(level), maxTileSize);
    maxTileSize * Pow2(level)
  }

  /**
    The last pass: the least level whose cell side covers the longer image
    side, searched from `level` upwards.
   */
  function RootLevelFrom(longer: int, maxTileSize: int, level: nat): (r: nat)
    requires maxTileSize > 0
    decreases longer - LevelSize(maxTileSize, level)
    ensures level <= r && LevelSize(maxTileSize, r) >= longer
    ensures forall l: nat :: level <= l < r ==> LevelSize(maxTileSize, l) < longer
  {
    if LevelSize(maxTileSize, level) >= longer then level
    else
      assert LevelSize(maxTileSize, level + 1) == 2 * LevelSize(maxTileSize, level);
      RootLevelFrom(longer, maxTileSize, level + 1)
  }

  /** The level of the single-cell pass that ends the loop. */
  function RootLevel(w: int, h: int, maxTileSize: int): nat
    requires maxTileSize > 0
  {
    RootLevelFrom(if w > h then w else h, maxTileSize, 0)
  }

  /** A pass at `level` yields a single cell exactly from the root level on. */
  lemma RootLevelExact(w: int, h: int, maxTileSize: int, level: nat)
    requires w > 0 && h > 0 && maxTileSize > 0
    ensures var size := LevelSize(maxTileSize, level);
            Across(w, size) * Across(h, size) == 1 <==> level >= RootLevel(w, h, maxTileSize)
  {
    var r := RootLevel(w, h, maxTileSize);
    SingleCell(w, h, LevelSize(maxTileSize, level));
    if level >= r {
      Pow2Monotone(r, level);
      MulLe(Pow2(r), Pow2(level), maxTileSize);
    }
  }

  /** The errors that stop the builder. */
  datatype BuildError = MkdirFailed(dir: string, cause: string) | ChopFailed(err: ChopError)

  /** The reports of pass `level`, in start order. */
  function LevelReports(w: int, h: int, maxTileSize: int, io: string -> CellIo, level: nat): seq<Option<ChopError>>
    requires w > 0 && h > 0 && maxTileSize > 0
  {
    Reports(LevelDir(level), w, h, LevelSize(maxTileSize, level), io)
  }

  /** Pass `level` creates its directory and writes every one of its cells. */
  predicate LevelBuilt(w: int, h: int, maxTileSize: int, mkdir: string -> Option<string>, io: string -> CellIo, level: nat)
    requires w > 0 && h > 0 && maxTileSize > 0
  {
    mkdir(LevelDir(level)).None? && AllWritten(LevelReports(w, h, maxTileSize, io, level))
  }

  /**
    Pass `level` stops the builder with error `e`: the directory error, or
    else the first failing report to arrive in the order `schedule` gives.
   */
  predicate LevelFails(w: int, h: int, maxTileSize: int, mkdir: string -> Option<string>, io: string -> CellIo,
                       schedule: (nat, seq<Option<ChopError>>) -> seq<Option<ChopError>>, level: nat, e: BuildError)
    requires w > 0 && h > 0 && maxTileSize > 0
  {
    match mkdir(LevelDir(level))
    case Some(cause) => e == MkdirFailed(LevelDir(level), cause)
    case None =>
      && e.ChopFailed?
      && Some(e.err) in LevelReports(w, h, maxTileSize, io, level)
      && FirstFailure(schedule(level, LevelReports(w, h, maxTileSize, io, level)), e.err)
  }

  /**
    One pass of the loop of `main`: create directory `level`, then chop the
    image into cells of side maxTileSize * 2^level, the workers reporting in
    the order `schedule` gives. On success it yields the number of tiles made.
   */
  method Pass(w: int, h: int, maxTileSize: int, mkdir: string -> Option<string>, io: string -> CellIo,
              schedule: (nat, seq<Option<ChopError>>) -> seq<Option<ChopError>>, level: nat, size: int)
    returns (r: Result<nat, BuildError>)
    requires w > 0 && h > 0 && maxTileSize > 0 && size == LevelSize(maxTileSize, level)
    requires forall level, s :: multiset(schedule(level, s)) == multiset(s)
    ensures r.Success? <==> LevelBuilt(w, h, maxTileSize, mkdir, io, level)
    ensures r.Success? ==> r.value == Across(w, LevelSize(maxTileSize, level)) * Across(h, LevelSize(maxTileSize, level))
    ensures r.Failure? ==> LevelFails(w, h, maxTileSize, mkdir, io, schedule, level, r.error)
  {
    var dir := LevelDir(level);
    var made := mkdir(dir);
    if made.Some? {
      return Failure(MkdirFailed(dir, made.value));
    }
    var reports := Reports(dir, w, h, size, io);
    var tiles, err := Chop(w, h, size, dir, io, schedule(level, reports));
    if err.Some? {
      return Failure(ChopFailed(err.value));
    }
    return Success(tiles);
  }

  /**
    The loop of `main`: pass `level` chops the image into cells of side
    maxTileSize * 2^level into directory `level` and resamples them by
    2^-level; the loop ends after the first pass that yields a single tile,
    and the configuration records the number of passes. A failed directory
    creation or chop ends the run with its error.

    `schedule(level, reports)` is the order in which the workers of pass
    `level` report: any permutation of their reports.
   */
  method Build(w: int, h: int, maxTileSize: int, mkdir: string -> Option<string>, io: string -> CellIo,
               schedule: (nat, seq<Option<ChopError>>) -> seq<Option<ChopError>>)
    returns (r: Result<Config, BuildError>)
    requires w > 0 && h > 0 && maxTileSize > 0
    requires forall level, s :: multiset(schedule(level, s)) == multiset(s)
    ensures r.Success? <==>
              forall level: nat :: level <= RootLevel(w, h, maxTileSize) ==> LevelBuilt(w, h, maxTileSize, mkdir, io, level)
    ensures r.Success? ==> r.value == Config(RootLevel(w, h, maxTileSize) + 1, maxTileSize, w, h)
    ensures r.Failure? ==> exists level: nat ::
              (level <= RootLevel(w, h, maxTileSize)
               && LevelFails(w, h, maxTileSize, mkdir, io, schedule, level, r.error)
               && forall l: nat :: l < level ==> LevelBuilt(w, h, maxTileSize, mkdir, io, l))
  {
    var root := RootLevel(w, h, maxTileSize);
    var level: nat := 0;
    var scale := 1.0;
    var size := maxTileSize;
    while true
      invariant level <= root
      invariant size == LevelSize(maxTileSize, level)
      invariant scale * (Pow2(level) as real) == 1.0
      invariant forall l: nat :: l < level ==> LevelBuilt(w, h, maxTileSize, mkdir, io, l)
      decreases root - level
    {
      var pass := Pass(w, h, maxTileSize, mkdir, io, schedule, level, size);
      if pass.Failure? {
        StopsAt(w, h, maxTileSize, mkdir, io, schedule, level, pass.error);
        return Failure(pass.error);
      }
      RootLevelExact(w, h, maxTileSize, level);
      NextPass(maxTileSize, level, scale);
      level := level + 1;
      scale := scale / 2.0;
      size := size * 2;
      if pass.value == 1 {
        break;
      }
    }
    r := Success(Config(level, maxTileSize, w, h));
  }

  /** A run that fails at pass `level`, after building every earlier pass, did not build every pass. */
  lemma StopsAt(w: int, h: int, maxTileSize: int, mkdir: string -> Option<string>, io: string -> CellIo,
                schedule: (nat, seq<Option<ChopError>>) -> seq<Option<ChopError>>, level: nat, e: BuildError)
    requires w > 0 && h > 0 && maxTileSize > 0 && level <= RootLevel(w, h, maxTileSize)
    requires !LevelBuilt(w, h, maxTileSize, mkdir, io, level) && LevelFails(w, h, maxTileSize, mkdir, io, schedule, level, e)
    requires forall l: nat :: l < level ==> LevelBuilt(w, h, maxTileSize, mkdir, io, l)
    ensures !forall l: nat :: l <= RootLevel(w, h, maxTileSize) ==> LevelBuilt(w, h, maxTileSize, mkdir, io, l)
    ensures exists l: nat ::
              (l <= RootLevel(w, h, maxTileSize)
               && LevelFails(w, h, maxTileSize, mkdir, io, schedule, l, e)
               && forall k: nat :: k < l ==> LevelBuilt(w, h, maxTileSize, mkdir, io, k))
  {
  }

  /** One pass to the next: the cell side doubles and the scale halves. */
  lemma NextPass(maxTileSize: int, level: nat, scale: real)
    requires maxTileSize > 0 && scale * (Pow2(level) as real) == 1.0
    ensures LevelSize(maxTileSize, level + 1) == 2 * LevelSize(maxTileSize, level)
    ensures (scale / 2.0) * (Pow2(level + 1) as real) == 1.0
  {
    var p := Pow2(level);
    assert Pow2(level + 1) == 2 * p;
    assert maxTileSize * (2 * p) == 2 * (maxTileSize * p);
    assert (scale / 2.0) * ((2 * p) as real) == scale * (p as real);
  }

  /**
    `uint(float64(side) * scale)`: the side of a resampled tile, the product
    truncated toward zero.
   */
  function ResampledSide(side: int, scale: real): int {
    var p := (side as real) * scale;
    if p >= 0.0 then p.Floor else -((-p).Floor)
  }

  /**
    At pass `level` the scale is 2^-level, so a full cell, of side
    maxTileSize * 2^level, is resampled to exactly maxTileSize pixels, and a
    clipped one to no more.
   */
  lemma FullCellsResampleToTileSize(maxTileSize: int, level: nat, scale: real, side: int)
    requires maxTileSize > 0 && scale * (Pow2(level) as real) == 1.0
    requires 0 <= side <= LevelSize(maxTileSize, level)
    ensures ResampledSide(LevelSize(maxTileSize, level), scale) == maxTileSize
    ensures 0 <= ResampledSide(side, scale) <= maxTileSize
  {
    assert LevelSize(maxTileSize, level) == maxTileSize * Pow2(level);
    ResampleByInverse(maxTileSize, Pow2(level), scale, side);
  }

  lemma ResampleByInverse(t: int, p: nat, scale: real, side: int)
    requires t > 0 && scale * (p as real) == 1.0 && 0 <= side <= t * p
    ensures ResampledSide(t * p, scale) == t
    ensures 0 <= ResampledSide(side, scale) <= t
  {
    ScaleUndoesDoubling(t, p, scale);
    var exact := ((t * p) as real) * scale;
    ScaleMonotone(side as real, (t * p) as real, scale);
    TruncateBetween((side as real) * scale, t);
    TruncateBetween(exact, t);
  }

  lemma ScaleUndoesDoubling(t: int, p: nat, scale: real)
    requires scale * (p as real) == 1.0
    ensures ((t * p) as real) * scale == t as real
    ensures scale > 0.0
  {
    assert ((t * p) as real) == (t as real) * (p as real);
    assert (t as real) * (p as real) * scale == (t as real) * (scale * (p as real));
  }

  lemma TruncateBetween(p: real, n: int)
    requires 0.0 <= p <= n as real
    ensures 0 <= p.Floor <= n
    ensures p == n as real ==> p.Floor == n
  {
  }

  lemma ScaleMonotone(a: real, b: real, scale: real)
    requires 0.0 <= a <= b && scale > 0.0
    ensures 0.0 <= a * scale <= b * scale
  {
  }

}
