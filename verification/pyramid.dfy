/**
  How the builder's output meets the manager's addressing: the cells chopper
  writes at pass L are exactly the tiles mipper computes for level L, under
  the same file names, and the configuration the builder records makes the
  manager's root tile cover the whole image.
 */
module Pyramid {
  import opened Arith
  import opened TileNames
  import opened Tiles
  import opened Chopper

  /** The configuration a successful build of a `w` x `h` image records. */
  function BuiltConfig(w: int, h: int, maxTileSize: int): (c: Config)
    requires w > 0 && h > 0 && maxTileSize > 0
    ensures ValidConfig(c)
  {
    Config(RootLevel(w, h, maxTileSize) + 1, maxTileSize, w, h)
  }

  /**
    Chopper's cell (i, j) of pass L covers the same source rectangle as
    mipper's tile (L, i, j), and is written to that tile's file name.
   */
  lemma CellIsTile(c: Config, level: nat, i: nat, j: nat)
    requires ValidConfig(c)
    ensures var size := LevelSize(c.tileSize, level);
            var cell := CellAt(c.dx, c.dy, size, i * size, j * size);
            var t := MakeTile(c, level, i, j);
            cell.x == t.x && cell.y == t.y && cell.width == t.dx && cell.height == t.dy
            && PathJoin(LevelDir(level), CellName(size, cell)) == t.filename
  {
    var size := LevelSize(c.tileSize, level);
    assert size == TileSide(c, level);
    CellNameIsGridAddress(c.dx, c.dy, size, i, j);
  }

  /** Pass L cuts as many cells across and down as level L of the pyramid has columns and rows. */
  lemma PassMatchesLevel(c: Config, level: nat)
    requires ValidConfig(c)
    ensures Across(c.dx, LevelSize(c.tileSize, level)) == Columns(c, level)
    ensures Across(c.dy, LevelSize(c.tileSize, level)) == Rows(c, level)
  {
    assert LevelSize(c.tileSize, level) == TileSide(c, level);
  }

  /**
    The passes of a build, 0 up to the root level, cut the cell of tile
    (L, i, j) exactly when `ListAllTiles` of the recorded configuration lists
    that tile: the cells chopper cuts are the pyramid the manager enumerates.
   */
  lemma BuildCutsListedTiles(w: int, h: int, maxTileSize: int, level: nat, i: nat, j: nat)
    requires w > 0 && h > 0 && maxTileSize > 0
    ensures var c := BuiltConfig(w, h, maxTileSize);
            var size := LevelSize(maxTileSize, level);
            (level <= RootLevel(w, h, maxTileSize) && CellAt(w, h, size, i * size, j * size) in Cells(w, h, size))
            <==> MakeTile(c, level, i, j) in ListAllTiles(c)
  {
    var c := BuiltConfig(w, h, maxTileSize);
    var size := LevelSize(maxTileSize, level);
    CellMembership(w, h, size, i, j);
    PassMatchesLevel(c, level);
  }

  /**
    The recorded level count makes the manager's root, tile (Levels-1, 0, 0),
    the whole image: no pyramid level above it would add anything, and the
    level below it is still split.
   */
  lemma RootCoversImage(w: int, h: int, maxTileSize: int)
    requires w > 0 && h > 0 && maxTileSize > 0
    ensures var c := BuiltConfig(w, h, maxTileSize);
            var root := MakeTile(c, c.levels - 1, 0, 0);
            root.x == 0 && root.y == 0 && root.dx == w && root.dy == h
            && TileSide(c, c.levels - 1) >= w && TileSide(c, c.levels - 1) >= h
            && Columns(c, c.levels - 1) == 1 && Rows(c, c.levels - 1) == 1
            && (c.levels >= 2 ==> Columns(c, c.levels - 2) * Rows(c, c.levels - 2) > 1)
  {
    var c := BuiltConfig(w, h, maxTileSize);
    var r := RootLevel(w, h, maxTileSize);
    assert LevelSize(maxTileSize, r) == TileSide(c, r);
    SingleCell(w, h, TileSide(c, r));
    BelowCeil(w, TileSide(c, r), 0);
    BelowCeil(h, TileSide(c, r), 0);
    if r >= 1 {
      RootLevelExact(w, h, maxTileSize, r - 1);
      PassMatchesLevel(c, r - 1);
      BelowCeil(w, TileSide(c, r - 1), 0);
      BelowCeil(h, TileSide(c, r - 1), 0);
    }
  }
}
