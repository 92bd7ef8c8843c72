/**
  Worked instances of the model: a 12000 x 5000 pyramid with 500-pixel
  tiles, viewed whole and then zoomed to a corner and back, and an
  1800 x 1200 image chopped with 1000-pixel tiles.
 */
module Examples {
  import opened TileNames
  import opened Tiles
  import opened MipManager
  import opened Chopper
  import opened Pyramid
  import Decimal

  const Wide := Config(6, 500, 12000, 5000)

  /**
    At level 2 the tiles are 2000 pixels square and the image is 5000 high:
    every tile of the third row, 1000 pixels high, is part of the pyramid ...
   */
  lemma PartialRowIsListed(gx: nat)
    requires gx < 6
    ensures MakeTile(Wide, 2, gx, 2).dy == 1000 && MakeTile(Wide, 2, gx, 2) in ListAllTiles(Wide)
  {
    assert TileSide(Wide, 2) == 2000;
    assert Columns(Wide, 2) == 6 by {
      assert Columns(Wide, 2) == (12000 + 2000 - 1) / 2000;
    }
    assert Rows(Wide, 2) == 3 by {
      assert Rows(Wide, 2) == (5000 + 2000 - 1) / 2000;
    }
  }

  /** ... but `tilesAt` never returns any of them, whatever the viewport ... */
  lemma PartialRowIsDropped(gx: nat, vp: Viewport)
    ensures TileName(2, gx, 2) !in TilesAt(Wide, 2, vp)
  {
    assert TileSide(Wide, 2) == 2000;
    assert !Unclipped(Wide, MakeTile(Wide, 2, gx, 2));
  }

  /** ... while every tile of the full row above it is returned for the whole image. */
  lemma FullRowIsReturned(gx: nat)
    requires gx < 6
    ensures TileName(2, gx, 1) in TilesAt(Wide, 2, Viewport(0, 0, 12000, 5000))
  {
    SecondRowTile(gx);
  }

  /** A tile of level 2's second row is full-sized and meets the whole image. */
  lemma SecondRowTile(gx: nat)
    requires gx < 6
    ensures Unclipped(Wide, MakeTile(Wide, 2, gx, 1)) && Meets(MakeTile(Wide, 2, gx, 1), Viewport(0, 0, 12000, 5000))
  {
    assert TileSide(Wide, 2) == 2000;
  }

  /** The longer side sets the pixel ratio; the other extent is scaled by it. */
  lemma WideNormalisation()
    ensures var m := Make(Wide);
            m.scale.maxDpr == 12000 && m.scale.maxDpi == 144000000 && m.scale.maxDx == 1.0 && m.scale.maxDy * 12.0 == 5.0
            && m.root.filename == "5/0_0.png" && m.root.dx == 12000 && m.root.dy == 5000
  {
    var m := Make(Wide);
    assert TileSide(Wide, 5) == 16000;
    assert Decimal.Show(5) == "5" && Decimal.Show(0) == "0";
  }

  /** The whole image, and its top-left 1000 x 1000 corner. */
  const Full := Viewport(0, 0, 12000, 5000)
  const Corner := Viewport(0, 0, 1000, 1000)

  /** A manager built by `Make(Wide)`, whatever it has loaded since. */
  predicate FromWide(m: Manager) {
    m == Make(Wide).(loaded := m.loaded)
  }

  /**
    Shown whole at 100 output pixels the density is 100^2, below every level's,
    so the coarsest level 5 is selected; its one 16000-pixel tile is clipped
    to the image, so only the root is needed.
   */
  lemma OverviewNeedsOnlyRoot(m: Manager)
    requires FromWide(m)
    ensures SelectedLevel(m, Full, 100) == 5
    ensures Needed(m, Full, 100).Keys == {"5/0_0.png"}
  {
    WideNormalisation();
    assert ViewDensity(12000, Full, 100) == Finite(10000.0);
    assert LevelDpi(144000000, 5) == 140625.0;
    assert TileSide(Wide, 5) == 16000;
    forall gx: nat, gy: nat
      ensures !Unclipped(Wide, MakeTile(Wide, 5, gx, gy))
    {
    }
  }

  /**
    Zoomed to the corner at 300 output pixels the density is 3600^2, between
    level 2's 3000^2 and level 1's 6000^2, so level 1 is selected: its tile
    1/0_0 covers the corner exactly and no other tile of level 1 meets it.
   */
  lemma CornerSelectsLevelOne(m: Manager)
    requires FromWide(m)
    ensures SelectedLevel(m, Corner, 300) == 1
  {
    WideNormalisation();
    assert ViewDensity(12000, Corner, 300) == Finite(12960000.0);
    assert LevelDpi(144000000, 1) == 36000000.0;
    assert LevelDpi(144000000, 2) == 9000000.0;
  }

  /** Level 1's first tile is full-sized and covers the corner exactly. */
  lemma CornerTile()
    ensures TileSide(Wide, 1) == 1000
    ensures Unclipped(Wide, MakeTile(Wide, 1, 0, 0)) && Meets(MakeTile(Wide, 1, 0, 0), Corner)
  {
    assert TileSide(Wide, 1) == 1000;
  }

  lemma CornerTileName()
    ensures TileName(1, 0, 0) == "1/0_0.png"
  {
    assert Decimal.Show(1) == "1" && Decimal.Show(0) == "0";
  }

  /** Besides the root, only tile 1/0_0 of level 1 is wanted for the corner. */
  lemma CornerNeedsOneTile(m: Manager)
    requires FromWide(m)
    ensures Needed(m, Corner, 300).Keys == {m.root.filename, TileName(1, 0, 0)}
  {
    CornerSelectsLevelOne(m);
    CornerTile();
    forall k | k in Needed(m, Corner, 300)
      ensures k == m.root.filename || k == TileName(1, 0, 0)
    {
      if k != m.root.filename {
        var gx: nat, gy: nat :| Meets(MakeTile(Wide, 1, gx, gy), Corner) && k == TileName(1, gx, gy);
        assert gx == 0 && gy == 0;
      }
    }
  }

  /** From any manager of `Wide`, the overview leaves exactly the root loaded. */
  lemma OverviewAdjust(m: Manager)
    requires FromWide(m)
    ensures var a := Adjust(m, Full, 100);
            FromWide(a.manager) && a.manager.loaded.Keys == {"5/0_0.png"}
            && a.load.Keys == {"5/0_0.png"} - m.loaded.Keys && a.unload.Keys == m.loaded.Keys - {"5/0_0.png"}
  {
    OverviewNeedsOnlyRoot(m);
  }

  /** From any manager of `Wide`, the corner view leaves the root and 1/0_0 loaded. */
  lemma CornerAdjust(m: Manager)
    requires FromWide(m)
    ensures var a := Adjust(m, Corner, 300);
            FromWide(a.manager) && a.manager.loaded.Keys == {"5/0_0.png", "1/0_0.png"}
            && a.load.Keys == {"5/0_0.png", "1/0_0.png"} - m.loaded.Keys
            && a.unload.Keys == m.loaded.Keys - {"5/0_0.png", "1/0_0.png"}
  {
    CornerNeedsOneTile(m);
    CornerTileName();
    WideNormalisation();
  }

  /** A session, step 1: the first overview loads the root and unloads nothing. */
  lemma SessionOpens()
    ensures var a := Adjust(Make(Wide), Full, 100);
            a.load.Keys == {"5/0_0.png"} && a.unload.Keys == {}
  {
    OverviewAdjust(Make(Wide));
  }

  /** Step 2: zooming to the corner with the root loaded loads 1/0_0 and unloads nothing. */
  lemma SessionZoomsIn(m: Manager)
    requires FromWide(m) && m.loaded.Keys == {"5/0_0.png"}
    ensures var a := Adjust(m, Corner, 300);
            a.load.Keys == {"1/0_0.png"} && a.unload.Keys == {}
  {
    CornerAdjust(m);
  }

  /** Step 3: zooming back out loads nothing and unloads 1/0_0, keeping the root. */
  lemma SessionZoomsOut(m: Manager)
    requires FromWide(m) && m.loaded.Keys == {"5/0_0.png", "1/0_0.png"}
    ensures var a := Adjust(m, Full, 100);
            a.load.Keys == {} && a.unload.Keys == {"1/0_0.png"}
  {
    OverviewAdjust(m);
  }

  /** An 1800 x 1200 image with 1000-pixel tiles needs two passes, so two levels are recorded. */
  lemma SmallImageLevels()
    ensures RootLevel(1800, 1200, 1000) == 1
    ensures BuiltConfig(1800, 1200, 1000) == Config(2, 1000, 1800, 1200)
  {
    assert LevelSize(1000, 0) == 1000;
    assert LevelSize(1000, 1) == 2000;
  }

  /** Pass 0 cuts 2 x 2 cells; the third, in start order, is the clipped top-right one, named `1_0.png`. */
  lemma SmallImageCells()
    ensures |Cells(1800, 1200, 1000)| == 4
    ensures Cells(1800, 1200, 1000)[2] == Cell(1000, 0, 800, 1000)
    ensures CellName(1000, Cells(1800, 1200, 1000)[2]) == "1_0.png"
  {
    var first := [CellAt(1800, 1200, 1000, 0, 0), CellAt(1800, 1200, 1000, 0, 1000)];
    var second := [CellAt(1800, 1200, 1000, 1000, 0), CellAt(1800, 1200, 1000, 1000, 1000)];
    assert ColumnCells(1800, 1200, 1000, 0, 0) == first;
    assert ColumnCells(1800, 1200, 1000, 1000, 0) == second;
    assert RowMajorCells(1800, 1200, 1000, 2000) == [];
    assert Cells(1800, 1200, 1000) == first + second;
    assert Decimal.Show(1) == "1" && Decimal.Show(0) == "0";
  }
}
