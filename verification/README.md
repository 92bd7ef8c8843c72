# mipper, modelled in Dafny

mipper cuts a large image into a pyramid of square tiles and then tells a viewer
which tiles to load. This project models both halves:

- the **tile addressor and working-set tracker** of `mipper/mipper.go`. `Make` derives
  the scale constants. `makeTile` maps a grid address to bounds and a file name.
  `tilesAt` lists the tiles under a viewport. `Adjust` picks a level, pins the root
  tile and diffs the needed set against the loaded one. `ListAllTiles` lists the
  whole pyramid;
- the **pyramid builder** of `chopper/main.go`. This covers the `subImage` offset
  arithmetic and the cells `chop` cuts a level into, with their names. It also covers
  the fold of the per-cell results into `(tilesCreated, firstErr)` and the level loop
  of `main`, which doubles the cell size until one cell covers the image.

Modules, one per concern:

| file | module | content |
|---|---|---|
| `outcomes.dfy` | `Outcomes` | `Option`, `Result` |
| `arith.dfy` | `Arith` | powers of two, Go's truncating division, floor/ceiling facts |
| `decimal.dfy` | `Decimal` | `%d` formatting of naturals and its inverse |
| `tilenames.dfy` | `TileNames` | the key `level/gx_gy.png`, its parser, injectivity |
| `tiles.dfy` | `Tiles` | `Config`, `makeTile`, `tilesAt`, `ListAllTiles` |
| `manager.dfy` | `MipManager` | `Make`, level selection, `Adjust` |
| `chopper.dfy` | `Chopper` | `subImage`, `chop`, the level loop of `main` |
| `pyramid.dfy` | `Pyramid` | builder output versus manager addressing |
| `examples.dfy` | `Examples` | worked instances (the 12000 x 5000 demo configuration) |

Modelling choices:

- **Units.** Tile bounds and viewports are integer source pixels. The source keeps them
  divided by `maxDpr`, the longer image side, and every comparison it makes on them is
  the same comparison scaled by that positive constant. So `tilesAt`'s `+ tileSize - 1`
  trick is an exact ceiling, and `int(...)` is Go's truncation toward zero (`Arith.TruncDiv`).
- **Density.** The test in `Adjust` is done over `real`. A viewport of width 0 makes
  Go's density `+Inf` or `NaN`. Both fail every `<` test, so the loop selects level 0.
  This is `Density.Unbounded`.
- **Keys.** Keys are the actual strings. Distinct addresses give distinct keys, which
  is proved through a parser that inverts the key.
- **Quirk kept: partial tiles.** The clamp `x1 = Dx / tileSize` is a floor, so
  `tilesAt` never returns a clipped edge tile, even for a viewport covering the whole
  image. The model keeps this behaviour and proves it (`Tiles.RangeExact`,
  `Examples.PartialRowIsDropped`).
- **Quirk kept: the level clamp.** The clamp after the density loop can fire only for
  a negative level count (`MipManager.LevelClampIsDead`).
- **Concurrency.** `chop`'s goroutines report in an order the scheduler picks. The
  fold is modelled over any permutation of the per-cell results in issue order.
  `Chopper.Build` takes that choice as a `schedule` parameter.
- **Environment.** File creation, encoding and `MkdirAll` are supplied outcomes
  (`io`, `mkdir`). `log.Fatalf` becomes a `Failure` result.

## Model

| member | source | states |
|---|---|---|
| `Arith.TruncDiv` | mipper/mipper.go:100-101 | Go's `int(a / b)` truncates toward zero: for a >= 0 the quotient brackets a from below, for a < 0 from above |
| `Decimal.ReadShow` | mipper/mipper.go:94 | reading back the `%d` text of n gives n, so the decimal text of a level or index determines it |
| `TileNames.ParseTileNameRoundTrip` | mipper/mipper.go:94 | the key `level/gx_gy.png` parses back to exactly (level, gx, gy) |
| `TileNames.TileNameInjective` | mipper/mipper.go:94 | two addresses with the same key are the same address |
| `TileNames.CellFileNameInjective` | chopper/main.go:51 | two grid indices with the same `gx_gy.png` name are the same index |
| `Tiles.MakeTile` | mipper/mipper.go:80-96 | origin is (gx, gy) times the level's tile side TileSize * 2^level; extent is at most that side, never passes the image edge, and is shortened only when it would; the key is the address's name |
| `Tiles.AxisExact` | mipper/mipper.go:100-107 | on one axis, index g is in [x0, x1) exactly when stride g lies wholly inside the image and overlaps the viewport's span |
| `Tiles.RangeExact` | mipper/mipper.go:98-115 | grid cell (gx, gy) is in the computed range exactly when its tile is unclipped and meets the viewport |
| `Tiles.ColumnTiles` | mipper/mipper.go:118-121 | the inner loop stores, under its key, the tile of every row in [y0, y1) and nothing else |
| `Tiles.GridTiles` | mipper/mipper.go:116-122 | the double loop stores, under its key, the tile of every cell of [x0, x1) x [y0, y1) and nothing else |
| `Tiles.TilesAt` | mipper/mipper.go:98-124 | a key is returned exactly when its tile is unclipped and meets the viewport, and it maps to that tile |
| `Tiles.ColumnAddresses` | mipper/mipper.go:160-162 | the y loop visits rows gy, gy+1, ... up to the last row whose origin lies inside the image, in order |
| `Tiles.LevelAddresses` | mipper/mipper.go:159-163 | one level yields each address of its ceil(Dx/ts) x ceil(Dy/ts) grid exactly once |
| `Tiles.LevelAddressesColumnMajor` | mipper/mipper.go:159-162 | the x loop is outside the y loop: position k of the list from column gx holds row k mod Rows of column gx + k / Rows |
| `Tiles.LevelsFrom` | mipper/mipper.go:157-164 | the levels from the given one down to 0 yield every grid address once, levels never increasing, column by column and top to bottom within each level |
| `Tiles.ListAllTiles` | mipper/mipper.go:155-166 | the list has one tile per grid cell of every level, coarsest level first and, within a level, ordered by x and then by y; a tile is listed exactly when its address is on its level's grid; keys are distinct and every entry is the tile its key names |
| `Tiles.ListedTilesNonEmpty` | mipper/mipper.go:158-161 | every listed tile has positive width and height |
| `Tiles.LevelPartition` | mipper/mipper.go:158-163 | every image pixel lies in exactly one listed tile of each level: the one at (px / ts, py / ts) |
| `MipManager.Normalise` | mipper/mipper.go:65-75 | maxDpr is the longer side, maxDpi its square, and the normalised extents are the sides divided by maxDpr: both in (0, 1], one of them 1 |
| `MipManager.Make` | mipper/mipper.go:55-78 | a fresh manager is consistent, keeps the configuration, has nothing loaded, and pins the top level's tile at the origin as its root |
| `MipManager.DensityLoop` | mipper/mipper.go:129-134 | the loop stops at the first level whose next coarser level is too coarse for the requested density, or at the top level |
| `MipManager.SelectLevel` | mipper/mipper.go:127-137 | with at least one level, the chosen level is in [0, Levels-1]; every level up to it is fine enough and the next is not, unless it is the top |
| `MipManager.LevelClampIsDead` | mipper/mipper.go:135-137 | the loop's result exceeds Levels only when Levels is negative, so the clamp never fires for a real pyramid |
| `MipManager.DensityLoopMonotone` | mipper/mipper.go:131-134 | a higher requested density never lets the loop climb further |
| `MipManager.SelectLevelMonotone` | mipper/mipper.go:127-137 | a higher requested density never selects a coarser level |
| `MipManager.SelectedLevel` | mipper/mipper.go:126-137 | the level `Adjust` uses always exists in the pyramid |
| `MipManager.ZoomInNeverCoarser` | mipper/mipper.go:126-137 | a view with more screen pixels per source pixel never selects a coarser level |
| `MipManager.Needed` | mipper/mipper.go:138-140 | the needed set holds the root and exactly the unclipped tiles of the selected level that meet the viewport, each under its own key |
| `MipManager.Adjust` | mipper/mipper.go:126-153 | loaded becomes the needed set, which holds the root; `load` is needed minus old loaded, `unload` is old loaded minus needed, the two are disjoint, and nothing but the loaded map changes |
| `MipManager.AdjustTwiceIsQuiet` | mipper/mipper.go:138-152 | repeating the same call loads nothing, unloads nothing and changes nothing |
| `MipManager.NeededShrinks` | mipper/mipper.go:98-124 | at an unchanged level, a viewport inside another needs no tile the larger one did not |
| `MipManager.NeededKeepsMeeting` | mipper/mipper.go:98-124 | at an unchanged level, a non-root tile needed for the larger viewport stays needed exactly when it meets the smaller one |
| `MipManager.AdjustShrink` | mipper/mipper.go:138-151 | shrinking the viewport at an unchanged level loads nothing and unloads exactly the non-root tiles that no longer meet it |
| `Chopper.SubImageAliases` | chopper/main.go:25-31 | the sub-image starts at the origin with the bounds' size, and its pixel (i, j) is the parent's pixel (Min.X + i, Min.Y + j), at byte offset (Min.Y + j) * Stride + (Min.X + i) * 4 |
| `Chopper.ColumnCellsFollowGrid` | chopper/main.go:37 | the y loop from gy * size cuts the cells of the grid column's addresses, in order |
| `Chopper.RowMajorCellsFollowGrid` | chopper/main.go:36-37 | the x loop from gx * size cuts the cells of the grid's addresses from column gx on, in order |
| `Chopper.CellsFollowGrid` | chopper/main.go:36-37 | the cells of one pass are the cells of the level's grid addresses, column by column: ceil(W/size) x ceil(H/size) of them |
| `Chopper.CellGeometry` | chopper/main.go:36-48 | each cell starts inside the image on a multiple of size, has a positive width and height of at most size, ends inside the image, and is shortened only at the image edge |
| `Chopper.CellMembership` | chopper/main.go:36-37 | the cell at (i * size, j * size) is cut exactly when i < ceil(W/size) and j < ceil(H/size) |
| `Chopper.CellOfAddress` | chopper/main.go:41-51 | the cell of a grid address has the geometry above and its origin divided by size gives back the address |
| `Chopper.CellNameIsGridAddress` | chopper/main.go:51 | the name of the cell at (i * size, j * size) is `i_j.png` |
| `Chopper.CellNamesDistinct` | chopper/main.go:51 | no two cells of a pass share a file name |
| `Chopper.SingleCell` | chopper/main.go:36-37 | a pass cuts exactly one cell exactly when size covers both sides |
| `Chopper.CellOutcome` | chopper/main.go:51-63 | a cell reports nil exactly when its file was created and encoded; otherwise the error names the cell's file |
| `Chopper.Reports` | chopper/main.go:36-66 | a pass issues one report per cell, in issue order |
| `Chopper.Collect` | chopper/main.go:71-82 | tilesCreated counts the nil reports; firstErr is nil exactly when every report is nil, and is otherwise the first non-nil report to arrive |
| `Chopper.CountWritten` | chopper/main.go:71-82 | at most all reports are nil, and all are exactly when no cell failed |
| `Chopper.Chop` | chopper/main.go:33-83 | for any arrival order: the count of written cells is at most ceil(W/size) x ceil(H/size) and equals it exactly when no error is returned; a returned error is one a cell reported, and the first to arrive |
| `Chopper.LevelSize` | chopper/main.go:101 | the cell size of every pass is at least the maximum tile size |
| `Chopper.RootLevelFrom` | chopper/main.go:114-119 | the loop reaches a level whose size covers the longer side, and no earlier level's size does |
| `Chopper.RootLevelExact` | chopper/main.go:109-119 | a pass yields exactly one tile exactly from the root level on, so the loop stops there |
| `Chopper.Pass` | chopper/main.go:103-113 | one pass succeeds exactly when its directory is made and every cell is written, returning ceil(W/size) x ceil(H/size); otherwise it fails with the mkdir error or, failing that, the first failing report to arrive in the order `schedule` gives, which is chop's first error |
| `Chopper.Build` | chopper/main.go:99-127 | the build succeeds exactly when every pass up to the root level succeeds, and then records Levels = root level + 1, TileSize = max size, Dx = W, Dy = H; a failure is the error of the first pass that failed: its mkdir error, or the first failing report of that pass to arrive under `schedule` |
| `Chopper.NextPass` | chopper/main.go:114-116 | each pass doubles the size and halves the scale, keeping size = max size * 2^L and scale = 2^-L |
| `Chopper.FullCellsResampleToTileSize` | chopper/main.go:50 | a full cell of pass L resamples to exactly the maximum tile size, and a clipped one to no more |
| `Pyramid.BuiltConfig` | chopper/main.go:122-127 | the configuration a build records is a valid pyramid description |
| `Pyramid.CellIsTile` | chopper/main.go:41-51 | the cell chopper cuts for (L, i, j) covers the same pixels as mipper's tile (L, i, j), and its path `L/i_j.png` is that tile's key |
| `Pyramid.PassMatchesLevel` | chopper/main.go:36-37 | pass L has as many columns and rows as mipper's level L |
| `Pyramid.BuildCutsListedTiles` | chopper/main.go:99-127 | the passes 0 up to the root level cut the cell of (L, i, j) exactly when mipper's `ListAllTiles` lists tile (L, i, j) for the recorded configuration |
| `Pyramid.RootCoversImage` | chopper/main.go:114-127 | the recorded configuration's root tile is the whole image and its level is a 1 x 1 grid, while the level below has more than one tile |
| `Examples.WideNormalisation` | main.go:13 | for the 12000 x 5000 demo, maxDpr is 12000, maxDpi its square, the normalised height 5/12, and the root `5/0_0.png` is the whole image |
| `Examples.PartialRowIsListed` | mipper/mipper.go:155-166 | in the demo, every tile of level 2's third row, 1000 pixels high, is part of the pyramid |
| `Examples.PartialRowIsDropped` | mipper/mipper.go:113-115 | in the demo, `tilesAt` never returns a tile of that row, for any viewport, even one covering the whole image |
| `Examples.FullRowIsReturned` | mipper/mipper.go:113-121 | in the demo, every tile of the full second row of level 2 is returned for the whole-image viewport |
| `Examples.OverviewNeedsOnlyRoot` | mipper/mipper.go:126-140 | in the demo, the whole image at 100 output pixels selects level 5, whose only tile is clipped, so only the root is needed |
| `Examples.CornerSelectsLevelOne` | mipper/mipper.go:126-137 | the top-left 1000 x 1000 corner at 300 output pixels asks for a density between levels 2 and 1 and selects level 1 |
| `Examples.CornerNeedsOneTile` | mipper/mipper.go:138-140 | for that view the needed keys are the root and the level-1 tile at (0, 0), nothing else |
| `Examples.SessionOpens` | mipper/mipper.go:141-151 | the first overview from a fresh manager loads `5/0_0.png` and unloads nothing |
| `Examples.SessionZoomsIn` | mipper/mipper.go:141-151 | zooming from the overview to the corner loads `1/0_0.png` and unloads nothing |
| `Examples.SessionZoomsOut` | mipper/mipper.go:141-151 | zooming back out loads nothing and unloads `1/0_0.png`, keeping the root |
| `Examples.SmallImageLevels` | chopper/main.go:99-127 | an 1800 x 1200 image with 1000-pixel tiles stops after two passes and records two levels |
| `Examples.SmallImageCells` | chopper/main.go:36-51 | its first pass cuts four cells; the third, `1_0.png`, is 800 pixels wide |

## Left out

- `filepath.Join` uses the operating system's separator. Keys are modelled with `/`,
  as on Unix; on Windows both chopper and mipper use `\`, so their keys still agree.
- JSON decoding and encoding of the configuration is a foreign library. `Config` is a
  record, and `ValidConfig` is the condition a usable one meets.
- `MipManager.Make`: requires `ValidConfig`, which the source never checks. With
  Levels = 0 the source shifts by `uint(-1)`.
- Normalised `float64` bounds and viewports are out. The model works in integer
  source pixels. Sub-pixel viewports, where the ceiling trick is inexact, are not
  modelled.
- `Tiles.TilesAt`: takes an integer viewport; the source takes any `float64` one.
- `MipManager.ZoomInNeverCoarser`: requires positive viewport widths and a
  non-negative pixel count. A zero width makes the density infinite or NaN. With a
  negative pixel count, squaring into `dpi` reverses the order: -10 <= 1, but 100 > 1.
- Map iteration order is unobservable. `load`, `unload` and `loaded` are maps
  compared by key set, not slices.
- Image decoding, `draw.Draw`, Lanczos resampling and PNG encoding are out. So are
  file and directory creation, printing, flag parsing and writing `config.json`. File
  and directory outcomes are parameters; `log.Fatalf` is a `Failure`.
- `Chopper.FullCellsResampleToTileSize`: uses exact reals for `float64(width) * scale`.
  This agrees with `float64` here, because the scale is a power of two.
- Goroutines, the `WaitGroup` and the channel are out. The fold runs over an
  arbitrary permutation of the per-cell reports.
- `Chopper.Chop`: requires W, H > 0 and size > 0. With size <= 0 the source's stride
  loop never ends, and the run panics in a worker: with size 0 on the division
  `x/srcSize`, with a negative size when `subImage` slices `Pix` at a negative offset.
  An empty image, which the source chops into no cells, is not modelled.
- `Chopper.Build`: requires W, H and the maximum tile size to be positive. With a
  maximum tile size <= 0 the first `chop` never returns, because its stride loop does
  not advance, and the run panics in one of its workers as described for `Chopper.Chop`.
  With W or H = 0 every pass yields 0 tiles, and the loop never ends.
- `Chopper.Pass`: has the same positivity requirements as `Chopper.Build`.
- `Chopper.SubImageAliases`: requires the parent's rectangle to start at the origin,
  as the canvas built by `image.NewRGBA` from a decoded image's bounds normally does.
- Go's fixed-width `int` overflow is not modelled. Integers are unbounded.
- `renderer/main.go` is not part of this model. It consumes `Adjust`'s `load` list and
  draws only that list's lowest level.
