/**
  The working-set tracker of mipper/mipper.go. A manager holds the pyramid
  configuration, the constants `Make` derives from it, the pinned root tile
  and the map of loaded tiles. `Adjust` picks a level from the requested
  pixel density, computes the tiles the viewport needs at that level, adds
  the root, and diffs the result against the loaded map.
 */
module MipManager {
  import opened Arith
  import opened TileNames
  import opened Tiles

  /**
    The constants `Make` derives from the image size: `maxDpr`, the longer
    side in source pixels, `maxDpi` its square, and (maxDx, maxDy), the image
    extent in the normalised unit in which the longer side is 1.
   */
  datatype Scale = Scale(maxDpr: int, maxDpi: int, maxDx: real, maxDy: real)

  /**
    The normalisation of `Make`: the dominant axis (Dy on a tie) sets the
    pixel ratio, both extents keep their proportion, and the longer one is
    exactly 1.
   */
  function Normalise(dx: int, dy: int): (s: Scale)
    requires dx > 0 && dy > 0
    ensures s.maxDpr >= dx && s.maxDpr >= dy && (s.maxDpr == dx || s.maxDpr == dy)
    ensures s.maxDpi == s.maxDpr * s.maxDpr
    ensures s.maxDx * (s.maxDpr as real) == dx as real && s.maxDy * (s.maxDpr as real) == dy as real
    ensures 0.0 < s.maxDx <= 1.0 && 0.0 < s.maxDy <= 1.0 && (s.maxDx == 1.0 || s.maxDy == 1.0)
  {
    var dpr := if dx > dy then dx else dy;
    NormaliseFacts(dx, dy);
    Scale(dpr, dpr * dpr, (dx as real) / (dpr as real), (dy as real) / (dpr as real))
  }

  /** The manager's state: the configuration, its scale, the pinned root tile and the loaded tiles by key. */
  datatype Manager = Manager(config: Config, loaded: map<string, Tile>, root: Tile, scale: Scale)

  /** A manager as `Make` builds it, whatever tiles it has loaded since. */
  predicate Valid(m: Manager) {
    var c := m.config;
    ValidConfig(c)
    && m.scale == Normalise(c.dx, c.dy)
    && m.root == MakeTile(c, c.levels - 1, 0, 0)
  }

  /**
    `Make` after decoding the configuration: normalises, and pins the root,
    the single tile of the coarsest level, with nothing loaded yet.
   */
  function Make(c: Config): (m: Manager)
    requires ValidConfig(c)
    ensures Valid(m) && m.config == c && m.loaded == map[]
    ensures m.root.level == c.levels - 1 && m.root.x == 0 && m.root.y == 0
  {
    Manager(c, map[], MakeTile(c, c.levels - 1, 0, 0), Normalise(c.dx, c.dy))
  }

  lemma NormaliseFacts(dx: int, dy: int)
    requires dx > 0 && dy > 0
    ensures var s := (if dx > dy then dx else dy) as real;
            ((dx as real) / s) * s == dx as real && ((dy as real) / s) * s == dy as real
            && 0.0 < (dx as real) / s <= 1.0 && 0.0 < (dy as real) / s <= 1.0
            && ((dx as real) / s == 1.0 || (dy as real) / s == 1.0)
  {
    var s := (if dx > dy then dx else dy) as real;
    Ratio(dx as real, s);
    Ratio(dy as real, s);
  }

  /** The facts about a / b the normalisation relies on. */
  lemma Ratio(a: real, b: real)
    requires 0.0 < a && 0.0 < b
    ensures (a / b) * b == a && 0.0 < a / b
    ensures a <= b ==> a / b <= 1.0
    ensures a == b ==> a / b == 1.0
  {
  }

  lemma SquareMonotone(a: real, b: real)
    requires 0.0 <= a <= b
    ensures a * a <= b * b
  {
    assert a * a <= a * b;
    assert a * b <= b * b;
  }

  // ---------------------------------------------------------------------------
  // Level selection

  /**
    The squared pixel density a viewport asks for. A zero-width viewport
    divides by zero in floating point; the quotient is an infinity or NaN and
    its square compares below nothing, which `Unbounded` stands for.
   */
  datatype Density = Finite(value: real) | Unbounded

  predicate Below(d: Density, bound: real) {
    d.Finite? && d.value < bound
  }

  /** `dpi` of `Adjust`: (px / (vp.dx / maxDpr))^2. */
  function ViewDensity(maxDpr: int, vp: Viewport, px: int): Density {
    if vp.dx == 0 then Unbounded
    else
      var dpr := (px as real) * (maxDpr as real) / (vp.dx as real);
      Finite(dpr * dpr)
  }

  /** The native density of `level`: maxDpi / 4^level. */
  function LevelDpi(maxDpi: int, level: nat): real {
    (maxDpi as real) / (Pow4(level) as real)
  }

  lemma LevelDpiStep(maxDpi: int, level: nat)
    ensures LevelDpi(maxDpi, level) / 4.0 == LevelDpi(maxDpi, level + 1)
  {
    var b := Pow4(level) as real;
    assert Pow4(level + 1) as real == 4.0 * b;
    assert (maxDpi as real) / b / 4.0 == (maxDpi as real) / (4.0 * b);
  }

  /**
    The density loop of `Adjust`: step to the next coarser level while the
    requested density is below a quarter of the current level's and a
    coarser level exists.
   */
  function DensityLoop(levels: int, maxDpi: int, d: Density, level: nat, levelDpi: real): (r: nat)
    requires levelDpi == LevelDpi(maxDpi, level)
    decreases levels - level
    ensures level <= r && (r == level || r <= levels - 1)
    ensures forall l: nat :: level < l <= r ==> Below(d, LevelDpi(maxDpi, l))
    ensures r >= levels - 1 || !Below(d, LevelDpi(maxDpi, r + 1))
  {
    LevelDpiStep(maxDpi, level);
    if Below(d, levelDpi / 4.0) && level < levels - 1 then
      DensityLoop(levels, maxDpi, d, level + 1, levelDpi / 4.0)
    else level
  }

  /** The loop started at level 0, followed by the source's clamp against `levels`. */
  function SelectLevel(levels: int, maxDpi: int, d: Density): (r: int)
    ensures levels >= 1 ==> 0 <= r <= levels - 1
    ensures levels >= 1 ==> forall l: nat :: 0 < l <= r ==> Below(d, LevelDpi(maxDpi, l))
    ensures levels >= 1 ==> r == levels - 1 || !Below(d, LevelDpi(maxDpi, r + 1))
  {
    var level := DensityLoop(levels, maxDpi, d, 0, maxDpi as real);
    if level > levels then levels - 1 else level
  }

  /**
    The clamp `if level > Levels` changes the loop's answer exactly when
    `levels` is negative: for every configuration with levels >= 0 it is dead.
   */
  lemma LevelClampIsDead(levels: int, maxDpi: int, d: Density)
    ensures DensityLoop(levels, maxDpi, d, 0, maxDpi as real) > levels <==> levels < 0
  {
  }

  /** `d` asks for no more density than `e`. */
  predicate DensityLe(d: Density, e: Density) {
    e.Unbounded? || (d.Finite? && d.value <= e.value)
  }

  lemma {:induction false} DensityLoopMonotone(levels: int, maxDpi: int, d: Density, e: Density, level: nat, levelDpi: real)
    requires levelDpi == LevelDpi(maxDpi, level)
    requires DensityLe(d, e)
    ensures DensityLoop(levels, maxDpi, e, level, levelDpi) <= DensityLoop(levels, maxDpi, d, level, levelDpi)
    decreases levels - level
  {
    LevelDpiStep(maxDpi, level);
    if Below(e, levelDpi / 4.0) && level < levels - 1 {
      DensityLoopMonotone(levels, maxDpi, d, e, level + 1, levelDpi / 4.0);
    }
  }

  /** Asking for more density never selects a coarser level. */
  lemma SelectLevelMonotone(levels: int, maxDpi: int, d: Density, e: Density)
    requires levels >= 0 && DensityLe(d, e)
    ensures SelectLevel(levels, maxDpi, e) <= SelectLevel(levels, maxDpi, d)
  {
    DensityLoopMonotone(levels, maxDpi, d, e, 0, maxDpi as real);
  }

  /** The level `Adjust` works at. */
  function SelectedLevel(m: Manager, vp: Viewport, px: int): (l: nat)
    requires Valid(m)
    ensures l < m.config.levels
  {
    SelectLevel(m.config.levels, m.scale.maxDpi, ViewDensity(m.scale.maxDpr, vp, px))
  }

  /**
    More output pixels per viewport pixel (px / vp.dx) never selects a
    coarser level.
   */
  lemma ZoomInNeverCoarser(m: Manager, vp1: Viewport, px1: int, vp2: Viewport, px2: int)
    requires Valid(m) && vp1.dx > 0 && vp2.dx > 0 && px1 >= 0
    requires (px1 as real) / (vp1.dx as real) <= (px2 as real) / (vp2.dx as real)
    ensures SelectedLevel(m, vp2, px2) <= SelectedLevel(m, vp1, px1)
  {
    ViewDensityMonotone(m.scale.maxDpr, vp1, px1, vp2, px2);
    SelectLevelMonotone(m.config.levels, m.scale.maxDpi, ViewDensity(m.scale.maxDpr, vp1, px1), ViewDensity(m.scale.maxDpr, vp2, px2));
  }

  lemma ViewDensityMonotone(maxDpr: int, vp1: Viewport, px1: int, vp2: Viewport, px2: int)
    requires maxDpr >= 0 && vp1.dx > 0 && vp2.dx > 0 && px1 >= 0
    requires (px1 as real) / (vp1.dx as real) <= (px2 as real) / (vp2.dx as real)
    ensures DensityLe(ViewDensity(maxDpr, vp1, px1), ViewDensity(maxDpr, vp2, px2))
  {
    ScaledSquareMonotone(px1 as real, vp1.dx as real, px2 as real, vp2.dx as real, maxDpr as real);
  }

  lemma ScaledSquareMonotone(p1: real, w1: real, p2: real, w2: real, s: real)
    requires 0.0 < w1 && 0.0 < w2 && 0.0 <= p1 && 0.0 <= s && p1 / w1 <= p2 / w2
    ensures (p1 * s / w1) * (p1 * s / w1) <= (p2 * s / w2) * (p2 * s / w2)
  {
    var r1, r2 := p1 / w1, p2 / w2;
    assert p1 * s / w1 == r1 * s;
    assert p2 * s / w2 == r2 * s;
    assert 0.0 <= r1;
    assert r1 * s <= r2 * s;
    SquareMonotone(r1 * s, r2 * s);
  }

  // ---------------------------------------------------------------------------
  // Adjust

  /** The tiles the viewport needs: `tilesAt` at the selected level, plus the pinned root. */
  function Needed(m: Manager, vp: Viewport, px: int): (r: map<string, Tile>)
    requires Valid(m)
    ensures m.root.filename in r && r[m.root.filename] == m.root
    ensures forall k :: k in r ==> k == m.root.filename || exists gx: nat, gy: nat ::
              var t := MakeTile(m.config, SelectedLevel(m, vp, px), gx, gy);
              k == TileName(SelectedLevel(m, vp, px), gx, gy) && Unclipped(m.config, t) && Meets(t, vp)
    ensures forall gx: nat, gy: nat ::
              var t := MakeTile(m.config, SelectedLevel(m, vp, px), gx, gy);
              Unclipped(m.config, t) && Meets(t, vp) ==> t.filename in r && r[t.filename] == t
    ensures forall k :: k in r ==> r[k].filename == k
  {
    var level := SelectedLevel(m, vp, px);
    var cur := TilesAt(m.config, level, vp);
    var r := cur[m.root.filename := m.root];
    NeededFacts(m.config, m.root, level, vp, cur, r);
    NeededKeys(m.config, m.root, level, vp, cur, r);
    r
  }

  /** Every listed tile at the level is in the wanted set, even when one of them is the root. */
  lemma NeededFacts(c: Config, root: Tile, level: nat, vp: Viewport, cur: map<string, Tile>, r: map<string, Tile>)
    requires ValidConfig(c) && root == MakeTile(c, c.levels - 1, 0, 0)
    requires cur == TilesAt(c, level, vp) && r == cur[root.filename := root]
    ensures forall gx: nat, gy: nat ::
              var t := MakeTile(c, level, gx, gy);
              Unclipped(c, t) && Meets(t, vp) ==> t.filename in r && r[t.filename] == t
  {
    forall gx: nat, gy: nat | Unclipped(c, MakeTile(c, level, gx, gy)) && Meets(MakeTile(c, level, gx, gy), vp)
      ensures MakeTile(c, level, gx, gy).filename in r && r[MakeTile(c, level, gx, gy).filename] == MakeTile(c, level, gx, gy)
    {
      NeededTile(c, root, level, gx, gy, cur, r);
    }
  }

  lemma NeededTile(c: Config, root: Tile, level: nat, gx: nat, gy: nat, cur: map<string, Tile>, r: map<string, Tile>)
    requires c.levels >= 1 && root == MakeTile(c, c.levels - 1, 0, 0) && r == cur[root.filename := root]
    requires TileName(level, gx, gy) in cur && cur[TileName(level, gx, gy)] == MakeTile(c, level, gx, gy)
    ensures r[TileName(level, gx, gy)] == MakeTile(c, level, gx, gy)
  {
    if TileName(level, gx, gy) == root.filename {
      TileNameInjective(level, gx, gy, c.levels - 1, 0, 0);
    }
  }

  /** Every wanted tile is stored under its own file name. */
  lemma NeededKeys(c: Config, root: Tile, level: nat, vp: Viewport, cur: map<string, Tile>, r: map<string, Tile>)
    requires ValidConfig(c) && root == MakeTile(c, c.levels - 1, 0, 0)
    requires cur == TilesAt(c, level, vp) && r == cur[root.filename := root]
    ensures forall k :: k in r ==> r[k].filename == k
  {
    forall k | k in cur
      ensures cur[k].filename == k
    {
      var gx: nat, gy: nat :| k == TileName(level, gx, gy) && Unclipped(c, MakeTile(c, level, gx, gy))
        && Meets(MakeTile(c, level, gx, gy), vp);
    }
  }

  /** What one `Adjust` call returns: the updated manager and the two diff maps, keyed by file name. */
  datatype Adjustment = Adjustment(manager: Manager, load: map<string, Tile>, unload: map<string, Tile>)

  /**
    `Adjust`: the loaded map is replaced by the needed tiles; `load` holds the
    needed tiles that were not loaded, `unload` the loaded tiles no longer needed.
   */
  function Adjust(m: Manager, vp: Viewport, px: int): (a: Adjustment)
    requires Valid(m)
    ensures Valid(a.manager)
    ensures a.manager == m.(loaded := a.manager.loaded)
    ensures a.manager.config == m.config && a.manager.root == m.root
    ensures a.manager.loaded == Needed(m, vp, px)
    ensures m.root.filename in a.manager.loaded
    ensures a.load.Keys == a.manager.loaded.Keys - m.loaded.Keys
    ensures a.unload.Keys == m.loaded.Keys - a.manager.loaded.Keys
    ensures forall k :: k in a.load ==> a.load[k] == a.manager.loaded[k]
    ensures forall k :: k in a.unload ==> a.unload[k] == m.loaded[k]
    ensures a.load.Keys !! a.unload.Keys
    ensures a.manager.loaded.Keys == (m.loaded.Keys - a.unload.Keys) + a.load.Keys
  {
    var cur := Needed(m, vp, px);
    var load := map k | k in cur && k !in m.loaded :: cur[k];
    var unload := map k | k in m.loaded && k !in cur :: m.loaded[k];
    Adjustment(m.(loaded := cur), load, unload)
  }

  /** A second `Adjust` with the same arguments loads and unloads nothing. */
  lemma AdjustTwiceIsQuiet(m: Manager, vp: Viewport, px: int)
    requires Valid(m)
    ensures var a := Adjust(m, vp, px);
            var b := Adjust(a.manager, vp, px);
            b.load == map[] && b.unload == map[] && b.manager == a.manager
  {
    var a := Adjust(m, vp, px);
    var n := Needed(m, vp, px);
    assert SelectedLevel(a.manager, vp, px) == SelectedLevel(m, vp, px);
    assert Needed(a.manager, vp, px) == n;
    var b := Adjust(a.manager, vp, px);
    assert b.load.Keys == {};
    assert b.unload.Keys == {};
  }

  /** The viewport `inner` lies within `outer`. */
  predicate Inside(inner: Viewport, outer: Viewport) {
    outer.x <= inner.x && inner.x + inner.dx <= outer.x + outer.dx
    && outer.y <= inner.y && inner.y + inner.dy <= outer.y + outer.dy
  }

  /**
    Shrinking the viewport at an unchanged level loads nothing and unloads
    exactly the loaded tiles, other than the root, that no longer meet it.
   */
  lemma AdjustShrink(m: Manager, outer: Viewport, inner: Viewport, px: int)
    requires Valid(m) && Inside(inner, outer)
    requires SelectedLevel(m, inner, px) == SelectedLevel(m, outer, px)
    ensures var a := Adjust(m, outer, px);
            var b := Adjust(a.manager, inner, px);
            b.load == map[]
            && forall k :: k in b.unload <==>
                 k in a.manager.loaded && k != m.root.filename && !Meets(a.manager.loaded[k], inner)
  {
    var a := Adjust(m, outer, px);
    assert SelectedLevel(a.manager, inner, px) == SelectedLevel(m, inner, px);
    assert Needed(a.manager, inner, px) == Needed(m, inner, px);
    NeededShrinks(m, outer, inner, px);
    NeededKeepsMeeting(m, outer, inner, px);
    var b := Adjust(a.manager, inner, px);
    assert b.load.Keys == {};
  }

  /** A smaller viewport at the same level needs no tile the larger one did not. */
  lemma NeededShrinks(m: Manager, outer: Viewport, inner: Viewport, px: int)
    requires Valid(m) && Inside(inner, outer)
    requires SelectedLevel(m, inner, px) == SelectedLevel(m, outer, px)
    ensures Needed(m, inner, px).Keys <= Needed(m, outer, px).Keys
  {
    var level := SelectedLevel(m, outer, px);
    var n1, n2 := Needed(m, outer, px), Needed(m, inner, px);
    forall k | k in n2
      ensures k in n1
    {
      if k != m.root.filename {
        var gx: nat, gy: nat :| var t := MakeTile(m.config, level, gx, gy);
          k == TileName(level, gx, gy) && Unclipped(m.config, t) && Meets(t, inner);
        var t := MakeTile(m.config, level, gx, gy);
        assert Meets(t, outer);
        assert t.filename in n1;
      }
    }
  }

  /** Of the tiles the larger viewport needs, the smaller one needs the root and those it meets. */
  lemma NeededKeepsMeeting(m: Manager, outer: Viewport, inner: Viewport, px: int)
    requires Valid(m)
    requires SelectedLevel(m, inner, px) == SelectedLevel(m, outer, px)
    ensures var n1, n2 := Needed(m, outer, px), Needed(m, inner, px);
            forall k :: k in n1 && k != m.root.filename ==> (k in n2 <==> Meets(n1[k], inner))
  {
    var level := SelectedLevel(m, outer, px);
    var n1, n2 := Needed(m, outer, px), Needed(m, inner, px);
    forall k | k in n1 && k != m.root.filename
      ensures k in n2 <==> Meets(n1[k], inner)
    {
      var gx: nat, gy: nat :| var t := MakeTile(m.config, level, gx, gy);
        k == TileName(level, gx, gy) && Unclipped(m.config, t) && Meets(t, outer);
      var t := MakeTile(m.config, level, gx, gy);
      assert n1[k] == t;
      if k in n2 {
        var hx: nat, hy: nat :| var u := MakeTile(m.config, level, hx, hy);
          k == TileName(level, hx, hy) && Unclipped(m.config, u) && Meets(u, inner);
        TileNameInjective(level, gx, gy, level, hx, hy);
      }
    }
  }

}
