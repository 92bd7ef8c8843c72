/**
  Tile file names: the relative path `level/gx_gy.png` that the pyramid
  builder writes and the manager uses as a tile's identity, and the parser
  that recovers the grid address from it.
 */
module TileNames {
  import opened Outcomes
  import Decimal

  /**
    `filepath.Join(dir, file)` on a system whose separator is `/`, for a
    non-empty directory component and a file component that contain no
    separators, dots-only segments or trailing slashes: cleaning leaves such
    a join as plain concatenation.
   */
  function PathJoin(dir: string, file: string): string {
    dir + "/" + file
  }

  /** `fmt.Sprintf("%d_%d.png", gx, gy)`: the file name of a grid cell within its level directory. */
  function CellFileName(gx: nat, gy: nat): string {
    Decimal.Show(gx) + "_" + Decimal.Show(gy) + ".png"
  }

  /** The key of tile (level, gx, gy): its path relative to the pyramid's root directory. */
  function TileName(level: nat, gx: nat, gy: nat): string {
    PathJoin(Decimal.Show(level), CellFileName(gx, gy))
  }

  datatype Address = Address(level: nat, gx: nat, gy: nat)

  /** The position of the first `c` in `s`, if any. */
  function FirstIndex(s: string, c: char): (r: Option<nat>)
    ensures r.Some? ==> r.value < |s| && s[r.value] == c && c !in s[..r.value]
    ensures r.None? ==> c !in s
  {
    if |s| == 0 then None
    else if s[0] == c then Some(0)
    else match FirstIndex(s[1..], c)
      case None => None
      case Some(i) =>
        assert s[..i + 1] == [s[0]] + s[1..][..i];
        Some(i + 1)
  }

  lemma FirstIndexAfter(p: string, c: char, q: string)
    requires c !in p
    ensures FirstIndex(p + [c] + q, c) == Some(|p|)
  {
    var s := p + [c] + q;
    assert s[|p|] == c;
    var r := FirstIndex(s, c);
    assert r.Some?;
  }

  /** Inverse of TileName: the address a well-formed key names, or None. */
  function ParseTileName(s: string): Option<Address> {
    match FirstIndex(s, '/')
    case None => None
    case Some(i) =>
      var levelText := s[..i];
      var rest := s[i + 1..];
      match FirstIndex(rest, '_')
      case None => None
      case Some(j) =>
        var xText := rest[..j];
        var tail := rest[j + 1..];
        if |tail| < 4 || tail[|tail| - 4..] != ".png" then None
        else
          var yText := tail[..|tail| - 4];
          if Decimal.IsNumeral(levelText) && Decimal.IsNumeral(xText) && Decimal.IsNumeral(yText)
          then Some(Address(Decimal.Read(levelText), Decimal.Read(xText), Decimal.Read(yText)))
          else None
  }

  lemma NoSeparator(n: nat, c: char)
    requires !Decimal.IsDigit(c)
    ensures c !in Decimal.Show(n)
  {
    var s := Decimal.Show(n);
    assert Decimal.IsNumeral(s);
  }

  /** Every key parses back to the address it was built from. */
  lemma ParseTileNameRoundTrip(level: nat, gx: nat, gy: nat)
    ensures ParseTileName(TileName(level, gx, gy)) == Some(Address(level, gx, gy))
  {
    var l, x, y := Decimal.Show(level), Decimal.Show(gx), Decimal.Show(gy);
    var file := CellFileName(gx, gy);
    var s := TileName(level, gx, gy);
    assert s == l + ['/'] + file;
    NoSeparator(level, '/');
    FirstIndexAfter(l, '/', file);
    assert s[..|l|] == l;
    var rest := s[|l| + 1..];
    assert rest == file;
    assert rest == x + ['_'] + (y + ".png");
    NoSeparator(gx, '_');
    FirstIndexAfter(x, '_', y + ".png");
    assert rest[..|x|] == x;
    var tail := rest[|x| + 1..];
    assert tail == y + ".png";
    assert tail[|tail| - 4..] == ".png";
    assert tail[..|tail| - 4] == y;
    Decimal.ReadShow(level);
    Decimal.ReadShow(gx);
    Decimal.ReadShow(gy);
  }

  /** ParseTileNameRoundTrip for every address at once. */
  lemma ParseAllTileNames()
    ensures forall level: nat, gx: nat, gy: nat ::
              ParseTileName(TileName(level, gx, gy)) == Some(Address(level, gx, gy))
  {
    forall level: nat, gx: nat, gy: nat {
      ParseTileNameRoundTrip(level, gx, gy);
    }
  }

  /** Distinct addresses never share a key (keys are used as set identity). */
  lemma TileNameInjective(l1: nat, x1: nat, y1: nat, l2: nat, x2: nat, y2: nat)
    requires TileName(l1, x1, y1) == TileName(l2, x2, y2)
    ensures l1 == l2 && x1 == x2 && y1 == y2
  {
    ParseTileNameRoundTrip(l1, x1, y1);
    ParseTileNameRoundTrip(l2, x2, y2);
  }

  /** Distinct grid cells never share a file name within a level directory. */
  lemma CellFileNameInjective(x1: nat, y1: nat, x2: nat, y2: nat)
    requires CellFileName(x1, y1) == CellFileName(x2, y2)
    ensures x1 == x2 && y1 == y2
  {
    assert TileName(0, x1, y1) == TileName(0, x2, y2);
    TileNameInjective(0, x1, y1, 0, x2, y2);
  }
}
