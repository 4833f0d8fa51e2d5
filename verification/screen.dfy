/** The screen grid of material codes and the painter that fills one column
    of it with a sky band, a wall band and a floor band. The grid is a value:
    every painter returns the new grid. */
module Screen {

  datatype ScreenManager = ScreenManager(screen: seq<seq<int>>, winW: int, winH: int)

  /** winH rows of winW codes each. */
  predicate Valid(sm: ScreenManager) {
    && 0 <= sm.winW && 0 <= sm.winH
    && |sm.screen| == sm.winH
    && forall r :: 0 <= r < |sm.screen| ==> |sm.screen[r]| == sm.winW
  }

  /** A fresh screen of h rows of w zero (sky) codes. */
  function NewScreenManager(w: int, h: int): (sm: ScreenManager)
    requires 0 <= w && 0 <= h
    ensures Valid(sm) && sm.winW == w && sm.winH == h
    ensures forall r, c :: 0 <= r < h && 0 <= c < w ==> sm.screen[r][c] == 0
  {
    ScreenManager(seq(h, _ => seq(w, _ => 0)), w, h)
  }

  /** The grid with the one cell (row, col) set to code. */
  function Put(sm: ScreenManager, row: int, col: int, code: int): (out: ScreenManager)
    requires Valid(sm) && 0 <= row < sm.winH && 0 <= col < sm.winW
    ensures Valid(out) && out.winW == sm.winW && out.winH == sm.winH
    ensures out.screen[row][col] == code
    ensures forall r, c :: 0 <= r < sm.winH && 0 <= c < sm.winW && (r, c) != (row, col) ==>
              out.screen[r][c] == sm.screen[r][c]
  {
    sm.(screen := sm.screen[row := sm.screen[row][col := code]])
  }

  /** Every column other than col holds what it held in before. */
  ghost predicate OtherColumnsUnchanged(before: ScreenManager, after: ScreenManager, col: int)
    requires Valid(before) && Valid(after)
    requires before.winW == after.winW && before.winH == after.winH
  {
    forall r, c :: 0 <= r < before.winH && 0 <= c < before.winW && c != col ==>
      after.screen[r][c] == before.screen[r][c]
  }

  /** Code of the sky cells. */
  const SkyCode: int := 0

  /** Wall glyph: the edge glyph for an edge column, otherwise denser for taller walls. */
  function WallCode(wallH: int, isEdge: bool): int {
    if isEdge then 6
    else if wallH < 5 then 8
    else if wallH < 10 then 5
    else if wallH < 15 then 4
    else if wallH < 20 then 3
    else 2
  }

  /** Floor glyph, a fixed gradient over the absolute row. */
  function FloorCode(row: int): int {
    if row < 43 then 13
    else if row < 48 then 12
    else if row < 54 then 11
    else 10
  }

  /** The intended code of row r of a column with sky rows above a wall of wallH rows. */
  function ColumnCode(sky: int, wallH: int, isEdge: bool, r: int): int {
    if r < sky then SkyCode
    else if r < sky + wallH then WallCode(wallH, isEdge)
    else FloorCode(r)
  }

  /** Column col of sm shows, from top to bottom, sky rows, wallH wall rows and floor to the bottom. */
  ghost predicate ColumnShows(sm: ScreenManager, col: int, sky: int, wallH: int, isEdge: bool) {
    && Valid(sm) && 0 <= col < sm.winW
    && forall r :: 0 <= r < sm.winH ==> sm.screen[r][col] == ColumnCode(sky, wallH, isEdge, r)
  }

  /** Rows the three loops write: sky and wall in full, floor until the bottom row. */
  function PaintedRows(winH: int, sky: int, wallH: int, floorRows: int): int {
    sky + wallH + (if floorRows <= winH - sky - wallH then floorRows else winH - sky - wallH)
  }

  /** The three loops of the painter: sky rows of code 0, wallH rows of the
      wall code, then up to floorRows floor rows, stopping at the bottom row. */
  method PaintColumn(sm: ScreenManager, col: int, sky: int, wallH: int, floorRows: int, isEdge: bool)
    returns (out: ScreenManager)
    requires Valid(sm) && 0 <= col < sm.winW
    requires 0 <= sky && 0 <= wallH && 0 <= floorRows && sky + wallH <= sm.winH
    ensures Valid(out) && out.winW == sm.winW && out.winH == sm.winH
    ensures OtherColumnsUnchanged(sm, out, col)
    ensures forall r :: 0 <= r < sm.winH ==>
              out.screen[r][col] == (if r < PaintedRows(sm.winH, sky, wallH, floorRows)
                                     then ColumnCode(sky, wallH, isEdge, r) else sm.screen[r][col])
  {
    out := sm;
    var row := 0;

    var j := 0;
    while j < sky
      invariant 0 <= j <= sky && row == j
      invariant Valid(out) && out.winW == sm.winW && out.winH == sm.winH
      invariant OtherColumnsUnchanged(sm, out, col)
      invariant forall r :: 0 <= r < sm.winH ==>
                  out.screen[r][col] == (if r < row then ColumnCode(sky, wallH, isEdge, r) else sm.screen[r][col])
    {
      out := Put(out, row, col, SkyCode);
      row := row + 1;
      j := j + 1;
    }

    var wallCode := 2;
    if isEdge {
      wallCode := 6;
    } else if wallH < 5 {
      wallCode := 8;
    } else if wallH < 10 {
      wallCode := 5;
    } else if wallH < 15 {
      wallCode := 4;
    } else if wallH < 20 {
      wallCode := 3;
    }
    j := 0;
    while j < wallH
      invariant 0 <= j <= wallH && row == sky + j
      invariant Valid(out) && out.winW == sm.winW && out.winH == sm.winH
      invariant OtherColumnsUnchanged(sm, out, col)
      invariant forall r :: 0 <= r < sm.winH ==>
                  out.screen[r][col] == (if r < row then ColumnCode(sky, wallH, isEdge, r) else sm.screen[r][col])
    {
      out := Put(out, row, col, wallCode);
      row := row + 1;
      j := j + 1;
    }

    j := 0;
    while j < floorRows
      invariant 0 <= j <= floorRows && row == sky + wallH + j && row <= sm.winH
      invariant Valid(out) && out.winW == sm.winW && out.winH == sm.winH
      invariant OtherColumnsUnchanged(sm, out, col)
      invariant forall r :: 0 <= r < sm.winH ==>
                  out.screen[r][col] == (if r < row then ColumnCode(sky, wallH, isEdge, r) else sm.screen[r][col])
    {
      if row == sm.winH {
        break;
      }
      var floorCode;
      if row < 43 {
        floorCode := 13;
      } else if row < 48 {
        floorCode := 12;
      } else if row < 54 {
        floorCode := 11;
      } else {
        floorCode := 10;
      }
      out := Put(out, row, col, floorCode);
      row := row + 1;
      j := j + 1;
    }
    assert row == PaintedRows(sm.winH, sky, wallH, floorRows);
  }

  /** Sky rows as the painter computes them: half the free rows, plus one when the wall height is odd. */
  function SkyRows(winH: int, wallH: int): int {
    (winH - wallH) / 2 + wallH % 2
  }

  /** Floor rows as the painter computes them: half the free rows. */
  function FloorRows(winH: int, wallH: int): int {
    (winH - wallH) / 2
  }

  /** On a screen of even height the bands fill the column exactly, and an odd
      wall gives its extra free row to the sky. */
  lemma EvenScreenBands(winH: int, wallH: int)
    requires winH % 2 == 0 && 0 <= wallH <= winH
    ensures SkyRows(winH, wallH) == FloorRows(winH, wallH) + wallH % 2
    ensures SkyRows(winH, wallH) + wallH + FloorRows(winH, wallH) == winH
  {
    var free := winH - wallH;
    assert free % 2 == wallH % 2;
    assert free == 2 * (free / 2) + free % 2;
  }

  /** The column painter as written. Its sky band takes the parity of wallH
      rather than of the free rows, so on a screen of odd height a full-height
      wall would be written one row past the bottom; that case is excluded. */
  method DrawColumn(sm: ScreenManager, wallH: int, col: int, isEdge: bool) returns (out: ScreenManager)
    requires Valid(sm) && 0 <= col < sm.winW
    requires 0 <= wallH <= sm.winH
    requires sm.winH % 2 == 0 || wallH < sm.winH
    ensures Valid(out) && out.winW == sm.winW && out.winH == sm.winH
    ensures OtherColumnsUnchanged(sm, out, col)
    ensures forall r :: 0 <= r < sm.winH ==>
              out.screen[r][col] == (if r < PaintedRows(sm.winH, SkyRows(sm.winH, wallH), wallH, FloorRows(sm.winH, wallH))
                                     then ColumnCode(SkyRows(sm.winH, wallH), wallH, isEdge, r) else sm.screen[r][col])
    ensures sm.winH % 2 == 0 ==> ColumnShows(out, col, SkyRows(sm.winH, wallH), wallH, isEdge)
  {
    var free := sm.winH - wallH;
    assert free == 2 * (free / 2) + free % 2;
    if sm.winH % 2 == 0 {
      EvenScreenBands(sm.winH, wallH);
    }
    out := PaintColumn(sm, col, SkyRows(sm.winH, wallH), wallH, FloorRows(sm.winH, wallH), isEdge);
  }

  /** On a 5-row screen a 5-row wall starts one row down and so ends past
      the bottom, and a 2-row wall leaves the bottom row unpainted. */
  lemma OddScreenBands()
    ensures SkyRows(5, 5) + 5 == 6
    ensures SkyRows(5, 2) + 2 + FloorRows(5, 2) == 4
  {
  }

  /** Sky rows with the parity of the free rows: the rounded-up half. */
  function CentredSkyRows(winH: int, wallH: int): int {
    (winH - wallH) - (winH - wallH) / 2
  }

  lemma CentredSkyRowsAgreeOnEvenScreens(winH: int, wallH: int)
    requires winH % 2 == 0 && 0 <= wallH <= winH
    ensures CentredSkyRows(winH, wallH) == SkyRows(winH, wallH)
  {
    EvenScreenBands(winH, wallH);
  }

  /** The column painter with the sky band rounded up from the free rows: on
      every screen height the bands fill the column exactly once. */
  method DrawColumnCentred(sm: ScreenManager, wallH: int, col: int, isEdge: bool) returns (out: ScreenManager)
    requires Valid(sm) && 0 <= col < sm.winW
    requires 0 <= wallH <= sm.winH
    ensures Valid(out) && out.winW == sm.winW && out.winH == sm.winH
    ensures OtherColumnsUnchanged(sm, out, col)
    ensures ColumnShows(out, col, CentredSkyRows(sm.winH, wallH), wallH, isEdge)
    ensures CentredSkyRows(sm.winH, wallH) + wallH + FloorRows(sm.winH, wallH) == sm.winH
    ensures CentredSkyRows(sm.winH, wallH) == FloorRows(sm.winH, wallH) + (sm.winH - wallH) % 2
  {
    var free := sm.winH - wallH;
    assert free == 2 * (free / 2) + free % 2;
    out := PaintColumn(sm, col, CentredSkyRows(sm.winH, wallH), wallH, FloorRows(sm.winH, wallH), isEdge);
  }
}
