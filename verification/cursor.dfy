/** src/libgui/cursor_compositor.c: the mouse cursor drawn over the
    desktop with the pixels beneath it saved and put back. The screen is
    an abstract pixel map read and written through system calls
    (syscall_read_pixel, and syscall_fill_rect with a 1x1 rectangle);
    two screens are the same when every pixel reads the same. */
module Cursor {

  const CurW: int := 12
  const CurH: int := 18

  type Canvas = (int, int) -> nat

  ghost predicate Same(a: Canvas, b: Canvas) {
    forall px, py :: a(px, py) == b(px, py)
  }

  /** The 12x18 pattern: 0 transparent, 1 black outline, 2 white fill. */
  const Pattern: seq<seq<nat>> := [
    [1,0,0,0,0,0,0,0,0,0,0,0],
    [1,1,0,0,0,0,0,0,0,0,0,0],
    [1,2,1,0,0,0,0,0,0,0,0,0],
    [1,2,2,1,0,0,0,0,0,0,0,0],
    [1,2,2,2,1,0,0,0,0,0,0,0],
    [1,2,2,2,2,1,0,0,0,0,0,0],
    [1,2,2,2,2,2,1,0,0,0,0,0],
    [1,2,2,2,2,2,2,1,0,0,0,0],
    [1,2,2,2,2,2,2,2,1,0,0,0],
    [1,2,2,2,2,2,2,2,2,1,0,0],
    [1,2,2,2,2,2,2,2,2,2,1,0],
    [1,2,2,2,2,2,1,1,1,1,1,1],
    [1,2,2,1,2,2,1,0,0,0,0,0],
    [1,2,1,0,1,2,2,1,0,0,0,0],
    [1,1,0,0,1,2,2,1,0,0,0,0],
    [1,0,0,0,0,1,2,2,1,0,0,0],
    [0,0,0,0,0,1,2,2,1,0,0,0],
    [0,0,0,0,0,0,1,1,1,0,0,0]]

  lemma PatternShape()
    ensures |Pattern| == CurH && forall iy :: 0 <= iy < CurH ==> |Pattern[iy]| == CurW
  {
  }

  /** Whether pixel (px, py) lies under a cursor drawn at (x, y). */
  predicate InArea(px: int, py: int, x: int, y: int) {
    x <= px < x + CurW && y <= py < y + CurH
  }

  /** The pattern cell over pixel (px, py) of a cursor at (x, y). */
  function Cell(px: int, py: int, x: int, y: int): nat
    requires InArea(px, py, x, y)
  {
    PatternShape();
    Pattern[py - y][px - x]
  }

  /** Outline cells are black, fill cells white. */
  function ShapeColor(v: nat): nat {
    if v == 1 then 0x000000 else 0xFFFFFF
  }

  /** cursor_draw_shape: every non-transparent cell is painted; the
      transparent ones keep what is beneath. */
  function DrawShape(fb: Canvas, x: int, y: int): (r: Canvas)
    ensures forall px, py :: r(px, py) == (if InArea(px, py, x, y) && Cell(px, py, x, y) != 0
                                           then ShapeColor(Cell(px, py, x, y)) else fb(px, py))
  {
    (px, py) => ShapePixel(fb, x, y, px, py)
  }

  function ShapePixel(fb: Canvas, x: int, y: int, px: int, py: int): nat {
    if InArea(px, py, x, y) && Cell(px, py, x, y) != 0 then ShapeColor(Cell(px, py, x, y)) else fb(px, py)
  }

  /** The saved background, row by row (cursor_backup[iy * 12 + ix]). */
  type Backup = seq<seq<nat>>

  predicate Shaped(b: Backup) {
    |b| == CurH && forall iy :: 0 <= iy < CurH ==> |b[iy]| == CurW
  }

  /** cursor_backup_area: the 12x18 pixels at (x, y), row-major. */
  function SaveArea(fb: Canvas, x: int, y: int): (r: Backup)
    ensures Shaped(r)
    ensures forall px, py :: InArea(px, py, x, y) ==> r[py - y][px - x] == fb(px, py)
  {
    var r := seq(CurH, iy => SaveRow(fb, x, y + iy));
    assert forall iy :: 0 <= iy < CurH ==> r[iy] == SaveRow(fb, x, y + iy);
    assert forall px, py :: InArea(px, py, x, y) ==> r[py - y] == SaveRow(fb, x, py);
    r
  }

  function SaveRow(fb: Canvas, x: int, y: int): (r: seq<nat>)
    ensures |r| == CurW && forall ix :: 0 <= ix < CurW ==> r[ix] == fb(x + ix, y)
  {
    seq(CurW, (ix: int) => fb(x + ix, y))
  }

  /** cursor_restore_area: every saved pixel goes back to its place. */
  function RestoreArea(fb: Canvas, x: int, y: int, b: Backup): (r: Canvas)
    requires Shaped(b)
    ensures forall px, py :: r(px, py) == (if InArea(px, py, x, y) then b[py - y][px - x] else fb(px, py))
  {
    (px, py) => if InArea(px, py, x, y) then b[py - y][px - x] else fb(px, py)
  }

  /** The last position drawn ((-1, -1) before the first draw) and the
      background saved there. */
  datatype Compositor = Compositor(curX: int, curY: int, backup: Backup)

  /** orbit_cursor_init: no cursor on the screen yet. The backup buffer
      is static storage and keeps its contents. */
  function Init(c: Compositor): (r: Compositor)
    ensures r.curX == -1 && r.curY == -1 && r.backup == c.backup
  {
    Compositor(-1, -1, c.backup)
  }

  datatype Drawn = Drawn(comp: Compositor, screen: Canvas)

  /** orbit_draw_cursor */
  function Draw(c: Compositor, fb: Canvas, x: int, y: int): (r: Drawn)
    requires c.curX >= 0 ==> Shaped(c.backup)
    ensures r.comp.curX >= 0 ==> Shaped(r.comp.backup)
    ensures x == c.curX && y == c.curY ==> r.comp == c && r.screen == fb
    ensures !(x == c.curX && y == c.curY) ==> r.comp.curX == x && r.comp.curY == y
  {
    if x == c.curX && y == c.curY then Drawn(c, fb)
    else
      var restored := if c.curX >= 0 then RestoreArea(fb, c.curX, c.curY, c.backup) else fb;
      Drawn(Compositor(x, y, SaveArea(restored, x, y)), DrawShape(restored, x, y))
  }

  /** The first draw after init restores nothing: it saves what is there
      and paints the shape over it. */
  lemma FirstDraw(c: Compositor, fb: Canvas, x: int, y: int)
    requires c.curX == -1 && c.curY == -1 && x >= 0
    ensures Draw(c, fb, x, y).screen == DrawShape(fb, x, y)
    ensures Draw(c, fb, x, y).comp.backup == SaveArea(fb, x, y)
  {
  }

  /** What the screen should look like over a background bg: bg itself
      with no cursor drawn, otherwise bg with the shape at the last
      position and bg's pixels from there in the backup. */
  ghost predicate Composed(c: Compositor, fb: Canvas, bg: Canvas) {
    if c.curX < 0 then Same(fb, bg)
    else c.backup == SaveArea(bg, c.curX, c.curY) && Same(fb, DrawShape(bg, c.curX, c.curY))
  }

  /** Moving the cursor leaves the background intact: after any draw at a
      non-negative column the screen is bg with the cursor only at the new
      position. */
  lemma DrawComposes(c: Compositor, fb: Canvas, bg: Canvas, x: int, y: int)
    requires Composed(c, fb, bg) && x >= 0
    ensures Composed(Draw(c, fb, x, y).comp, Draw(c, fb, x, y).screen, bg)
    ensures Same(Draw(c, fb, x, y).screen, DrawShape(bg, x, y))
  {
    if !(x == c.curX && y == c.curY) {
      var restored := if c.curX >= 0 then RestoreArea(fb, c.curX, c.curY, c.backup) else fb;
      assert Same(restored, bg);
      SameSave(restored, bg, x, y);
    }
  }

  lemma SameSave(a: Canvas, b: Canvas, x: int, y: int)
    requires Same(a, b)
    ensures SaveArea(a, x, y) == SaveArea(b, x, y)
  {
    var sa, sb := SaveArea(a, x, y), SaveArea(b, x, y);
    forall iy | 0 <= iy < CurH
      ensures sa[iy] == sb[iy]
    {
      assert sa[iy] == SaveRow(a, x, y + iy) && sb[iy] == SaveRow(b, x, y + iy);
      assert forall ix :: 0 <= ix < CurW ==> sa[iy][ix] == sb[iy][ix];
    }
  }
}
