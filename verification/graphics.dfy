/** src/drivers/graphics.c: drawing into the 320x200 mode-13h frame
    buffer, one colour byte per pixel. Setting the mode (register
    programming) is left out. */
module Graphics {
  import Hex

  const Width: int := 320
  const Height: int := 200
  const Pixels: int := 64000

  /** The frame buffer: Pixels colour bytes, row after row. */
  type Frame = seq<nat>

  function Col(i: int): int { i % Width }
  function Row(i: int): int { i / Width }

  predicate OnScreen(x: int, y: int) {
    0 <= x < Width && 0 <= y < Height
  }

  /** Offset y * 320 + x names the pixel (x, y) and no other. */
  lemma PixelIndex(i: int, x: int, y: int)
    requires 0 <= i < Pixels && OnScreen(x, y)
    ensures (i == y * Width + x) <==> (Row(i) == y && Col(i) == x)
  {
    if i == y * Width + x {
      Hex.DivModUnique(i, Width, y, x);
    }
  }

  /** put_pixel: the pixel changes when (x, y) is on the screen. */
  function PutPixel(fb: Frame, x: int, y: int, color: nat): (r: Frame)
    requires |fb| == Pixels
    ensures |r| == Pixels
    ensures forall i :: 0 <= i < Pixels ==>
              r[i] == (if Row(i) == y && Col(i) == x then color else fb[i])
  {
    if OnScreen(x, y) then
      assert forall i :: 0 <= i < Pixels ==> ((i == y * Width + x) <==> (Row(i) == y && Col(i) == x)) by {
        forall i | 0 <= i < Pixels {
          PixelIndex(i, x, y);
        }
      }
      fb[y * Width + x := color]
    else
      fb
  }

  /** Off-screen coordinates are clipped: nothing changes. */
  lemma PutPixelClips(fb: Frame, x: int, y: int, color: nat)
    requires |fb| == Pixels && !OnScreen(x, y)
    ensures PutPixel(fb, x, y, color) == fb
  {
    var r := PutPixel(fb, x, y, color);
    forall i | 0 <= i < Pixels
      ensures r[i] == fb[i]
    {
      assert 0 <= Col(i) < Width && 0 <= Row(i) < Height;
    }
  }

  /** put_pixel at (x0 + k, y) for k from 0 while x0 + k < x1: the run
      of one row that draw_rect_filled and draw_line both produce. */
  method RowSpan(fb: Frame, x0: int, x1: int, y: int, color: nat) returns (r: Frame)
    requires |fb| == Pixels
    ensures |r| == Pixels
    ensures forall i :: 0 <= i < Pixels ==>
              r[i] == (if Row(i) == y && x0 <= Col(i) < x1 then color else fb[i])
  {
    r := fb;
    var x := x0;
    while x < x1
      invariant x0 < x1 ==> x0 <= x <= x1
      invariant x1 <= x0 ==> x == x0 && r == fb
      invariant |r| == Pixels
      invariant forall i :: 0 <= i < Pixels ==>
                  r[i] == (if Row(i) == y && x0 <= Col(i) < x then color else fb[i])
    {
      r := PutPixel(r, x, y, color);
      x := x + 1;
    }
  }

  /** The same run down one column. */
  method ColumnSpan(fb: Frame, x: int, y0: int, y1: int, color: nat) returns (r: Frame)
    requires |fb| == Pixels
    ensures |r| == Pixels
    ensures forall i :: 0 <= i < Pixels ==>
              r[i] == (if Col(i) == x && y0 <= Row(i) < y1 then color else fb[i])
  {
    r := fb;
    var y := y0;
    while y < y1
      invariant y0 < y1 ==> y0 <= y <= y1
      invariant y1 <= y0 ==> y == y0 && r == fb
      invariant |r| == Pixels
      invariant forall i :: 0 <= i < Pixels ==>
                  r[i] == (if Col(i) == x && y0 <= Row(i) < y then color else fb[i])
    {
      r := PutPixel(r, x, y, color);
      y := y + 1;
    }
  }

  predicate InRect(i: int, x: int, y: int, width: int, height: int) {
    x <= Col(i) < x + width && y <= Row(i) < y + height
  }

  /** draw_rect_filled: rows y .. y + height - 1, each from x for width
      pixels, clipped pixel by pixel. */
  method RectFilled(fb: Frame, x: int, y: int, width: int, height: int, color: nat) returns (r: Frame)
    requires |fb| == Pixels
    ensures |r| == Pixels
    ensures forall i :: 0 <= i < Pixels ==>
              r[i] == (if InRect(i, x, y, width, height) then color else fb[i])
  {
    r := fb;
    var row := 0;
    while row < height
      invariant 0 < height ==> 0 <= row <= height
      invariant height <= 0 ==> row == 0 && r == fb
      invariant |r| == Pixels
      invariant forall i :: 0 <= i < Pixels ==>
                  r[i] == (if InRect(i, x, y, width, row) then color else fb[i])
    {
      r := RowSpan(r, x, x + width, y + row, color);
      row := row + 1;
    }
  }

  /** draw_line: only horizontal or vertical lines are drawn, both ends
      included, in either direction; any other line draws nothing. */
  method Line(fb: Frame, x1: int, y1: int, x2: int, y2: int, color: nat) returns (r: Frame)
    requires |fb| == Pixels
    ensures |r| == Pixels
    ensures y1 == y2 ==> forall i :: 0 <= i < Pixels ==>
              r[i] == (if Row(i) == y1 && Min(x1, x2) <= Col(i) <= Max(x1, x2) then color else fb[i])
    ensures y1 != y2 && x1 == x2 ==> forall i :: 0 <= i < Pixels ==>
              r[i] == (if Col(i) == x1 && Min(y1, y2) <= Row(i) <= Max(y1, y2) then color else fb[i])
    ensures y1 != y2 && x1 != x2 ==> r == fb
  {
    if y1 == y2 {
      var start := if x1 < x2 then x1 else x2;
      var end := if x1 < x2 then x2 else x1;
      r := RowSpan(fb, start, end + 1, y1, color);
    } else if x1 == x2 {
      var start := if y1 < y2 then y1 else y2;
      var end := if y1 < y2 then y2 else y1;
      r := ColumnSpan(fb, x1, start, end + 1, color);
    } else {
      r := fb;
    }
  }

  function Min(a: int, b: int): int { if a < b then a else b }
  function Max(a: int, b: int): int { if a < b then b else a }

  /** clear_screen */
  function ClearScreen(color: nat): (r: Frame)
    ensures |r| == Pixels && forall i :: 0 <= i < Pixels ==> r[i] == color
  {
    seq(Pixels, _ => color)
  }
}
