/** The drawing of src/sysman/sysman.c, the first user program: glyphs
    from a 5x7 bitmap font, a gradient band, ten boxes and a border.
    syscall_put_pixel is taken to act as the kernel's put_pixel
    (Graphics.PutPixel); its kernel side is not part of this model. */
module Sysman {
  import opened Graphics
  import Hex

  const GlyphW: int := 5
  const GlyphH: int := 7

  /** `line & (1 << k)` for a font row and k < 5. */
  predicate FontBit(line: nat, k: int)
    requires 0 <= k < GlyphW
  {
    (line / [1, 2, 4, 8, 16][k]) % 2 == 1
  }

  /** Whether glyph `font` drawn at (x, y) covers pixel offset i: column
      col of row row is lit by bit 4 - col of font[row]. */
  predicate GlyphCovers(font: seq<nat>, x: int, y: int, i: int)
    requires |font| == GlyphH
  {
    var row, col := Row(i) - y, Col(i) - x;
    0 <= row < GlyphH && 0 <= col < GlyphW && FontBit(font[row], 4 - col)
  }

  /** draw_char: a pixel in colour for every lit bit, nothing else. */
  method DrawChar(fb: Frame, x: int, y: int, font: seq<nat>, color: nat) returns (r: Frame)
    requires |fb| == Pixels && |font| == GlyphH
    ensures |r| == Pixels
    ensures forall i :: 0 <= i < Pixels ==> r[i] == if GlyphCovers(font, x, y, i) then color else fb[i]
  {
    r := fb;
    var row := 0;
    while row < GlyphH
      invariant 0 <= row <= GlyphH && |r| == Pixels
      invariant forall i :: 0 <= i < Pixels ==>
                  r[i] == if GlyphCovers(font, x, y, i) && Row(i) - y < row then color else fb[i]
    {
      var line := font[row];
      var col := 0;
      while col < GlyphW
        invariant 0 <= col <= GlyphW && |r| == Pixels
        invariant forall i :: 0 <= i < Pixels ==>
                    r[i] == if GlyphCovers(font, x, y, i)
                               && (Row(i) - y < row || (Row(i) - y == row && Col(i) - x < col))
                            then color else fb[i]
      {
        if FontBit(line, 4 - col) {
          r := PutPixel(r, x + col, y + row, color);
        }
        col := col + 1;
      }
      row := row + 1;
    }
  }

  /** The colour of the gradient band at (x, y): (x + y) / 4, kept in an
      unsigned char. */
  function GradientColor(x: int, y: int): (r: nat)
    requires 0 <= x < Width && 0 <= y < 50
    ensures r <= 92
    ensures 4 * r <= x + y < 4 * r + 4
  {
    (x + y) / 4
  }

  /** The gradient loops: rows 0..49, every column. */
  method Gradient(fb: Frame) returns (r: Frame)
    requires |fb| == Pixels
    ensures |r| == Pixels
    ensures forall i :: 0 <= i < Pixels ==>
              r[i] == if Row(i) < 50 then GradientColor(Col(i), Row(i)) else fb[i]
  {
    r := fb;
    var y := 0;
    while y < 50
      invariant 0 <= y <= 50 && |r| == Pixels
      invariant forall i :: 0 <= i < Pixels ==>
                  r[i] == if Row(i) < y then GradientColor(Col(i), Row(i)) else fb[i]
    {
      var x := 0;
      while x < Width
        invariant 0 <= x <= Width && |r| == Pixels
        invariant forall i :: 0 <= i < Pixels ==>
                    r[i] == if Row(i) < y || (Row(i) == y && Col(i) < x) then GradientColor(Col(i), Row(i)) else fb[i]
      {
        r := PutPixel(r, x, y, (x + y) / 4);
        x := x + 1;
      }
      y := y + 1;
    }
  }

  /** Which of the ten boxes covers offset i: box k spans columns
      20 + 28k .. 20 + 28k + 24 and rows 150 .. 179. */
  function BoxAt(i: int): (r: int)
    requires 0 <= i < Pixels
    ensures -1 <= r < 10
    ensures 0 <= r ==> InRect(i, 20 + 28 * r, 150, 25, 30)
  {
    var c := Col(i) - 20;
    if 150 <= Row(i) < 180 && 0 <= c && c / 28 < 10 && c % 28 < 25 then
      assert c == 28 * (c / 28) + c % 28;
      c / 28
    else -1
  }

  /** A box's rectangle holds no pixel of any other box. */
  lemma BoxesApart(i: int, k: int)
    requires 0 <= i < Pixels && 0 <= k < 10
    ensures InRect(i, 20 + 28 * k, 150, 25, 30) <==> BoxAt(i) == k
  {
    var c := Col(i) - 20;
    if InRect(i, 20 + 28 * k, 150, 25, 30) {
      Hex.DivModUnique(c, 28, k, c - 28 * k);
    }
  }

  /** The box loop: box k filled with colour 2k + 4. */
  method Boxes(fb: Frame) returns (r: Frame)
    requires |fb| == Pixels
    ensures |r| == Pixels
    ensures forall i :: 0 <= i < Pixels ==> r[i] == if BoxAt(i) >= 0 then 2 * BoxAt(i) + 4 else fb[i]
  {
    r := fb;
    var k := 0;
    while k < 10
      invariant 0 <= k <= 10 && |r| == Pixels
      invariant forall i :: 0 <= i < Pixels ==> r[i] == if 0 <= BoxAt(i) < k then 2 * BoxAt(i) + 4 else fb[i]
    {
      var before := r;
      r := RectFilled(r, 20 + k * 28, 150, 25, 30, k * 2 + 4);
      forall i | 0 <= i < Pixels
        ensures r[i] == if 0 <= BoxAt(i) < k + 1 then 2 * BoxAt(i) + 4 else fb[i]
      {
        BoxesApart(i, k);
        assert 20 + k * 28 == 20 + 28 * k;
      }
      k := k + 1;
    }
  }

  predicate OnBorder(i: int) {
    Row(i) == 0 || Row(i) == Height - 1 || Col(i) == 0 || Col(i) == Width - 1
  }

  /** The border loops: rows 0 and 199, then columns 0 and 319. */
  method Border(fb: Frame) returns (r: Frame)
    requires |fb| == Pixels
    ensures |r| == Pixels
    ensures forall i :: 0 <= i < Pixels ==> r[i] == if OnBorder(i) then 15 else fb[i]
  {
    r := fb;
    var x := 0;
    while x < Width
      invariant 0 <= x <= Width && |r| == Pixels
      invariant forall i :: 0 <= i < Pixels ==>
                  r[i] == if (Row(i) == 0 || Row(i) == Height - 1) && Col(i) < x then 15 else fb[i]
    {
      r := PutPixel(r, x, 0, 15);
      r := PutPixel(r, x, Height - 1, 15);
      x := x + 1;
    }
    var y := 0;
    while y < Height
      invariant 0 <= y <= Height && |r| == Pixels
      invariant forall i :: 0 <= i < Pixels ==>
                  r[i] == if Row(i) == 0 || Row(i) == Height - 1 || ((Col(i) == 0 || Col(i) == Width - 1) && Row(i) < y)
                          then 15 else fb[i]
    {
      r := PutPixel(r, 0, y, 15);
      r := PutPixel(r, Width - 1, y, 15);
      y := y + 1;
    }
  }
}
