/** src/drivers/vga.c: the 80x25 text console. The screen is the
    sequence of its 2000 16-bit cells (attribute byte above character
    byte) and the cursor (x, y); every printer is a step on that state. */
module Vga {
  import Decimal
  import CStrings
  import Hex

  const Width: nat := 80
  const Height: nat := 25
  const Cells: nat := 2000
  const Attr: nat := 0x07

  /** A text cell: the attribute byte above the character byte. */
  function AttrCell(attr: nat, c: char): (r: nat)
    requires attr < 256
    ensures r / 256 == attr && r % 256 == (c as int) % 256
  {
    attr * 256 + (c as int) % 256
  }

  /** (VGA_ATTR << 8) | (unsigned char)c */
  function Cell(c: char): (r: nat)
    ensures r / 256 == Attr && r % 256 == (c as int) % 256
  {
    AttrCell(Attr, c)
  }

  const Blank: nat := Cell(' ')

  datatype Screen = Screen(cells: seq<nat>, x: int, y: int)

  /** x may reach 80 (the wrap is deferred to the next character); y
      never leaves the last row. */
  predicate Valid(s: Screen) {
    |s.cells| == Cells && 0 <= s.x <= Width && 0 <= s.y < Height
  }

  /** vga_clear */
  function Clear(s: Screen): (r: Screen)
    requires |s.cells| == Cells
    ensures Valid(r) && r.x == 0 && r.y == 0
    ensures forall i :: 0 <= i < Cells ==> r.cells[i] == Blank
  {
    Screen(seq(Cells, _ => Blank), 0, 0)
  }

  /** One line down, staying on the last row. */
  function NextRow(y: int): int {
    if y + 1 >= Height then Height - 1 else y + 1
  }

  /** Where a printable character lands: after a deferred wrap if the
      cursor sits past the last column. */
  function Target(s: Screen): (r: (int, int))
    requires Valid(s)
    ensures 0 <= r.0 < Width && 0 <= r.1 < Height
  {
    if s.x >= Width then (0, NextRow(s.y)) else (s.x, s.y)
  }

  /** vga_putchar */
  function PutChar(s: Screen, c: char): (r: Screen)
    requires Valid(s)
    ensures Valid(r)
    ensures c == '\n' ==> r.cells == s.cells && r.x == 0 && r.y == NextRow(s.y)
    ensures c != '\n' ==>
      var (tx, ty) := Target(s);
      r.x == tx + 1 && r.y == ty && |r.cells| == |s.cells|
      && r.cells[ty * Width + tx] == Cell(c)
      && forall i :: 0 <= i < Cells && i != ty * Width + tx ==> r.cells[i] == s.cells[i]
  {
    if c == '\n' then Screen(s.cells, 0, NextRow(s.y))
    else
      var (x, y) := if s.x >= Width then (0, NextRow(s.y)) else (s.x, s.y);
      Screen(s.cells[y * Width + x := Cell(c)], x + 1, y)
  }

  /** vga_putchar applied to each character of t in order. */
  function PutAll(s: Screen, t: string): (r: Screen)
    requires Valid(s)
    ensures Valid(r)
    decreases |t|
  {
    if |t| == 0 then s else PutChar(PutAll(s, t[..|t| - 1]), t[|t| - 1])
  }

  lemma {:induction false} PutAllAppend(s: Screen, a: string, b: string)
    requires Valid(s)
    ensures PutAll(s, a + b) == PutAll(PutAll(s, a), b)
    decreases |b|
  {
    if |b| > 0 {
      assert (a + b)[..|a + b| - 1] == a + b[..|b| - 1];
      PutAllAppend(s, a, b[..|b| - 1]);
    } else {
      assert a + b == a;
    }
  }

  /** vga_print (and vga_puts): its own loop, which repeats the steps of
      vga_putchar on each character up to the terminating NUL. */
  method Print(s: Screen, text: string) returns (r: Screen)
    requires Valid(s)
    ensures r == PutAll(s, CStrings.CString(text))
  {
    r := s;
    var i := 0;
    ghost var printed := CStrings.CString(text);
    while i < |text| && text[i] != '\0'
      invariant 0 <= i <= |printed|
      invariant Valid(r) && r == PutAll(s, printed[..i])
    {
      assert i < |printed| && printed[i] == text[i];
      ghost var before := r;
      if text[i] == '\n' {
        r := Screen(r.cells, 0, NextRow(r.y));
      } else {
        var x := r.x;
        var y := r.y;
        if x >= Width {
          x := 0;
          y := NextRow(y);
        }
        var pos := y * Width + x;
        r := Screen(r.cells[pos := Cell(text[i])], x + 1, y);
      }
      assert r == PutChar(before, printed[i]);
      assert printed[..i + 1][..i] == printed[..i];
      i := i + 1;
    }
    assert printed[..i] == printed;
  }

  /** The characters of t land side by side on one row when they fit. */
  lemma {:induction false} PutAllRow(s: Screen, t: string, i: nat)
    requires Valid(s) && s.x + |t| <= Width
    requires forall k :: 0 <= k < |t| ==> t[k] != '\n'
    requires i < |t|
    ensures PutAll(s, t).cells[s.y * Width + s.x + i] == Cell(t[i])
    ensures PutAll(s, t).x == s.x + |t| && PutAll(s, t).y == s.y
    decreases |t|
  {
    var u := t[..|t| - 1];
    if |u| > 0 {
      PutAllRow(s, u, if i < |u| then i else 0);
    }
    if i < |u| {
      assert u[i] == t[i];
    }
  }

  /** vga_putint: the magnitude's digits collected least significant
      first in a buffer, then '-' if negative, then the buffer backwards. */
  method PutInt(s: Screen, num: int) returns (r: Screen)
    requires Valid(s)
    requires Decimal.IsInt32(num) && num != Decimal.IntMin
    ensures r == PutAll(s, Decimal.SignedText(num))
  {
    if num == 0 {
      r := PutChar(s, '0');
      assert PutAll(s, "0") == PutChar(PutAll(s, ""), '0');
      return;
    }
    var m := if num < 0 then -num else num;
    var buffer := Decimal.CollectDigits(m);
    r := s;
    if num < 0 {
      r := PutChar(r, '-');
      assert PutAll(s, "-") == PutChar(PutAll(s, ""), '-');
    }
    r := PutBackwards(r, buffer);
    if num < 0 {
      PutAllAppend(s, "-", Decimal.Reverse(buffer));
    }
  }

  /** The output loop of vga_putint: the buffer from its last character
      down to its first. */
  method PutBackwards(s: Screen, buffer: string) returns (r: Screen)
    requires Valid(s)
    ensures r == PutAll(s, Decimal.Reverse(buffer))
  {
    r := s;
    ghost var digits := Decimal.Reverse(buffer);
    var i := |buffer| - 1;
    while i >= 0
      invariant -1 <= i < |buffer|
      invariant Valid(r) && r == PutAll(s, digits[..|buffer| - 1 - i])
    {
      Decimal.ReverseIndex(buffer, |buffer| - 1 - i);
      assert digits[..|buffer| - i][..|buffer| - 1 - i] == digits[..|buffer| - 1 - i];
      r := PutChar(r, buffer[i]);
      i := i - 1;
    }
    assert digits[..|buffer|] == digits;
  }

  /** The digit loop of vga_put_hex: positions filled from the last,
      each with the low nibble of the value shifted right four bits more. */
  method HexText(val: nat) returns (hex: string)
    requires val < 0x1_0000_0000
    ensures hex == Hex.HexDigits(val, 8, false)
  {
    hex := "00000000";
    var v := val;
    var i := 7;
    while i >= 0
      invariant -1 <= i <= 7 && |hex| == 8
      invariant v == val / Hex.Pow16(7 - i)
      invariant forall j :: i < j < 8 ==> hex[j] == Hex.HexChar(Hex.Nibble(val, 7 - j), false)
    {
      hex := hex[i := Hex.HexChar(v % 16, false)];
      Hex.DivPow16Step(val, 7 - i);
      v := v / 16;
      i := i - 1;
    }
    forall j | 0 <= j < 8
      ensures hex[j] == Hex.HexDigits(val, 8, false)[j]
    {
      Hex.HexDigitsIndex(val, 8, false, j);
    }
  }

  /** vga_put_hex: exactly eight lower-case digits, zero-padded, most
      significant first. */
  method PutHex(s: Screen, val: nat) returns (r: Screen)
    requires Valid(s) && val < 0x1_0000_0000
    ensures r == PutAll(s, Hex.HexDigits(val, 8, false))
  {
    var hex := HexText(val);
    forall j | 0 <= j < 8
      ensures hex[j] != '\0'
    {
      Hex.HexDigitsIndex(val, 8, false, j);
    }
    CStrings.CStringOfPlain(hex);
    r := Print(s, hex + ['\0']);
  }
}
