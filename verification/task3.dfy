/** One pass of the loop of src/tasks/task3.c: a twenty-cell progress
    bar on row 23 from column 55 that grows by one per pass. The int
    counter overflowing is undefined behaviour in C, so passes are only
    modelled while it stays below INT_MAX. */
module Task3 {
  import Vga
  import Hex

  const IntMax: nat := 0x7FFF_FFFF
  /** Row 23, column 55. */
  const Pos: nat := 23 * 80 + 55
  const Cyan: nat := 11
  const BarWidth: nat := 20

  function BarLength(counter: nat): (r: nat)
    ensures r < BarWidth
  {
    counter % BarWidth
  }

  /** The body: '#' on the first bar_length cells, '-' on the rest of the
      twenty, then the counter steps. */
  method Pass(cells: seq<nat>, counter: nat) returns (r: seq<nat>, next: nat)
    requires |cells| == Vga.Cells && counter < IntMax
    ensures next == counter + 1
    ensures |r| == Vga.Cells
    ensures forall i :: Pos <= i < Pos + BarWidth ==>
              r[i] == Vga.AttrCell(Cyan, if i - Pos < BarLength(counter) then '#' else '-')
    ensures forall i :: 0 <= i < Vga.Cells && !(Pos <= i < Pos + BarWidth) ==> r[i] == cells[i]
  {
    var bar := counter % BarWidth;
    r := cells;
    var i := 0;
    while i < bar
      invariant 0 <= i <= bar && |r| == Vga.Cells
      invariant forall j :: Pos <= j < Pos + i ==> r[j] == Vga.AttrCell(Cyan, '#')
      invariant forall j :: 0 <= j < Vga.Cells && !(Pos <= j < Pos + i) ==> r[j] == cells[j]
    {
      r := r[Pos + i := Vga.AttrCell(Cyan, '#')];
      i := i + 1;
    }
    i := bar;
    while i < BarWidth
      invariant bar <= i <= BarWidth && |r| == Vga.Cells
      invariant forall j :: Pos <= j < Pos + i ==>
                  r[j] == Vga.AttrCell(Cyan, if j - Pos < bar then '#' else '-')
      invariant forall j :: 0 <= j < Vga.Cells && !(Pos <= j < Pos + i) ==> r[j] == cells[j]
    {
      r := r[Pos + i := Vga.AttrCell(Cyan, '-')];
      i := i + 1;
    }
    next := counter + 1;
  }

  /** The bar grows by one cell per pass and starts over after 19. */
  lemma BarGrows(counter: nat)
    ensures BarLength(counter + 1) == if BarLength(counter) == BarWidth - 1 then 0 else BarLength(counter) + 1
  {
    var q := counter / BarWidth;
    var b := counter % BarWidth;
    if b == BarWidth - 1 {
      Hex.DivModUnique(counter + 1, BarWidth, q + 1, 0);
    } else {
      Hex.DivModUnique(counter + 1, BarWidth, q, b + 1);
    }
  }
}
