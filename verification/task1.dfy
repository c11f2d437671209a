/** One pass of the loop of src/tasks/task1.c: the letters A..J grow on
    row 5 from column 10, cycling through three colours. The busy-wait
    that yields is left out. */
module Task1 {
  import Vga
  import Hex

  const Letters: string := "ABCDEFGHIJ"
  const Colors: seq<nat> := [10, 12, 9]
  /** Row 5, column 10. */
  const Pos: nat := 5 * 80 + 10

  datatype State = State(colorIndex: int, letterIndex: int)

  predicate Valid(st: State) {
    0 <= st.colorIndex < 3 && 0 <= st.letterIndex < 10
  }

  /** The index update at the end of a pass. */
  function Next(st: State): (r: State)
    requires Valid(st)
    ensures Valid(r)
    ensures st.letterIndex < 9 ==> r == State(st.colorIndex, st.letterIndex + 1)
    ensures st.letterIndex == 9 ==> r.letterIndex == 0 && r.colorIndex == (st.colorIndex + 1) % 3
  {
    if st.letterIndex + 1 >= 10 then State((st.colorIndex + 1) % 3, 0)
    else State(st.colorIndex, st.letterIndex + 1)
  }

  /** The cell at column 10 + k after a pass from st. */
  function Expected(st: State, k: nat): nat
    requires Valid(st) && k < 10
  {
    Vga.AttrCell(Colors[st.colorIndex], if k <= st.letterIndex then Letters[k] else ' ')
  }

  /** The body: ten spaces in the colour, then the first letterIndex + 1
      letters over them; nothing outside the ten cells is written. */
  method Pass(cells: seq<nat>, st: State) returns (r: seq<nat>, next: State)
    requires |cells| == Vga.Cells && Valid(st)
    ensures |r| == Vga.Cells && next == Next(st)
    ensures forall i :: Pos <= i < Pos + 10 ==> r[i] == Expected(st, i - Pos)
    ensures forall i :: 0 <= i < Vga.Cells && !(Pos <= i < Pos + 10) ==> r[i] == cells[i]
  {
    var attr := Colors[st.colorIndex];
    r := cells;
    var k := 0;
    while k < 10
      invariant 0 <= k <= 10 && |r| == Vga.Cells
      invariant forall j :: Pos <= j < Pos + k ==> r[j] == Vga.AttrCell(attr, ' ')
      invariant forall i :: 0 <= i < Vga.Cells && !(Pos <= i < Pos + k) ==> r[i] == cells[i]
    {
      r := r[Pos + k := Vga.AttrCell(attr, ' ')];
      k := k + 1;
    }
    var i := 0;
    while i <= st.letterIndex && i < 10
      invariant 0 <= i <= st.letterIndex + 1 && i <= 10 && |r| == Vga.Cells
      invariant forall j :: Pos <= j < Pos + 10 ==> r[j] == Vga.AttrCell(attr, if j - Pos < i then Letters[j - Pos] else ' ')
      invariant forall n :: 0 <= n < Vga.Cells && !(Pos <= n < Pos + 10) ==> r[n] == cells[n]
    {
      r := r[Pos + i := Vga.AttrCell(attr, Letters[i])];
      i := i + 1;
    }
    next := Next(st);
  }

  /** The state after n passes from the start (both indices 0): the
      letter count runs 0..9 and the colour moves on once per ten. */
  function After(n: nat): (r: State)
    ensures Valid(r)
  {
    if n == 0 then State(0, 0) else Next(After(n - 1))
  }

  lemma {:induction false} AfterCounts(n: nat)
    ensures After(n) == State((n / 10) % 3, n % 10)
  {
    if n > 0 {
      AfterCounts(n - 1);
      var m := n - 1;
      if m % 10 < 9 {
        Hex.DivModUnique(n, 10, m / 10, m % 10 + 1);
      } else {
        Hex.DivModUnique(n, 10, m / 10 + 1, 0);
        var c := (m / 10) % 3;
        Hex.DivModUnique(m / 10 + 1, 3, (m / 10) / 3 + (if c == 2 then 1 else 0), if c == 2 then 0 else c + 1);
      }
    }
  }
}
