/** One pass of the loop of src/tasks/task2.c: a linear congruential
    generator picks one of ten cricket shots, printed on row 14 from
    column 30. The busy-wait that yields is left out. */
module Task2 {
  import Vga
  import Hex
  import opened Uint32

  const Multiplier: nat := 1103515245
  const Increment: nat := 12345
  const InitialSeed: nat := 987654321
  /** Row 14, column 30. */
  const Pos: nat := 14 * 80 + 30
  const Yellow: nat := 14

  const Shots: seq<string> := ["Six!    ", "Four!   ", "1 Run   ", "Catch!  ", "Sweep   ",
                               "Drive   ", "Pull    ", "Cut     ", "Bouncer ", "Wicket! "]

  /** rand_simple2: the unsigned seed update wraps modulo 2^32; the result
      is bits 16..30 of the new seed. */
  function Rand(seed: nat): (r: (nat, nat))
    requires seed < TwoTo32
    ensures r.0 < TwoTo32 && r.0 == (seed * Multiplier + Increment) % TwoTo32
    ensures r.1 < 32768
  {
    var next := (seed * Multiplier + Increment) % TwoTo32;
    (next, (next / 65536) % 32768)
  }

  /** Every shot is eight characters with no NUL, so the print loop
      always writes exactly eight cells. */
  lemma ShotsShape()
    ensures |Shots| == 10
    ensures forall k :: 0 <= k < 10 ==> |Shots[k]| == 8 && forall j :: 0 <= j < 8 ==> Shots[k][j] != '\0'
  {
  }

  /** The body: draw a number, keep its last decimal digit, print that
      shot until its NUL. */
  method Pass(cells: seq<nat>, seed: nat) returns (r: seq<nat>, nextSeed: nat, shot: nat)
    requires |cells| == Vga.Cells && seed < TwoTo32
    ensures nextSeed == Rand(seed).0 && shot == Rand(seed).1 % 10 && shot < 10
    ensures |r| == Vga.Cells
    ensures forall i :: Pos <= i < Pos + 8 ==> r[i] == Vga.AttrCell(Yellow, Shots[shot][i - Pos])
    ensures forall i :: 0 <= i < Vga.Cells && !(Pos <= i < Pos + 8) ==> r[i] == cells[i]
  {
    var drawn := Rand(seed);
    nextSeed := drawn.0;
    shot := drawn.1 % 10;
    var text := Shots[shot];
    ShotsShape();
    r := cells;
    var i := 0;
    while i < |text| && text[i] != '\0'
      invariant 0 <= i <= 8 && |r| == Vga.Cells
      invariant forall j :: Pos <= j < Pos + i ==> r[j] == Vga.AttrCell(Yellow, text[j - Pos])
      invariant forall j :: 0 <= j < Vga.Cells && !(Pos <= j < Pos + i) ==> r[j] == cells[j]
    {
      r := r[Pos + i := Vga.AttrCell(Yellow, text[i])];
      i := i + 1;
    }
  }

  /** The drawn number is the new seed's bits 16..30: the seed below
      2^31, shifted right by 16. */
  lemma RandBits(seed: nat)
    requires seed < TwoTo32
    ensures Rand(seed).1 == (Rand(seed).0 % 0x8000_0000) / 65536
  {
    var n := Rand(seed).0;
    var q := n / 0x8000_0000;
    var m := n % 0x8000_0000;
    var hi := m / 65536;
    var lo := m % 65536;
    assert m == 65536 * hi + lo;
    assert n == 65536 * (32768 * q + hi) + lo;
    Hex.DivModUnique(n, 65536, 32768 * q + hi, lo);
    Hex.DivBelow(m, 65536, 32768);
    Hex.DivModUnique(32768 * q + hi, 32768, q, hi);
  }
}
