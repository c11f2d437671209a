/** src/managers/timer/pit.c: programming channel 0 of the 8253/8254
    interval timer and counting its interrupts. Port writes are the
    output of pit_init; the busy-wait of pit_wait is left out. */
module Pit {
  import opened Options
  import Hex
  import opened Uint32
  import Scheduler

  const PitFrequency: nat := 1193182
  const Channel0: nat := 0x40
  const CommandPort: nat := 0x43
  /** Channel 0, low byte then high byte, rate generator. */
  const RateGenerator: nat := 0x36

  datatype Out = Out(port: nat, value: nat)

  /** PIT_FREQUENCY / frequency in unsigned arithmetic; a zero frequency
      is a division by zero, so there is no divisor. */
  function Divisor(frequency: nat): (r: Option<nat>)
    requires frequency < TwoTo32
    ensures r.None? <==> frequency == 0
    ensures r.Some? ==> r.value * frequency <= PitFrequency < (r.value + 1) * frequency
  {
    if frequency == 0 then None else Some(PitFrequency / frequency)
  }

  /** pit_init: the command byte, then the divisor's low and high bytes
      (`d & 0xFF` and `(d >> 8) & 0xFF`). */
  function Init(frequency: nat): (r: Option<seq<Out>>)
    requires frequency < TwoTo32
    ensures r.None? <==> frequency == 0
    ensures r.Some? ==> |r.value| == 3 && r.value[0] == Out(CommandPort, RateGenerator)
                        && r.value[1].port == Channel0 && r.value[2].port == Channel0
                        && r.value[1].value < 256 && r.value[2].value < 256
  {
    match Divisor(frequency)
    case None => None
    case Some(d) => Some([Out(CommandPort, RateGenerator), Out(Channel0, d % 256), Out(Channel0, (d / 256) % 256)])
  }

  /** The two data bytes, low first, give back the divisor modulo 2^16:
      for frequencies below 19 Hz the divisor does not fit and is cut. */
  lemma InitBytesReconstruct(frequency: nat)
    requires 0 < frequency < TwoTo32
    ensures Init(frequency).Some?
    ensures var w := Init(frequency).value;
            w[1].value + 256 * w[2].value == Divisor(frequency).value % 0x1_0000
  {
    ByteSplit(PitFrequency / frequency);
  }

  /** `d & 0xFF` and `(d >> 8) & 0xFF` are the two low bytes of d. */
  lemma ByteSplit(d: nat)
    ensures d % 256 + 256 * ((d / 256) % 256) == d % 0x1_0000
  {
    var lo := d % 256;
    var hi := (d / 256) % 256;
    var q := d / 0x1_0000;
    DivDiv256(d);
    Hex.DivModUnique(d / 256, 256, q, hi);
    assert d == 0x1_0000 * q + (256 * hi + lo);
    Hex.DivModUnique(d, 0x1_0000, q, 256 * hi + lo);
  }

  lemma DivDiv256(d: nat)
    ensures (d / 256) / 256 == d / 0x1_0000
  {
    var q := d / 0x1_0000;
    var r := d % 0x1_0000;
    Hex.DivModUnique(d, 256, 256 * q + r / 256, r % 256);
    Hex.DivModUnique(d / 256, 256, q, r / 256);
  }

  /** The kernel asks for 1000 Hz: divisor 1193, sent as 0xA9, 0x04. */
  lemma KernelRate()
    ensures Init(1000) == Some([Out(CommandPort, RateGenerator), Out(Channel0, 0xA9), Out(Channel0, 0x04)])
  {
  }

  /** pit_handler: the unsigned tick counter goes up by one and wraps. */
  function Tick(ticks: nat): (r: nat)
    requires ticks < TwoTo32
    ensures r < TwoTo32
    ensures ticks + 1 < TwoTo32 ==> r == ticks + 1
    ensures ticks + 1 == TwoTo32 ==> r == 0
  {
    (ticks + 1) % TwoTo32
  }

  /** pit_handler: one more tick, then scheduler_tick, which starts the
      oldest queued process when scheduling is on and the queue is not
      empty, and otherwise changes nothing. */
  function Handler(ticks: nat, s: Scheduler.Sched): (r: (nat, Scheduler.Tick))
    requires ticks < TwoTo32 && Scheduler.Valid(s)
    ensures r.0 == (ticks + 1) % TwoTo32 && Scheduler.Valid(r.1.sched)
    ensures !s.enabled || s.count == 0 ==> r.1.sched == s && r.1.started == None
    ensures s.enabled && s.count > 0 ==>
      && r.1.started == Some(Scheduler.Contents(s)[0])
      && Scheduler.Contents(r.1.sched) == Scheduler.Contents(s)[1..]
  {
    (Tick(ticks), Scheduler.SchedulerTick(s))
  }

  /** Ticks after n interrupts. */
  function TickN(ticks: nat, n: nat): (r: nat)
    requires ticks < TwoTo32
    ensures r < TwoTo32
  {
    if n == 0 then ticks else Tick(TickN(ticks, n - 1))
  }

  /** n interrupts add n to the counter modulo 2^32. */
  lemma {:induction false} TickNCounts(ticks: nat, n: nat)
    requires ticks < TwoTo32
    ensures TickN(ticks, n) == (ticks + n) % TwoTo32
  {
    if n > 0 {
      TickNCounts(ticks, n - 1);
      TickMod(ticks + n - 1);
    }
  }

  /** One tick on a value reduced modulo 2^32 is the reduction of the
      successor. */
  lemma TickMod(m: nat)
    ensures Tick(m % TwoTo32) == (m + 1) % TwoTo32
  {
    var prev, q := m % TwoTo32, m / TwoTo32;
    assert m + 1 == TwoTo32 * q + prev + 1;
    if prev + 1 < TwoTo32 {
      Hex.DivModUnique(m + 1, TwoTo32, q, prev + 1);
    } else {
      Hex.DivModUnique(m + 1, TwoTo32, q + 1, 0);
    }
  }
}
