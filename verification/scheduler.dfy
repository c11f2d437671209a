/** src/managers/scheduler/scheduler.c: a bounded circular queue of
    processes waiting for their first run, drained by the timer tick. */
module Scheduler {
  import opened Options

  const Capacity: nat := 16

  /** queued_process_t */
  datatype Queued = Queued(pid: int, entryPoint: nat, userStack: nat, kernelStack: nat)

  datatype Sched = Sched(currentPid: int, enabled: bool, ring: seq<Queued>,
                         head: nat, tail: nat, count: nat)

  predicate Valid(s: Sched)
  {
    && |s.ring| == Capacity
    && s.head < Capacity && s.tail < Capacity && s.count <= Capacity
    && s.tail == (s.head + s.count) % Capacity
  }

  /** The queue in FIFO order, oldest first. */
  function Contents(s: Sched): (q: seq<Queued>)
    requires Valid(s)
    ensures |q| == s.count
  {
    seq(s.count, i requires 0 <= i < s.count => s.ring[(s.head + i) % Capacity])
  }

  /** The state at boot: zeroed statics, with current_pid -1. */
  function Boot(): (s: Sched)
    ensures Valid(s) && Contents(s) == [] && s.currentPid == -1 && !s.enabled
  {
    Sched(-1, false, seq(Capacity, _ => Queued(0, 0, 0, 0)), 0, 0, 0)
  }

  /** scheduler_init: resets current_pid and the flag, not the queue. */
  function Init(s: Sched): (r: Sched)
    requires Valid(s)
    ensures Valid(r) && Contents(r) == Contents(s)
    ensures r.currentPid == -1 && !r.enabled
  {
    s.(currentPid := -1, enabled := false)
  }

  function Enable(s: Sched): (r: Sched)
    requires Valid(s)
    ensures Valid(r) && r.enabled && r == s.(enabled := true)
  {
    s.(enabled := true)
  }

  function Disable(s: Sched): (r: Sched)
    requires Valid(s)
    ensures Valid(r) && !r.enabled && r == s.(enabled := false)
  {
    s.(enabled := false)
  }

  lemma ModDistinct(h: nat, i: nat, j: nat)
    requires i < j < h + Capacity && j - i < Capacity
    ensures (h + i) % Capacity != (h + j) % Capacity
  {
  }

  /** Reducing modulo 16 before adding does not change the slot. */
  lemma ModPlus(a: nat, b: nat)
    ensures (a % Capacity + b) % Capacity == (a + b) % Capacity
  {
    var q := a / Capacity;
    assert a == Capacity * q + a % Capacity;
    assert a % Capacity + b == (a + b) - Capacity * q;
  }

  /** scheduler_add_process: dropped when the queue holds 16 entries,
      otherwise appended at the tail. */
  function AddProcess(s: Sched, p: Queued): (r: Sched)
    requires Valid(s)
    ensures Valid(r)
    ensures s.count >= Capacity ==> r == s
    ensures s.count < Capacity ==> Contents(r) == Contents(s) + [p]
    ensures r.currentPid == s.currentPid && r.enabled == s.enabled
  {
    if s.count >= Capacity then s
    else
      AppendAtTail(s, p);
      s.(ring := s.ring[s.tail := p], tail := (s.tail + 1) % Capacity, count := s.count + 1)
  }

  /** Writing at the tail and advancing it appends to the queue. */
  lemma AppendAtTail(s: Sched, p: Queued)
    requires Valid(s) && s.count < Capacity
    ensures var r := s.(ring := s.ring[s.tail := p], tail := (s.tail + 1) % Capacity, count := s.count + 1);
      Valid(r) && Contents(r) == Contents(s) + [p]
  {
    var r := s.(ring := s.ring[s.tail := p], tail := (s.tail + 1) % Capacity, count := s.count + 1);
    ModPlus(s.head + s.count, 1);
    var q, q' := Contents(r), Contents(s);
    forall i | 0 <= i < s.count
      ensures q[i] == q'[i]
    {
      ModDistinct(s.head, i, s.count);
    }
    assert q[s.count] == p;
    assert q == q' + [p];
  }

  /** What a tick does before it leaves the kernel: nothing, or a switch
      into the given process (the TSS kernel stack is set to its stack). */
  datatype Tick = Tick(sched: Sched, started: Option<Queued>)

  /** scheduler_tick up to the jump into ring 3. */
  function SchedulerTick(s: Sched): (r: Tick)
    requires Valid(s)
    ensures Valid(r.sched)
    ensures !s.enabled || s.count == 0 ==> r == Tick(s, None)
    ensures s.enabled && s.count > 0 ==>
      && r.started == Some(Contents(s)[0])
      && Contents(r.sched) == Contents(s)[1..]
      && r.sched.currentPid == Contents(s)[0].pid
      && r.sched.enabled
  {
    if !s.enabled || s.count == 0 then Tick(s, None)
    else
      var p := s.ring[s.head];
      TakeOldest(s, p.pid);
      Tick(s.(head := (s.head + 1) % Capacity, count := s.count - 1, currentPid := p.pid), Some(p))
  }

  /** Advancing the head keeps the tail where head + count puts it. */
  lemma HeadAdvances(s: Sched, pid: int)
    requires Valid(s) && s.count > 0
    ensures Valid(s.(head := (s.head + 1) % Capacity, count := s.count - 1, currentPid := pid))
  {
    ModPlus(s.head + 1, s.count - 1);
  }

  /** Entry i after the head has advanced is entry i + 1 before. */
  lemma SlotShift(s: Sched, i: nat)
    requires Valid(s) && i + 1 < s.count
    ensures s.ring[((s.head + 1) % Capacity + i) % Capacity] == Contents(s)[i + 1]
  {
    ModPlus(s.head + 1, i);
  }

  /** Advancing the head past the oldest entry leaves the rest of the queue
      in order. */
  lemma TakeOldest(s: Sched, pid: int)
    requires Valid(s) && s.count > 0
    ensures var r := s.(head := (s.head + 1) % Capacity, count := s.count - 1, currentPid := pid);
      Valid(r) && Contents(r) == Contents(s)[1..] && Contents(s)[0] == s.ring[s.head]
  {
    var r := s.(head := (s.head + 1) % Capacity, count := s.count - 1, currentPid := pid);
    HeadAdvances(s, pid);
    var q, q' := Contents(r), Contents(s);
    forall i | 0 <= i < r.count
      ensures q[i] == q'[i + 1]
    {
      SlotShift(s, i);
    }
    assert q == q'[1..];
  }

  /** Processes added while the queue has room are started in the order
      they were added. */
  lemma {:induction false} StartsInOrder(s: Sched, ps: seq<Queued>)
    requires Valid(s) && s.enabled && s.count == 0 && |ps| <= Capacity
    ensures var t := AddAll(s, ps);
      Valid(t) && Contents(t) == ps && Drain(t, |ps|) == ps
  {
    AddAllContents(s, ps);
    DrainContents(AddAll(s, ps), |ps|);
  }

  /** Several additions in a row. */
  function AddAll(s: Sched, ps: seq<Queued>): (r: Sched)
    requires Valid(s)
    ensures Valid(r) && r.enabled == s.enabled
    decreases |ps|
  {
    if |ps| == 0 then s else AddAll(AddProcess(s, ps[0]), ps[1..])
  }

  /** The processes k ticks start, in order. */
  function Drain(s: Sched, k: nat): (r: seq<Queued>)
    requires Valid(s) && s.enabled
    decreases k
  {
    if k == 0 then []
    else
      var t := SchedulerTick(s);
      match t.started
      case None => []
      case Some(p) => [p] + Drain(t.sched, k - 1)
  }

  lemma {:induction false} AddAllContents(s: Sched, ps: seq<Queued>)
    requires Valid(s) && s.count + |ps| <= Capacity
    ensures Contents(AddAll(s, ps)) == Contents(s) + ps
    decreases |ps|
  {
    if |ps| > 0 {
      var s1 := AddProcess(s, ps[0]);
      AddAllContents(s1, ps[1..]);
      assert Contents(s) + ps == Contents(s) + [ps[0]] + ps[1..];
    }
  }

  lemma {:induction false} DrainContents(s: Sched, k: nat)
    requires Valid(s) && s.enabled && k <= s.count
    ensures Drain(s, k) == Contents(s)[..k]
    decreases k
  {
    if k > 0 {
      var t := SchedulerTick(s);
      DrainContents(t.sched, k - 1);
      assert Contents(s)[..k] == [Contents(s)[0]] + Contents(s)[1..][..k - 1];
    }
  }
}
