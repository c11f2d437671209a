/** src/drivers/mouse.c: PS/2 packet assembly in the IRQ12 handler, the
    128-slot packet ring, and the clamped cursor position. Port reads
    are the handler's inputs. */
module Mouse {
  import opened Options

  const RingSize: nat := 128
  const MaxX: int := 1023
  const MaxY: int := 767
  const StatusObf: nat := 0x01
  const StatusAux: nat := 0x20

  const PacketSync: nat := 0x08

  /** b & mask for a single-bit mask. */
  predicate Bit(b: nat, mask: nat)
    requires mask > 0
  {
    (b / mask) % 2 == 1
  }

  /** (int8_t)b for a byte b */
  function ToI8(b: nat): (r: int)
    requires b < 256
    ensures -128 <= r < 128 && (r - b) % 256 == 0
  {
    if b < 128 then b else b - 256
  }

  /** -(int8_t)b stored back into an int8_t: the negation wraps for -128. */
  function NegI8(b: nat): (r: int)
    requires b < 256
    ensures -128 <= r < 128 && (r + ToI8(b)) % 256 == 0
    ensures b != 0x80 ==> r == -ToI8(b)
  {
    var n := -ToI8(b);
    if n == 128 then -128 else n
  }

  /** mouse_packet_t */
  datatype Packet = Packet(dx: int, dy: int, buttons: nat)

  datatype State = State(ring: seq<Packet>, head: nat, tail: nat,
                         pkt: seq<nat>, pktI: nat,
                         x: int, y: int, irqTotal: nat)

  predicate Valid(s: State)
  {
    && |s.ring| == RingSize && s.head < RingSize && s.tail < RingSize
    && |s.pkt| == 3 && s.pktI < 3
    && forall i :: 0 <= i < 3 ==> s.pkt[i] < 256
  }

  /** (t + i) % 128 for t, i below 128. */
  function Slot(t: nat, i: nat): (r: nat)
    requires t < RingSize && i < RingSize
    ensures r < RingSize && r == (t + i) % RingSize
  {
    if t + i < RingSize then t + i else t + i - RingSize
  }

  /** How many packets lie between tail and head. */
  function Pending(s: State): (n: nat)
    requires Valid(s)
    ensures n < RingSize && Slot(s.tail, n) == s.head
  {
    if s.head >= s.tail then s.head - s.tail else s.head + RingSize - s.tail
  }

  /** The packets written but not yet read, oldest first. */
  function Unread(s: State): (q: seq<Packet>)
    requires Valid(s)
    ensures |q| == Pending(s)
  {
    seq(Pending(s), i requires 0 <= i < Pending(s) => s.ring[Slot(s.tail, i)])
  }

  function Clamp(v: int, hi: int): (r: int)
    requires 0 <= hi
    ensures 0 <= r <= hi
    ensures 0 <= v <= hi ==> r == v
    ensures v < 0 ==> r == 0
    ensures v > hi ==> r == hi
  {
    if v < 0 then 0 else if v > hi then hi else v
  }

  /** push_packet: store at head with no fullness check, then move the
      cursor by twice the motion and clamp it to 1024 x 768. */
  function Push(s: State, p: Packet): (r: State)
    requires Valid(s)
    ensures Valid(r) && r.tail == s.tail && r.pktI == s.pktI && r.pkt == s.pkt
    ensures |Unread(s)| < RingSize - 1 ==> Unread(r) == Unread(s) + [p]
    ensures |Unread(s)| == RingSize - 1 ==> Unread(r) == []
    ensures r.x == Clamp(s.x + 2 * p.dx, MaxX) && r.y == Clamp(s.y + 2 * p.dy, MaxY)
  {
    var r := s.(ring := s.ring[s.head := p], head := Slot(s.head, 1),
                x := Clamp(s.x + 2 * p.dx, MaxX), y := Clamp(s.y + 2 * p.dy, MaxY));
    var n := Pending(s);
    assert n < RingSize - 1 ==> Pending(r) == n + 1;
    assert n == RingSize - 1 ==> Pending(r) == 0;
    r
  }

  /** mouse_read: nothing when head == tail, else the packet at tail. */
  function Read(s: State): (r: (State, Option<Packet>))
    requires Valid(s)
    ensures Valid(r.0)
    ensures r.1.None? <==> s.head == s.tail
    ensures r.1.None? ==> r.0 == s
    ensures r.1.Some? ==> r.1.value == Unread(s)[0] && Unread(r.0) == Unread(s)[1..]
    ensures r.0.head == s.head && r.0.x == s.x && r.0.y == s.y
  {
    if s.head == s.tail then (s, None)
    else
      var r := s.(tail := Slot(s.tail, 1));
      assert Pending(r) == Pending(s) - 1;
      assert forall i :: 0 <= i < Pending(r) ==> Slot(r.tail, i) == Slot(s.tail, i + 1);
      (r, Some(s.ring[s.tail]))
  }

  /** mouse_get_buttons */
  function GetButtons(s: State): (r: (State, nat))
    requires Valid(s)
    ensures Valid(r.0)
    ensures s.head == s.tail ==> r == (s, 0)
    ensures s.head != s.tail ==> r.1 == Unread(s)[0].buttons && Unread(r.0) == Unread(s)[1..]
  {
    var (t, p) := Read(s);
    match p
    case None => (t, 0)
    case Some(q) => (t, q.buttons)
  }

  /** What one interrupt leaves: the state, and whether it acknowledged
      both PICs (only after a full packet). */
  datatype Irq = Irq(state: State, eoi: bool)

  /** mouse_handler, given the status byte and the data byte it would
      read (data is read only when status has OBF set). */
  function Handler(s: State, status: nat, data: nat): (r: Irq)
    requires Valid(s) && data < 256
    ensures Valid(r.state) && r.state.irqTotal == s.irqTotal + 1
  {
    var s1 := s.(irqTotal := s.irqTotal + 1);
    if !Bit(status, StatusObf) then Irq(s1, false)
    else if !Bit(status, StatusAux) then Irq(s1, false)
    else if s.pktI == 0 && !Bit(data, PacketSync) then Irq(s1, false)
    else
      var pkt := s.pkt[s.pktI := data];
      if s.pktI + 1 < 3 then Irq(s1.(pkt := pkt, pktI := s.pktI + 1), false)
      else
        var p := Packet(ToI8(pkt[1]), NegI8(pkt[2]), pkt[0] % 8);
        Irq(Push(s1.(pkt := pkt, pktI := 0), p), true)
  }

  /** A status without OBF, a keyboard byte, or an unsynchronised first
      byte only counts the interrupt. */
  lemma HandlerIgnores(s: State, status: nat, data: nat)
    requires Valid(s) && data < 256
    requires !Bit(status, StatusObf) || !Bit(status, StatusAux) || (s.pktI == 0 && !Bit(data, PacketSync))
    ensures Handler(s, status, data) == Irq(s.(irqTotal := s.irqTotal + 1), false)
  {
  }

  /** An accepted byte that does not finish a packet is stored and
      advances pkt_i. */
  lemma HandlerCollects(s: State, status: nat, data: nat)
    requires Valid(s) && data < 256 && Bit(status, StatusObf) && Bit(status, StatusAux)
    requires s.pktI > 0 || Bit(data, PacketSync)
    requires s.pktI < 2
    ensures var r := Handler(s, status, data);
      && r.state.pktI == s.pktI + 1 && r.state.pkt == s.pkt[s.pktI := data]
      && Unread(r.state) == Unread(s) && !r.eoi
  {
  }

  /** The third accepted byte completes a packet: buttons are the low
      three bits of the first byte, dx the second as int8, dy the
      negated third; pkt_i returns to 0. */
  lemma HandlerCompletes(s: State, status: nat, data: nat)
    requires Valid(s) && data < 256 && Bit(status, StatusObf) && Bit(status, StatusAux)
    requires s.pktI == 2 && |Unread(s)| < RingSize - 1
    ensures var r := Handler(s, status, data);
      var p := Packet(ToI8(s.pkt[1]), NegI8(data), s.pkt[0] % 8);
      && r.eoi && r.state.pktI == 0
      && Unread(r.state) == Unread(s) + [p]
      && r.state.x == Clamp(s.x + 2 * p.dx, MaxX)
      && r.state.y == Clamp(s.y + 2 * p.dy, MaxY)
  {
  }

  /** A run of interrupts, each with its status and data byte. */
  function HandleAll(s: State, events: seq<(nat, nat)>): (r: State)
    requires Valid(s) && forall i :: 0 <= i < |events| ==> events[i].1 < 256
    ensures Valid(r)
    decreases |events|
  {
    if |events| == 0 then s
    else HandleAll(Handler(s, events[0].0, events[0].1).state, events[1..])
  }

  /** From a synchronised start, three mouse bytes whose first has bit 3
      set produce exactly one packet. */
  lemma ThreeBytesOnePacket(s: State, b0: nat, b1: nat, b2: nat)
    requires Valid(s) && s.pktI == 0 && |Unread(s)| < RingSize - 1
    requires b0 < 256 && b1 < 256 && b2 < 256 && Bit(b0, PacketSync)
    ensures var r := HandleAll(s, [(0x21, b0), (0x21, b1), (0x21, b2)]);
      && r.pktI == 0
      && Unread(r) == Unread(s) + [Packet(ToI8(b1), NegI8(b2), b0 % 8)]
  {
    var ev: seq<(nat, nat)> := [(0x21, b0), (0x21, b1), (0x21, b2)];
    assert Bit(0x21, StatusObf) && Bit(0x21, StatusAux);
    HandlerCollects(s, 0x21, b0);
    var s1 := Handler(s, 0x21, b0).state;
    HandlerCollects(s1, 0x21, b1);
    var s2 := Handler(s1, 0x21, b1).state;
    assert s2.pkt[0] == b0 && s2.pkt[1] == b1;
    HandlerCompletes(s2, 0x21, b2);
    var s3 := Handler(s2, 0x21, b2).state;
    assert HandleAll(s2, ev[2..]) == s3 by {
      assert |ev[2..][1..]| == 0;
    }
    assert HandleAll(s1, ev[1..]) == HandleAll(s2, ev[2..]) by {
      assert ev[1..][1..] == ev[2..];
    }
  }

  /** A Y byte of 0x80 (-128) should invert to +128, which an int8 cannot
      hold: it stays -128, so the cursor moves the wrong way. */
  lemma DyWraps()
    ensures NegI8(0x80) == -128 && ToI8(0x80) == -128
  {
  }

  /** The driver state after the data part of mouse_init. */
  function Init(s: State): (r: State)
    requires Valid(s)
    ensures Valid(r) && r.pktI == 0 && Unread(r) == [] && r.irqTotal == 0
  {
    s.(pktI := 0, head := 0, tail := 0, irqTotal := 0)
  }

  /** mouse_drain_buffer: only the packet assembly restarts. */
  function DrainBuffer(s: State): (r: State)
    requires Valid(s)
    ensures Valid(r) && r.pktI == 0 && Unread(r) == Unread(s) && r.x == s.x && r.y == s.y
  {
    s.(pktI := 0)
  }

  /** mouse_reset_position */
  function ResetPosition(s: State, x: int, y: int): (r: State)
    requires Valid(s)
    ensures Valid(r) && r.x == x && r.y == y && Unread(r) == Unread(s) && r.pktI == s.pktI
  {
    s.(x := x, y := y)
  }
}
