/** src/managers/interrupt/idt.c: 32-bit gate descriptors (section 6.11 of
    the Intel SDM, Volume 3A) and the 256-entry table. Handler addresses
    are parameters. */
module Idt {

  const Entries: nat := 256
  const GateSize: nat := 8
  const KernelCode: bv16 := 0x08
  const ExceptionCount: nat := 20
  const TrapGate: bv8 := 0x8F
  const SyscallGate: bv8 := 0xEE
  const TimerGate: bv8 := 0x8E
  const SyscallVector: nat := 128
  const TimerVector: nat := 32

  /** struct idt_entry */
  datatype Gate = Gate(offsetLow: bv16, selector: bv16, zero: bv8, typeAttr: bv8, offsetHigh: bv16)

  /** The handler address a gate encodes. */
  function Offset(g: Gate): bv32
  {
    (g.offsetLow as bv32) | ((g.offsetHigh as bv32) << 16)
  }

  /** idt_set_entry's descriptor: the handler split in two halves, the
      reserved byte 0, selector and type stored as given. */
  function MakeGate(handler: bv32, selector: bv16, typeAttr: bv8): (g: Gate)
    ensures Offset(g) == handler
    ensures g.zero == 0 && g.selector == selector && g.typeAttr == typeAttr
  {
    Gate((handler & 0xFFFF) as bv16, selector, 0, typeAttr, ((handler >> 16) & 0xFFFF) as bv16)
  }

  /** What a type byte says: present (bit 7), privilege level (bits 6-5)
      and gate kind (bits 3-0: 0xE interrupt gate, 0xF trap gate). */
  function Present(t: bv8): bool { t & 0x80 != 0 }
  function Dpl(t: bv8): bv8 { (t >> 5) & 3 }
  function Kind(t: bv8): bv8 { t & 0x0F }

  /** The exception gates are ring-0 trap gates; the timer gate is a
      ring-0 interrupt gate; the system-call gate is reachable from ring 3
      and is an interrupt gate (kind 0xE), so it clears IF on entry. */
  lemma GateKinds()
    ensures Present(TrapGate) && Dpl(TrapGate) == 0 && Kind(TrapGate) == 0xF
    ensures Present(TimerGate) && Dpl(TimerGate) == 0 && Kind(TimerGate) == 0xE
    ensures Present(SyscallGate) && Dpl(SyscallGate) == 3 && Kind(SyscallGate) == 0xE
  {
  }

  /** The table and the pointer's limit. */
  datatype Table = Table(gates: seq<Gate>, pointerLimit: nat)

  /** idt_init: every gate zero, limit 256 * 8 - 1. */
  function Init(): (t: Table)
    ensures |t.gates| == Entries && t.pointerLimit == 2047
    ensures forall i :: 0 <= i < Entries ==> t.gates[i] == Gate(0, 0, 0, 0, 0)
  {
    Table(seq(Entries, _ => MakeGate(0, 0, 0)), Entries * GateSize - 1)
  }

  /** idt_set_entry on the table. */
  function SetEntry(t: Table, index: nat, handler: bv32, selector: bv16, typeAttr: bv8): (r: Table)
    requires index < |t.gates|
    ensures |r.gates| == |t.gates| && r.pointerLimit == t.pointerLimit
    ensures r.gates[index] == MakeGate(handler, selector, typeAttr)
    ensures forall i :: 0 <= i < |t.gates| && i != index ==> r.gates[i] == t.gates[i]
  {
    t.(gates := t.gates[index := MakeGate(handler, selector, typeAttr)])
  }

  /** The exception gates from vector k on. */
  function InstallExceptions(t: Table, stubs: seq<bv32>, k: nat): (r: Table)
    requires |t.gates| == Entries && |stubs| == ExceptionCount && k <= ExceptionCount
    ensures |r.gates| == Entries && r.pointerLimit == t.pointerLimit
    ensures forall i :: k <= i < ExceptionCount ==> r.gates[i] == MakeGate(stubs[i], KernelCode, TrapGate)
    ensures forall i :: 0 <= i < Entries && (i < k || i >= ExceptionCount) ==> r.gates[i] == t.gates[i]
    decreases ExceptionCount - k
  {
    if k == ExceptionCount then t
    else InstallExceptions(SetEntry(t, k, stubs[k], KernelCode, TrapGate), stubs, k + 1)
  }

  /** idt_install_exception_handlers, with the twenty exception stubs,
      the system-call entry and the timer stub as parameters. */
  function InstallHandlers(t: Table, stubs: seq<bv32>, syscall: bv32, timer: bv32): (r: Table)
    requires |t.gates| == Entries && |stubs| == ExceptionCount
    ensures |r.gates| == Entries && r.pointerLimit == t.pointerLimit
    ensures forall i :: 0 <= i < ExceptionCount ==>
      Offset(r.gates[i]) == stubs[i] && r.gates[i].selector == KernelCode && r.gates[i].typeAttr == TrapGate
    ensures Offset(r.gates[SyscallVector]) == syscall && r.gates[SyscallVector].typeAttr == SyscallGate
    ensures Offset(r.gates[TimerVector]) == timer && r.gates[TimerVector].typeAttr == TimerGate
    ensures r.gates[SyscallVector].selector == KernelCode && r.gates[TimerVector].selector == KernelCode
    ensures forall i :: ExceptionCount <= i < Entries && i != SyscallVector && i != TimerVector ==>
      r.gates[i] == t.gates[i]
  {
    var t1 := InstallExceptions(t, stubs, 0);
    var t2 := SetEntry(t1, SyscallVector, syscall, KernelCode, SyscallGate);
    SetEntry(t2, TimerVector, timer, KernelCode, TimerGate)
  }

  /** After init and install, a vector outside 0-19, 32 and 128 has a
      gate that is not present. */
  lemma UninstalledNotPresent(stubs: seq<bv32>, syscall: bv32, timer: bv32, v: nat)
    requires |stubs| == ExceptionCount
    requires ExceptionCount <= v < Entries && v != SyscallVector && v != TimerVector
    ensures !Present(InstallHandlers(Init(), stubs, syscall, timer).gates[v].typeAttr)
  {
  }
}
