/** src/managers/irq/irq_manager.c: the two 8259A interrupt mask
    registers (OCW1), kept as state; the initialisation words pic_remap
    sends are its output. The serial trace and the read-back retry loops
    are left out: on a plain register the read-back always matches. */
module Irq {

  const Cascade: nat := 2

  datatype Pic = Pic(master: bv8, slave: bv8)

  /** Whether line k (of eight) is masked in m. */
  predicate Masked(m: bv8, k: nat)
    requires k < 8
  {
    m & LineBit(k) != 0
  }

  /** (unsigned char)(1 << k): nothing above bit 7 survives. */
  function LineBit(k: nat): (r: bv8)
    requires k < 32
    ensures k < 8 ==> r == (1 as bv8) << k
    ensures k >= 8 ==> r == 0
  {
    if k == 0 then 0x01 else if k == 1 then 0x02 else if k == 2 then 0x04
    else if k == 3 then 0x08 else if k == 4 then 0x10 else if k == 5 then 0x20
    else if k == 6 then 0x40 else if k == 7 then 0x80 else 0
  }

  /** The initialisation words (ICW1 to ICW4) sent to one PIC. */
  datatype InitWords = InitWords(command: bv8, vectorBase: bv8, cascade: bv8, mode: bv8)

  /** pic_remap: edge-triggered cascade mode with ICW4 on both PICs,
      master vectors from 0x20 and slave vectors from 0x28, the slave on
      master line 2, 8086 mode; then every line masked. */
  function Remap(): (r: (Pic, InitWords, InitWords))
    ensures r.0 == Pic(0xFF, 0xFF)
    ensures r.1.cascade == LineBit(Cascade) && r.2.cascade as nat == Cascade
    ensures forall n: nat :: n < 16 ==> Vector(r.1, r.2, n) == 32 + n
  {
    (Pic(0xFF, 0xFF), InitWords(0x11, 0x20, 0x04, 0x01), InitWords(0x11, 0x28, 0x02, 0x01))
  }

  /** The interrupt vector a line raises, given the two vector bases. */
  function Vector(master: InitWords, slave: InitWords, n: nat): nat
    requires n < 16
  {
    if n < 8 then master.vectorBase as nat + n else slave.vectorBase as nat + (n - 8)
  }

  /** irq_enable: a line below 8 is unmasked on the master; a higher line
      is unmasked on the slave, and the cascade line on the master too. */
  function Enable(p: Pic, n: nat): (r: Pic)
    requires n < 32
  {
    if n < 8 then p.(master := p.master & !LineBit(n))
    else Pic(p.master & !LineBit(Cascade), p.slave & !LineBit(n - 8))
  }

  /** irq_disable: the line's bit is set on its own PIC only. */
  function Disable(p: Pic, n: nat): (r: Pic)
    requires n < 32
  {
    if n < 8 then p.(master := p.master | LineBit(n))
    else p.(slave := p.slave | LineBit(n - 8))
  }

  /** Clearing line j's bit unmasks exactly line j. */
  lemma ClearBit(m: bv8, j: nat, k: nat)
    requires j < 8 && k < 8
    ensures Masked(m & !LineBit(j), k) == (Masked(m, k) && k != j)
  {
  }

  lemma EnableMaster(p: Pic, n: nat, k: nat)
    requires n < 8 && k < 8
    ensures Masked(Enable(p, n).master, k) == (Masked(p.master, k) && k != n)
    ensures Enable(p, n).slave == p.slave
  {
    ClearBit(p.master, n, k);
  }

  lemma EnableSlave(p: Pic, n: nat, k: nat)
    requires 8 <= n < 16 && k < 8
    ensures Masked(Enable(p, n).slave, k) == (Masked(p.slave, k) && k != n - 8)
    ensures Masked(Enable(p, n).master, k) == (Masked(p.master, k) && k != Cascade)
  {
    ClearBit(p.slave, n - 8, k);
    ClearBit(p.master, Cascade, k);
  }

  /** Setting line j's bit masks exactly line j in addition. */
  lemma SetBit(m: bv8, j: nat, k: nat)
    requires j < 8 && k < 8
    ensures Masked(m | LineBit(j), k) == (Masked(m, k) || k == j)
  {
  }

  lemma DisableMaster(p: Pic, n: nat, k: nat)
    requires n < 8 && k < 8
    ensures Masked(Disable(p, n).master, k) == (Masked(p.master, k) || k == n)
    ensures Disable(p, n).slave == p.slave
  {
    SetBit(p.master, n, k);
  }

  lemma DisableSlave(p: Pic, n: nat, k: nat)
    requires 8 <= n < 16 && k < 8
    ensures Masked(Disable(p, n).slave, k) == (Masked(p.slave, k) || k == n - 8)
    ensures Disable(p, n).master == p.master
  {
    SetBit(p.slave, n - 8, k);
  }

  /** Disabling a master line undoes enabling it when it was masked. */
  lemma DisableUndoesEnable(p: Pic, n: nat)
    requires n < 8 && Masked(p.master, n)
    ensures Disable(Enable(p, n), n) == p
  {
  }

  /** irq_get_pic_mask: the slave mask above the master mask. */
  function GetMask(p: Pic): (r: bv32)
    ensures r & 0xFF == p.master as bv32 && (r >> 8) & 0xFF == p.slave as bv32 && r >> 16 == 0
  {
    ((p.slave as bv32) << 8) | (p.master as bv32)
  }

  /** irq_enable_timer */
  function EnableTimer(p: Pic): (r: Pic)
    ensures r == Enable(p, 0)
  {
    Enable(p, 0)
  }

  /** irq_enable_mouse */
  function EnableMouse(p: Pic): (r: Pic)
    ensures r == Enable(p, 12)
  {
    Enable(p, 12)
  }

  /** After remapping and enabling the timer and the mouse, only lines 0,
      2 and 12 are open. */
  lemma BootMasks()
    ensures GetMask(EnableMouse(EnableTimer(Remap().0))) == 0xEFFA
  {
  }
}
