/** src/managers/gdt/gdt.c: segment descriptors (section 3.4.5 of the
    Intel SDM, Volume 3A), the six-entry table gdt_init builds, and the
    task-state segment it clears. */
module Gdt {

  const Entries: nat := 6
  const DescriptorSize: nat := 8
  /** sizeof(struct tss_entry): 25 dwords and two 16-bit fields. */
  const TssSize: nat := 104
  const TssAccess: bv8 := 0x89
  const TssFlags: bv8 := 0x40

  /** struct gdt_entry, field by field. */
  datatype Descriptor = Descriptor(limitLow: bv16, baseLow: bv16, baseMid: bv8,
                                   access: bv8, granularity: bv8, baseHigh: bv8)

  /** The base address a descriptor encodes. */
  function Base(d: Descriptor): bv32
  {
    (d.baseLow as bv32) | ((d.baseMid as bv32) << 16) | ((d.baseHigh as bv32) << 24)
  }

  /** The 20-bit limit a descriptor encodes. */
  function Limit(d: Descriptor): bv32
  {
    (d.limitLow as bv32) | (((d.granularity & 0x0F) as bv32) << 16)
  }

  /** gdt_set_entry: the base splits over three fields, the limit's low 16
      bits and its next four share a byte with the flag nibble, and the
      access byte is stored as given. */
  function SetEntry(base: bv32, limit: bv32, access: bv8, flags: bv8): (d: Descriptor)
    ensures Base(d) == base
    ensures Limit(d) == limit & 0xF_FFFF
    ensures d.granularity & 0xF0 == flags & 0xF0
    ensures d.access == access
  {
    Descriptor(limitLow := (limit & 0xFFFF) as bv16,
               baseLow := (base & 0xFFFF) as bv16,
               baseMid := ((base >> 16) & 0xFF) as bv8,
               access := access,
               granularity := ((limit >> 16) & 0x0F) as bv8 | (flags & 0xF0),
               baseHigh := ((base >> 24) & 0xFF) as bv8)
  }

  /** gdt_set_tss_entry */
  function SetTssEntry(base: bv32, limit: bv32): (d: Descriptor)
    ensures Base(d) == base && Limit(d) == limit & 0xF_FFFF
    ensures d.access == TssAccess && d.granularity & 0xF0 == TssFlags
  {
    SetEntry(base, limit, TssAccess, TssFlags)
  }

  /** struct tss_entry: prev_tss .. ldt as 25 dwords, then trap and
      iomap_base. */
  datatype Tss = Tss(dwords: seq<bv32>, trap: bv16, iomapBase: bv16)

  const Esp0Index: nat := 1
  const Ss0Index: nat := 2

  /** What gdt_init leaves: the table, the pointer's limit, and the TSS. */
  datatype Tables = Tables(gdt: seq<Descriptor>, pointerLimit: nat, tss: Tss)

  /** gdt_init, given the addresses of the TSS (the table's own address
      only goes into the pointer's base). */
  function Init(tssBase: bv32): (r: Tables)
    ensures |r.gdt| == Entries && r.pointerLimit == Entries * DescriptorSize - 1
    ensures |r.tss.dwords| == 25
  {
    Tables([SetEntry(0, 0, 0, 0),
            SetEntry(0, 0xFFFF_FFFF, 0x9A, 0xCF),
            SetEntry(0, 0xFFFF_FFFF, 0x92, 0xCF),
            SetEntry(0, 0xFFFF_FFFF, 0xFA, 0xCF),
            SetEntry(0, 0xFFFF_FFFF, 0xF3, 0xCF),
            SetTssEntry(tssBase, (TssSize - 1) as bv32)],
           Entries * DescriptorSize - 1,
           Tss(seq(25, i => 0)[Esp0Index := 0x0009_0000][Ss0Index := 0x10], 0, TssSize as bv16))
  }

  /** After gdt_init: a null descriptor, four flat 4 GiB segments (kernel
      code and data, user code and data) with page granularity and 32-bit
      operands, and the TSS descriptor with limit 103; the pointer limit
      is 47. */
  lemma InitTable(tssBase: bv32)
    ensures var t := Init(tssBase).gdt;
      && t[0] == Descriptor(0, 0, 0, 0, 0, 0)
      && (forall i :: 1 <= i <= 4 ==>
            Base(t[i]) == 0 && Limit(t[i]) == 0xF_FFFF && t[i].granularity >> 4 == 0xC)
      && t[1].access == 0x9A && t[2].access == 0x92
      && t[3].access == 0xFA && t[4].access == 0xF3
      && Base(t[5]) == tssBase && Limit(t[5]) == 103 && t[5].access == 0x89
      && Init(tssBase).pointerLimit == 47
  {
  }

  /** After gdt_init the TSS is zero but for ss0 = 0x10, esp0 = 0x90000 and
      an I/O map base at its own size (no I/O bitmap). */
  lemma InitTss(tssBase: bv32)
    ensures var s := Init(tssBase).tss;
      && s.dwords[Esp0Index] == 0x0009_0000 && s.dwords[Ss0Index] == 0x10
      && s.iomapBase == 104 && s.trap == 0
      && forall i :: 0 <= i < 25 && i != Esp0Index && i != Ss0Index ==> s.dwords[i] == 0
  {
  }
}
