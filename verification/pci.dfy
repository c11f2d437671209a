/** src/drivers/pci.c: configuration mechanism #1 (section 3.2.2.3.2 of
    the PCI Local Bus Specification 3.0). The dword at the selected
    address is an input to reads and partial writes; the port writes are
    the outputs. */
module Pci {

  /** pci_config_address */
  function ConfigAddress(bus: bv8, slot: bv8, func: bv8, offset: bv8): (r: bv32)
    ensures r & 0x8000_0000 != 0 && r & 3 == 0
  {
    ((bus as bv32) << 16) | ((slot as bv32) << 11) | ((func as bv32) << 8)
      | ((offset & 0xFC) as bv32) | 0x8000_0000
  }

  /** The fields of a configuration address. */
  datatype Fields = Fields(bus: bv8, slot: bv8, func: bv8, register: bv8)

  function Decode(a: bv32): (f: Fields)
    ensures f.slot < 32 && f.func < 8 && f.register & 3 == 0
  {
    Fields(((a >> 16) & 0xFF) as bv8, ((a >> 11) & 0x1F) as bv8,
           ((a >> 8) & 7) as bv8, (a & 0xFC) as bv8)
  }

  /** For a slot below 32 and a function below 8 every field lands in its
      own bits: enable bit 31, bus 23:16, device 15:11, function 10:8,
      register 7:2. */
  lemma AddressRoundTrip(bus: bv8, slot: bv8, func: bv8, offset: bv8)
    requires slot < 32 && func < 8
    ensures Decode(ConfigAddress(bus, slot, func, offset)) == Fields(bus, slot, func, offset & 0xFC)
  {
  }

  /** Slot 32 bleeds into the bus field: it addresses bus 1, slot 0. */
  lemma SlotBleeds()
    ensures ConfigAddress(0, 32, 0, 0) == ConfigAddress(1, 0, 0, 0)
  {
  }

  /** The byte lane's shift, (offset & 3) * 8. */
  function ByteShift(offset: bv8): bv32
  {
    ((offset & 3) as bv32) * 8
  }

  /** The word lane's shift, (offset & 2) * 8. */
  function WordShift(offset: bv8): bv32
  {
    ((offset & 2) as bv32) * 8
  }

  /** pci_config_read_byte, given the dword the data port returns. */
  function ReadByte(data: bv32, offset: bv8): (r: bv8)
    ensures offset & 3 == 0 ==> r == (data & 0xFF) as bv8
    ensures offset & 3 == 3 ==> r == (data >> 24) as bv8
  {
    ((data >> ByteShift(offset)) & 0xFF) as bv8
  }

  /** pci_config_read_word */
  function ReadWord(data: bv32, offset: bv8): (r: bv16)
    ensures offset & 2 == 0 ==> r == (data & 0xFFFF) as bv16
    ensures offset & 2 == 2 ==> r == (data >> 16) as bv16
  {
    ((data >> WordShift(offset)) & 0xFFFF) as bv16
  }

  /** The dword pci_config_write_byte sends back. */
  function WriteByte(data: bv32, offset: bv8, value: bv8): bv32
  {
    (data & !(0xFF << ByteShift(offset))) | ((value as bv32) << ByteShift(offset))
  }

  /** The dword pci_config_write_word sends back. */
  function WriteWord(data: bv32, offset: bv8, value: bv16): bv32
  {
    (data & !(0xFFFF << WordShift(offset))) | ((value as bv32) << WordShift(offset))
  }

  /** pci_config_write_dword: the address, then the value unchanged. */
  function WriteDword(bus: bv8, slot: bv8, func: bv8, offset: bv8, value: bv32): (r: (bv32, bv32))
    ensures r.0 == ConfigAddress(bus, slot, func, offset) && r.1 == value
  {
    (ConfigAddress(bus, slot, func, offset), value)
  }

  /** The four lane selectors. */
  lemma LaneCases(offset: bv8)
    ensures offset & 3 == 0 || offset & 3 == 1 || offset & 3 == 2 || offset & 3 == 3
    ensures offset & 2 == 0 || offset & 2 == 2
  {
  }

  /** Reading the lane just written returns the written byte. */
  lemma WriteByteReads(data: bv32, offset: bv8, value: bv8)
    ensures ReadByte(WriteByte(data, offset, value), offset) == value
  {
    LaneCases(offset);
  }

  /** The other three byte lanes are unchanged. */
  lemma WriteByteKeeps(data: bv32, offset: bv8, other: bv8, value: bv8)
    requires offset & 3 != other & 3
    ensures ReadByte(WriteByte(data, offset, value), other) == ReadByte(data, other)
  {
    LaneCases(offset);
    LaneCases(other);
  }

  /** Reading the half just written returns the written word. */
  lemma WriteWordReads(data: bv32, offset: bv8, value: bv16)
    ensures ReadWord(WriteWord(data, offset, value), offset) == value
  {
    LaneCases(offset);
  }

  /** The other half is unchanged. */
  lemma WriteWordKeeps(data: bv32, offset: bv8, other: bv8, value: bv16)
    requires offset & 2 != other & 2
    ensures ReadWord(WriteWord(data, offset, value), other) == ReadWord(data, other)
  {
    LaneCases(offset);
    LaneCases(other);
  }
}
