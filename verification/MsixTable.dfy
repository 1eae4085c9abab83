// Finding a device's MSI-X table at probe (pci_msix_init; section 6.8.2 of PCI
// Local Bus Specification 3.0).

module MsixTable {
  import opened Words
  import opened SlotPool
  import opened Translate

  const QSIZE: nat := 0x07ff
  const BIR: nat := 7
  const OFFSET: nat := 0xffff_fff8
  const ENTRY: nat := 16

  function Entries(control: nat): nat { And(control, QSIZE) + 1 }
  function BarIndex(table: nat): nat { And(table, BIR) }

  function TableOffset(table: u32): u32 {
    AndBound(table, OFFSET);
    And(table, OFFSET)
  }

  /** n entries at the offset lie in a BAR of that size. */
  predicate Holds(size: nat, offset: nat, n: nat) { offset + n * ENTRY <= size }

  lemma TableWords(control: nat, table: u32)
    ensures Entries(control) == control % 2048 + 1
    ensures BarIndex(table) == table % 8 && TableOffset(table) == table - table % 8
  {
    assert Pow2(3) == 8 && Pow2(11) == 2048;
    AndLowMask(control, 11, 2048);
    AndLowMask(table, 3, 8);
    Pow2_32();
    AndHighMask(table, 32, 3, 8);
  }

  class Msix {
    var tableSize: nat
    var tableVirt: Option<u32>      // None is NULL: MSI-X is not used on the device

    /** pci_msix_init, for a device that has the capability. */
    method Init(control: nat, table: u32, bars: seq<Mapping>)
      modifies this
      ensures tableSize == Entries(control)
      ensures var i, o := BarIndex(table), TableOffset(table);
        tableVirt.Some? <==>
          && i < |bars| && bars[i].present && !bars[i].io && bars[i].virt != 0
          && (o + Entries(control) * 16) % U32 <= bars[i].size
      ensures tableVirt.Some? ==> tableVirt.value == Wrap32(bars[BarIndex(table)].virt + TableOffset(table))
    {
      tableSize := Entries(control);
      tableVirt := None;
      var bir, offset := BarIndex(table), TableOffset(table);
      if bir >= |bars| || !bars[bir].present || bars[bir].io || bars[bir].virt == 0 { return; }
      if Wrap32(offset + tableSize * ENTRY) > bars[bir].size { return; }
      tableVirt := Some(Wrap32(bars[bir].virt + offset));
    }
  }

  /** The 32-bit test against the BAR, exactly: right unless the table runs past
      4 GiB, where it accepts a table that lies in no BAR. */
  lemma BoundExact(size: u32, offset: u32, n: nat)
    requires n <= 2048
    ensures Wrap32(offset + n * ENTRY) <= size <==>
      if offset + n * ENTRY < U32 then Holds(size, offset, n) else offset + n * ENTRY - U32 <= size
    ensures offset + n * ENTRY >= U32 ==> !Holds(size, offset, n)
  {}

  /** Entry v of an accepted table that does not run past 4 GiB lies in the BAR's
      mapping. */
  lemma EntryInBar(b: Mapping, offset: u32, n: nat, v: nat)
    requires n <= 2048 && v < n && b.virt + b.size <= U32
    requires offset + n * ENTRY < U32 && Wrap32(offset + n * ENTRY) <= b.size
    ensures var at := Wrap32(b.virt + offset) + v * ENTRY; b.virt <= at && at + ENTRY <= b.virt + b.size
  {}

  /** One that does: the table of one entry at offset 0xfffffff8 is accepted, eight
      bytes below the BAR. */
  lemma WrappedTable(b: Mapping)
    requires Usable(b) && !b.io && b.size >= 8 && b.virt >= 8
    ensures Wrap32(0xffff_fff8 + 1 * ENTRY) <= b.size && Wrap32(b.virt + 0xffff_fff8) == b.virt - 8
  {}
}
