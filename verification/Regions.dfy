// The region table and the DMA window, built from device-tree cells and the list
// of system memory (pcie_brcmstb.c).

module Regions {
  import opened Words
  import opened SlotPool
  import opened Resources
  import opened Translate

  const REGION_MEM: nat := 0
  const REGION_IO: nat := 1
  const REGION_PREFETCH: nat := 8
  const REGION_SYS_MEMORY: nat := 0x100

  const BANKS: nat := 4                   // CONFIG_NR_DRAM_BANKS
  const DMA_END: nat := 0x8000_0000       // PCIE_DMA_WIN_END

  /** One record of a "ranges" property. */
  datatype Range = Range(attr: u32, bus: u64, cpu: u64, size: u64)

  /** How many cells its three numbers take, the attribute cell counted with the
      PCI address. */
  datatype Shape = Shape(pci: nat, cpu: nat, size: nat)

  predicate ShapeOk(h: Shape) { h.pci > 1 }

  function RecordCells(h: Shape): nat { h.pci + h.cpu + h.size }

  /** A number of n cells, most significant first, cut to 64 bits. */
  function Number(cells: seq<u32>): u64 {
    if cells == [] then 0
    else (Number(cells[..|cells| - 1]) % U32) * U32 + cells[|cells| - 1]
  }

  function Decode(rec: seq<u32>, h: Shape): Range
    requires ShapeOk(h) && |rec| == RecordCells(h)
  {
    Range(rec[0], Number(rec[1..h.pci]), Number(rec[h.pci..h.pci + h.cpu]), Number(rec[h.pci + h.cpu..]))
  }

  /** All whole records of a property, in order. */
  ghost function Records(cells: seq<u32>, h: Shape): seq<Range>
    requires ShapeOk(h)
    decreases |cells|
  {
    var n := RecordCells(h);
    if |cells| < n then [] else [Decode(cells[..n], h)] + Records(cells[n..], h)
  }

  lemma OneLess(a: nat, n: nat)
    requires 0 < n <= a
    ensures (a - n) / n == a / n - 1
  {
    assert a == n * (a / n) + a % n;
    assert n * (a / n) == n * (a / n - 1) + n;
    DivUnique(a - n, n, a / n - 1, a % n);
  }

  lemma {:induction false} RecordsCount(cells: seq<u32>, h: Shape)
    requires ShapeOk(h)
    ensures |Records(cells, h)| == |cells| / RecordCells(h)
    decreases |cells|
  {
    var n := RecordCells(h);
    if |cells| < n {
      DivUnique(|cells|, n, 0, |cells|);
    } else {
      RecordsCount(cells[n..], h);
      OneLess(|cells|, n);
    }
  }

  /** n cells from `at` on as one number: the last two count, of what 64 bits hold. */
  ghost function Wide(cells: seq<u32>, at: nat, n: nat): nat
    requires at + n <= |cells|
  {
    if n == 0 then 0 else if n == 1 then cells[at] else cells[at + n - 2] * U32 + cells[at + n - 1]
  }

  lemma NumberExact(cells: seq<u32>)
    ensures Number(cells) == Wide(cells, 0, |cells|)
  {
    if |cells| >= 2 {
      var less := cells[..|cells| - 1];
      assert less[|less| - 1] == cells[|cells| - 2];
      LastCell(less);
    }
  }

  lemma LastCell(cells: seq<u32>)
    requires cells != []
    ensures Number(cells) % U32 == cells[|cells| - 1]
  {
    var high := Number(cells[..|cells| - 1]) % U32;
    DivUnique(Number(cells), U32, high, cells[|cells| - 1]);
  }

  /** Record j of a property, read off its cells: the attribute cell, and then the PCI
      address, the CPU address and the size, as wide as the shape says. */
  ghost predicate ReadsAs(cells: seq<u32>, h: Shape, at: nat, r: Range)
    requires ShapeOk(h) && at + RecordCells(h) <= |cells|
  {
    && r.attr == cells[at] && r.bus == Wide(cells, at + 1, h.pci - 1)
    && r.cpu == Wide(cells, at + h.pci, h.cpu) && r.size == Wide(cells, at + h.pci + h.cpu, h.size)
  }

  lemma DecodeExact(rec: seq<u32>, h: Shape)
    requires ShapeOk(h) && |rec| == RecordCells(h)
    ensures ReadsAs(rec, h, 0, Decode(rec, h))
  {
    NumberExact(rec[1..h.pci]);
    NumberExact(rec[h.pci..h.pci + h.cpu]);
    NumberExact(rec[h.pci + h.cpu..]);
  }

  lemma ReadsOn(cells: seq<u32>, h: Shape, n: nat, at: nat, r: Range)
    requires ShapeOk(h) && n <= |cells| && at + RecordCells(h) <= |cells| - n && ReadsAs(cells[n..], h, at, r)
    ensures ReadsAs(cells, h, at + n, r)
  {}

  lemma OneBefore(n: nat, j: nat)
    requires j > 0
    ensures n * j == n * (j - 1) + n
  {
    assert j == (j - 1) + 1;
  }

  lemma {:induction false} RecordFrom(cells: seq<u32>, h: Shape, j: nat, at: nat)
    requires ShapeOk(h) && at == RecordCells(h) * j && at + RecordCells(h) <= |cells|
    ensures j < |Records(cells, h)| && ReadsAs(cells, h, at, Records(cells, h)[j])
    decreases j
  {
    var n := RecordCells(h);
    if j == 0 {
      DecodeExact(cells[..n], h);
    } else {
      OneBefore(n, j);
      RecordFrom(cells[n..], h, j - 1, at - n);
      ReadsOn(cells, h, n, at - n, Records(cells[n..], h)[j - 1]);
    }
  }

  lemma RecordIn(a: nat, n: nat, j: nat)
    requires n > 0 && j < a / n
    ensures n * j + n <= a
  {
    assert a == n * (a / n) + a % n;
    MulOrder(n, j, a / n);
  }

  /** The records are the whole ones there are cells for, each read off its own cells. */
  lemma RecordAt(cells: seq<u32>, h: Shape, j: nat)
    requires ShapeOk(h) && j < |cells| / RecordCells(h)
    ensures |Records(cells, h)| == |cells| / RecordCells(h)
    ensures var at := RecordCells(h) * j;
      at + RecordCells(h) <= |cells| && ReadsAs(cells, h, at, Records(cells, h)[j])
  {
    RecordsCount(cells, h);
    RecordIn(|cells|, RecordCells(h), j);
    RecordFrom(cells, h, j, RecordCells(h) * j);
  }

  // ---- which ranges become regions ----

  /** The region flags a range asks for; None for configuration space. */
  function TypeOf(attr: u32): Option<u32> {
    var space := And(attr, 0x0300_0000);
    if space == 0x0100_0000 then Some(REGION_IO)
    else if space == 0x0200_0000 || space == 0x0300_0000 then
      Some(if And(attr, 0x4000_0000) != 0 then REGION_PREFETCH else REGION_MEM)
    else None
  }

  /** A range is kept if it is of a known space and its last byte is inside both
      address types. */
  function Keep(r: Range): Option<Region> {
    if TypeOf(r.attr).None? then None
    else if r.bus >= U32 || r.size >= U32 then None
    else if r.size == 0 || r.size - 1 > U32 - 1 - r.bus || r.size - 1 > U64 - 1 - r.cpu then None
    else Some(Region(r.bus, r.cpu, r.size, TypeOf(r.attr).value, 0))
  }

  /** Which records become regions: of an I/O or memory space (bits 25:24 of the first
      cell), bus address and size of 32 bits, of some bytes, ending inside both address
      types. */
  ghost predicate Wanted(r: Range) {
    && r.attr / 0x100_0000 % 4 != 0 && r.bus < 0x1_0000_0000 && 0 < r.size < 0x1_0000_0000
    && r.bus + r.size <= 0x1_0000_0000 && r.cpu + r.size <= 0x1_0000_0000_0000_0000
  }

  /** ... and which region: I/O for space 1, prefetchable memory with bit 30 set, memory
      without. */
  ghost function Made(r: Range): Region
    requires Wanted(r)
  {
    Region(r.bus, r.cpu, r.size,
           if r.attr / 0x100_0000 % 4 == 1 then 1 else if r.attr / 0x4000_0000 % 2 == 1 then 8 else 0, 0)
  }

  lemma AttrBits(attr: u32)
    ensures And(attr, 0x0300_0000) == attr / 0x100_0000 % 4 * 0x100_0000
    ensures And(attr, 0x4000_0000) == attr / 0x4000_0000 % 2 * 0x4000_0000
  {
    Powers();
    FieldExact(attr, 2, 4, 24, 0x100_0000, 0x0300_0000);
    FieldExact(attr, 1, 2, 30, 0x4000_0000, 0x4000_0000);
  }

  lemma KeepExact(r: Range)
    ensures Keep(r) == if Wanted(r) then Some(Made(r)) else None
  {
    AttrBits(r.attr);
  }

  ghost function Kept(rs: seq<Range>): seq<Region> {
    if rs == [] then []
    else (if Keep(rs[0]).Some? then [Keep(rs[0]).value] else []) + Kept(rs[1..])
  }

  // ---- system memory ----

  /** struct MemHeader: attributes' FAST bit, bounds. */
  datatype Memory = Memory(fast: bool, lower: u32, upper: u32)

  /** The inbound window. */
  datatype Dma = Dma(bus: u32, phys: u64, size: u32)

  predicate Reachable(m: Memory, w: Dma) {
    m.fast && m.lower < m.upper && w.phys <= m.lower && m.upper <= Wrap64(w.phys + w.size)
  }

  function Offset(w: Dma): u32 { Wrap32(w.bus + U32 - w.phys % U32) }

  function BankOf(m: Memory, w: Dma): Region
    requires Reachable(m, w)
  {
    Region(Wrap32(m.lower + Offset(w)), m.lower, m.upper - m.lower, REGION_MEM + REGION_SYS_MEMORY, 0)
  }

  /** The first `room` reachable banks of the list. */
  ghost function Banks(ms: seq<Memory>, w: Dma, room: nat): seq<Region> {
    if ms == [] || room == 0 then []
    else if Reachable(ms[0], w) then [BankOf(ms[0], w)] + Banks(ms[1..], w, room - 1)
    else Banks(ms[1..], w, room)
  }

  // ---- the walk over the cells ----

  class Walk {
    const cells: seq<u32>
    const shape: Shape
    var next: nat
    var left: nat

    ghost predicate Valid() reads this { ShapeOk(shape) && next + left == |cells| }

    /** What is still to come. */
    ghost function Rest(): seq<Range>
      reads this
      requires Valid()
    {
      Records(cells[next..], shape)
    }

    constructor (property: seq<u32>, h: Shape)
      requires ShapeOk(h)
      ensures Valid() && cells == property && shape == h && next == 0 && Rest() == Records(property, h)
    {
      cells, shape, next, left := property, h, 0, |property|;
      new;
      assert property[0..] == property;
    }

    /** dt_pci_ranges_next */
    method Next() returns (r: Option<Range>)
      requires Valid()
      modifies this`next, this`left
      ensures Valid()
      ensures if r.Some? then old(Rest()) == [r.value] + Rest() else old(Rest()) == Rest() == []
      ensures r.Some? ==> left < old(left)
    {
      var n := RecordCells(shape);
      if left < n { return None; }
      r := Some(Decode(cells[next..next + n], shape));
      assert cells[next..][..n] == cells[next..next + n];
      assert cells[next..][n..] == cells[next + n..];
      next := next + n;
      left := left - n;
    }
  }

  /** brcm_pcie_dma_window: the first record of "dma-ranges", moved to where bus and
      CPU addresses agree, and cut at 2 GiB. */
  method DmaWindow(it: Walk) returns (w: Option<Dma>)
    requires it.Valid()
    modifies it
    ensures var rs := old(it.Rest());
      w.Some? <==> rs != [] && rs[0].size != 0 && rs[0].cpu < 0x8000_0000
    ensures w.Some? ==>
      var dt := old(it.Rest())[0];
      && w.value.bus == w.value.phys == dt.cpu && 0 < w.value.size <= dt.size
      && w.value.phys + w.value.size <= 0x8000_0000
      && (w.value.size == dt.size || w.value.phys + w.value.size == 0x8000_0000)
  {
    var dt := it.Next();
    if dt.None? || dt.value.size == 0 || dt.value.cpu >= DMA_END { return None; }
    var size: nat := dt.value.size;
    if size > DMA_END - dt.value.cpu { size := DMA_END - dt.value.cpu; }
    return Some(Dma(dt.value.cpu, dt.value.cpu, size));
  }

  /** The controller's regions: the table and how much of it is filled. */
  class Table {
    var regions: array<Region>
    var count: nat

    ghost predicate Valid() reads this { count <= regions.Length }

    ghost function View(): seq<Region>
      reads this, regions
      requires Valid()
    {
      regions[..count]
    }

    constructor ()
      ensures Valid() && fresh(regions) && View() == []
    {
      regions, count := new Region[0], 0;
    }

    method Append(r: Region)
      requires Valid() && count < regions.Length
      modifies this`count, regions
      ensures Valid() && View() == old(View()) + [r]
    {
      regions[count] := r;
      count := count + 1;
    }

    /** The loop over "ranges". */
    method AddRanges(it: Walk)
      requires Valid() && it.Valid() && count + |it.Rest()| <= regions.Length
      modifies this`count, regions, it
      ensures Valid() && View() == old(View()) + Kept(old(it.Rest())) && count <= old(count) + |old(it.Rest())|
    {
      ghost var all := it.Rest();
      var done := false;
      while !done
        invariant Valid() && it.Valid()
        invariant View() + Kept(it.Rest()) == old(View()) + Kept(all)
        invariant count + |it.Rest()| <= old(count) + |all|
        invariant done ==> it.Rest() == []
        decreases !done, it.left
      {
        done := AddRange(it);
      }
    }

    /** One turn of it. */
    method AddRange(it: Walk) returns (done: bool)
      requires Valid() && it.Valid() && count + |it.Rest()| <= regions.Length
      modifies this`count, regions, it
      ensures Valid() && it.Valid() && View() + Kept(it.Rest()) == old(View()) + Kept(old(it.Rest()))
      ensures count + |it.Rest()| <= old(count) + |old(it.Rest())|
      ensures if done then it.Rest() == [] else it.left < old(it.left)
    {
      var r := it.Next();
      if r.None? { return true; }
      var kept := Keep(r.value);
      if kept.Some? { Append(kept.value); }
      return false;
    }

    /** The loop over system memory. */
    method AddBanks(ms: seq<Memory>, w: Dma)
      requires Valid() && count + BANKS <= regions.Length
      modifies this`count, regions
      ensures Valid() && View() == old(View()) + Banks(ms, w, 4)
    {
      var added := 0;
      var i := 0;
      while i < |ms| && added < BANKS
        invariant 0 <= i <= |ms| && 0 <= added <= BANKS && Valid()
        invariant count == old(count) + added
        invariant View() + Banks(ms[i..], w, BANKS - added) == old(View()) + Banks(ms, w, BANKS)
      {
        assert ms[i..][1..] == ms[i + 1..];
        if Reachable(ms[i], w) {
          Append(BankOf(ms[i], w));
          added := added + 1;
        }
        i := i + 1;
      }
    }

    /** pci_get_devtree_regions, from opened "ranges".  No write leaves the table, and
        it holds the ranges kept, in order, and then the reachable memory banks, four
        at most. */
    method Build(property: seq<u32>, h: Shape, ms: seq<Memory>, w: Dma)
      requires ShapeOk(h)
      modifies this
      ensures Valid() && fresh(regions) && View() == Kept(Records(property, h)) + Banks(ms, w, 4)
    {
      var it := new Walk(property, h);
      RecordsCount(property, h);
      regions := new Region[|property| / RecordCells(h) + BANKS](_ => Region(0, 0, 0, 0, 0));
      count := 0;
      AddRanges(it);
      AddBanks(ms, w);
    }
  }

  // ---- what the table holds ----

  /** The kept ranges are the in-order filtered image of the records: each record on
      its own gives the region it is kept as, or nothing, and records in a row give
      those in the same row. */
  lemma {:induction false} KeptInOrder(a: seq<Range>, b: seq<Range>)
    ensures Kept(a + b) == Kept(a) + Kept(b)
    ensures |a| == 1 ==> Kept(a) == if Wanted(a[0]) then [Made(a[0])] else []
    decreases |a|
  {
    if a != [] { KeepExact(a[0]); }
    if a == [] {
      assert a + b == b;
    } else {
      var head := if Keep(a[0]).Some? then [Keep(a[0]).value] else [];
      assert (a + b)[1..] == a[1..] + b;
      KeptInOrder(a[1..], b);
      assert Kept(a + b) == head + (Kept(a[1..]) + Kept(b));
      assert Kept(a) == head + Kept(a[1..]);
    }
  }

  /** Every kept range ends inside its address types. */
  lemma KeptFits(r: Range)
    requires Keep(r).Some?
    ensures var k := Keep(r).value;
      && 0 < k.size == r.size && k.start == r.bus && k.phys == r.cpu
      && k.start + k.size <= U32 && k.phys + k.size <= U64
      && k.flags in {REGION_IO, REGION_MEM, REGION_PREFETCH}
  {}

  ghost predicate WindowOk(w: Dma) {
    w.bus == w.phys && w.phys + w.size <= DMA_END
  }

  /** The banks that count: fast memory wholly in the window, as a memory region with the
      system bit set. */
  ghost predicate InReach(m: Memory, w: Dma) {
    m.fast && m.lower < m.upper && w.phys <= m.lower && m.upper <= w.phys + w.size
  }

  lemma BankExact(m: Memory, w: Dma)
    requires WindowOk(w)
    ensures Reachable(m, w) <==> InReach(m, w)
    ensures Reachable(m, w) ==> BankOf(m, w) == Region(m.lower, m.lower, m.upper - m.lower, 0x100, 0)
  {}

  /** The banks are the in-order image of the memory list, cut off when the room is. */
  lemma {:induction false} BanksInOrder(a: seq<Memory>, b: seq<Memory>, w: Dma, room: nat)
    requires WindowOk(w)
    ensures |Banks(a, w, room)| <= room
    ensures Banks(a + b, w, room) == Banks(a, w, room) + Banks(b, w, room - |Banks(a, w, room)|)
    ensures |a| == 1 && room > 0 && !InReach(a[0], w) ==> Banks(a, w, room) == []
    ensures |a| == 1 && room > 0 && InReach(a[0], w) ==>
      Banks(a, w, room) == [Region(a[0].lower, a[0].lower, a[0].upper - a[0].lower, 0x100, 0)]
    decreases |a|
  {
    if a == [] {
      assert a + b == b;
    } else if room > 0 {
      BankExact(a[0], w);
      assert (a + b)[1..] == a[1..] + b;
      BanksInOrder(a[1..], b, w, if Reachable(a[0], w) then room - 1 else room);
    }
  }

  /** Every memory bank lies in the DMA window, below 2 GiB, and its bus address is
      its CPU address. */
  lemma {:induction false} BanksExact(ms: seq<Memory>, w: Dma, room: nat)
    requires WindowOk(w)
    ensures var bs := Banks(ms, w, room);
      && |bs| <= room
      && (forall i | 0 <= i < |bs| ::
            && bs[i].start == bs[i].phys && bs[i].size > 0
            && w.phys <= bs[i].phys && bs[i].phys + bs[i].size <= w.phys + w.size <= 0x8000_0000)
      && (forall m | m in ms && Reachable(m, w) :: BankOf(m, w) in bs || |bs| == room)
  {
    if ms != [] && room > 0 {
      BanksExact(ms[1..], w, if Reachable(ms[0], w) then room - 1 else room);
      if Reachable(ms[0], w) { assert Banks(ms, w, room)[0] == BankOf(ms[0], w); }
      forall m | m in ms && Reachable(m, w) ensures BankOf(m, w) in Banks(ms, w, room) || |Banks(ms, w, room)| == room {
        if m != ms[0] { assert m in ms[1..]; }
      }
    }
  }
  /** The region ends inside both address types. */
  ghost predicate NoWrap(r: Region) { r.start + r.size <= U32 && r.phys + r.size <= U64 }

  lemma {:induction false} KeptNoWrap(rs: seq<Range>)
    ensures forall i | 0 <= i < |Kept(rs)| :: NoWrap(Kept(rs)[i])
  {
    if rs != [] {
      KeptNoWrap(rs[1..]);
      if Keep(rs[0]).Some? { KeptFits(rs[0]); }
    }
  }

  /** For a table the driver has built the translations are there and back whenever no
      two of its windows overlap: none of them wraps, and that is all else they need. */
  lemma TableApart(property: seq<u32>, h: Shape, ms: seq<Memory>, w: Dma, mask: u32, flags: u32)
    requires ShapeOk(h) && WindowOk(w)
    ensures var rs := Kept(Records(property, h)) + Banks(ms, w, 4);
      && (forall i | 0 <= i < |rs| :: NoWrap(rs[i]))
      && (Apart(rs, mask, flags) <==>
            forall i, j | 0 <= i < j < |rs| && Matches(rs[i], mask, flags) && Matches(rs[j], mask, flags) ::
              && NoOverlap(rs[i].start, rs[i].size, rs[j].start, rs[j].size)
              && NoOverlap(rs[i].phys, rs[i].size, rs[j].phys, rs[j].size))
  {
    var kept, banks := Kept(Records(property, h)), Banks(ms, w, BANKS);
    KeptNoWrap(Records(property, h));
    BanksExact(ms, w, BANKS);
    forall i | 0 <= i < |kept + banks| ensures NoWrap((kept + banks)[i]) {
      if i < |kept| { assert NoWrap(kept[i]); }
    }
  }
}
