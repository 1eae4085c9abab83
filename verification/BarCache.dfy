// From placement to translation: what pciauto_setup_device caches of the BARs it has
// placed is what the translation functions need (pci_auto.c, pcie_mem.c).

module BarCache {
  import opened Words
  import opened SlotPool
  import opened Resources
  import opened BarAlloc
  import S = BarSetup
  import opened Translate

  const TYPE_MASK: u32 := 1        // PCI_REGION_TYPE
  const TYPE_MEM: u32 := 0         // PCI_REGION_MEM

  /** The length asked for when a BAR is mapped. */
  function MapLength(size: u32): u64 { if size > 0 then size else 1 }

  /** The cache entry of one BAR register. */
  ghost function Cached(b: S.Bar, rs: seq<Region>, w: Aperture): Mapping {
    match b
    case Absent => Mapping(false, false, 0, 0, 0)
    case Bar(kind, _, addr, size) =>
      Mapping(true, kind == S.Io, addr, size,
          if kind == S.Io then 0 else BusToVirt(rs, w, addr, MapLength(size), TYPE_MASK, TYPE_MEM))
  }

  ghost function Cache(bars: seq<S.Bar>, rs: seq<Region>, w: Aperture): (r: seq<Mapping>)
    ensures |r| == |bars|
  {
    seq(|bars|, i requires 0 <= i < |bars| => Cached(bars[i], rs, w))
  }

  /** A placed memory BAR, exactly as it is cached: its address and size, and the pointer
      to the first memory region that holds it, where the aperture does.  An I/O BAR has
      no pointer. */
  lemma CachedExact(b: S.Bar, rs: seq<Region>, w: Aperture)
    requires b.Bar? && ApertureOk(w)
    ensures var e, len := Cached(b, rs, w), if b.size > 0 then b.size else 1;
      && e.present && e.bus == b.addr && e.size == b.size && (e.io <==> b.kind == S.Io)
      && (if b.kind == S.Io then e.virt == 0
          else if rs == [] then e.virt == PointerAt(w, b.addr, len)
          else
            && (forall i: nat | FirstBus(rs, b.addr, len, 1, 0, i) && rs[i].phys + rs[i].size <= U64 ::
                  e.virt == PointerAt(w, rs[i].phys + (b.addr - rs[i].start), len))
            && ((forall i | 0 <= i < |rs| :: !HoldsBus(rs[i], b.addr, len, 1, 0)) ==> e.virt == 0))
  {
    BusToVirtExact(rs, w, b.addr, MapLength(b.size), TYPE_MASK, TYPE_MEM);
  }

  /** Disjoint bus ranges are disjoint on the CPU side. */
  lemma PhysApart(rs: seq<Region>, w: Aperture, a: u32, n: u64, b: u32, m: u64)
    requires Apart(rs, TYPE_MASK, TYPE_MEM) && ApertureOk(w) && NoOverlap(a, n, b, m)
    requires BusToVirt(rs, w, a, n, TYPE_MASK, TYPE_MEM) != 0 && BusToVirt(rs, w, b, m, TYPE_MASK, TYPE_MEM) != 0
    ensures NoOverlap(BusToPhys(rs, a, n, TYPE_MASK, TYPE_MEM), n, BusToPhys(rs, b, m, TYPE_MASK, TYPE_MEM), m)
  {
    BusHitExact(rs, a, n, TYPE_MASK, TYPE_MEM, 0);
    BusHitExact(rs, b, m, TYPE_MASK, TYPE_MEM, 0);
    if rs != [] {
      BusRoundTrip(rs, a, n, TYPE_MASK, TYPE_MEM);
      BusRoundTrip(rs, b, m, TYPE_MASK, TYPE_MEM);
    }
  }

  /** ... and on the logical side. */
  lemma VirtApart(rs: seq<Region>, w: Aperture, a: u32, n: u32, b: u32, m: u32)
    requires Apart(rs, TYPE_MASK, TYPE_MEM) && ApertureOk(w) && NoOverlap(a, n, b, m)
    requires BusToVirt(rs, w, a, n, TYPE_MASK, TYPE_MEM) != 0 && BusToVirt(rs, w, b, m, TYPE_MASK, TYPE_MEM) != 0
    ensures NoOverlap(BusToVirt(rs, w, a, n, TYPE_MASK, TYPE_MEM), n, BusToVirt(rs, w, b, m, TYPE_MASK, TYPE_MEM), m)
  {
    PhysApart(rs, w, a, n, b, m);
    VirtRoundTrip(rs, w, a, n, TYPE_MASK, TYPE_MEM);
    VirtRoundTrip(rs, w, b, m, TYPE_MASK, TYPE_MEM);
  }

  /** A range the aperture maps ends inside the logical space. */
  lemma VirtFits(rs: seq<Region>, w: Aperture, a: u32, n: u32)
    requires Apart(rs, TYPE_MASK, TYPE_MEM) && ApertureOk(w) && w.phys + w.size + U32 < U64
    requires BusToVirt(rs, w, a, n, TYPE_MASK, TYPE_MEM) != 0
    ensures BusToVirt(rs, w, a, n, TYPE_MASK, TYPE_MEM) + n < U32
  {
    VirtRoundTrip(rs, w, a, n, TYPE_MASK, TYPE_MEM);
  }

  /** The memory regions the BARs came from share no address. */
  ghost predicate PoolsApart(ps: S.Pools) {
    && (ps.mem.Some? && ps.pre.Some? ==>
          End(ps.mem.value) <= ps.pre.value.start || End(ps.pre.value) <= ps.mem.value.start)
    && forall k :: S.Pool(ps, k).Some? ==> RegionOk(S.Pool(ps, k).value)
  }

  lemma BusApart(ps0: S.Pools, d: S.Dev, slot: nat, resp: seq<u32>, i: nat, j: nat)
    requires S.Sound(ps0, d, slot, resp) && PoolsApart(ps0)
    requires i < j < |d.bars| && d.bars[i].Bar? && d.bars[j].Bar? && d.bars[i].size > 0 && d.bars[j].size > 0
    requires d.bars[i].kind != S.Io && d.bars[j].kind != S.Io
    ensures NoOverlap(d.bars[i].addr, d.bars[i].size, d.bars[j].addr, d.bars[j].size)
  {
    assert S.InStretch(ps0, d.ps, d.bars[i]) && S.InStretch(ps0, d.ps, d.bars[j]);
    assert S.InOrder(d.bars[i], d.bars[j]);
    assert S.Pool(ps0, d.bars[i].kind).Some? && S.Pool(ps0, d.bars[j].kind).Some?;
  }

  /** The BARs a device was given, as they are cached, neither wrap nor overlap, on the
      bus or in memory: what the translations back and forth ask of them. */
  lemma PlacedBarsApart(ps0: S.Pools, d: S.Dev, slot: nat, resp: seq<u32>, rs: seq<Region>, w: Aperture)
    requires S.Sound(ps0, d, slot, resp) && PoolsApart(ps0)
    requires Apart(rs, TYPE_MASK, TYPE_MEM) && ApertureOk(w) && w.phys + w.size + U32 < U64
    ensures BarsApart(Cache(d.bars, rs, w))
  {
    var c := Cache(d.bars, rs, w);
    forall i | 0 <= i < |c| && Held(c[i]) ensures c[i].bus + c[i].size <= U32 && c[i].virt + c[i].size <= U32 {
      assert S.InStretch(ps0, d.ps, d.bars[i]);
      VirtFits(rs, w, c[i].bus, c[i].size);
    }
    forall i, j | 0 <= i < j < |c| && Held(c[i]) && Held(c[j])
      ensures NoOverlap(c[i].bus, c[i].size, c[j].bus, c[j].size)
      ensures NoOverlap(c[i].virt, c[i].size, c[j].virt, c[j].size)
    {
      BusApart(ps0, d, slot, resp, i, j);
      VirtApart(rs, w, c[i].bus, c[i].size, c[j].bus, c[j].size);
    }
  }

  lemma CachedFits(b: S.Bar, rs: seq<Region>, w: Aperture)
    requires Apart(rs, TYPE_MASK, TYPE_MEM) && ApertureOk(w) && w.phys + w.size + U32 < U64
    requires Held(Cached(b, rs, w))
    ensures var e := Cached(b, rs, w); b.Bar? && e.bus == b.addr && e.size == b.size && e.virt + e.size < U32
  {
    VirtFits(rs, w, b.addr, b.size);
  }

  /** Every byte of a placed and mapped BAR that ends below 4 GiB on the bus is found by its
      logical address, and its bus address finds the way back. */
  lemma PlacedRoundTrip(ps0: S.Pools, d: S.Dev, slot: nat, resp: seq<u32>, rs: seq<Region>, w: Aperture)
    requires S.Sound(ps0, d, slot, resp) && PoolsApart(ps0)
    requires Apart(rs, TYPE_MASK, TYPE_MEM) && ApertureOk(w) && w.phys + w.size + U32 < U64
    ensures AllTranslate(Cache(d.bars, rs, w), rs)
  {
    var c := Cache(d.bars, rs, w);
    PlacedBarsApart(ps0, d, slot, resp, rs, w);
    forall i | 0 <= i < |c| && Held(c[i]) ensures c[i].virt + c[i].size < U32 { CachedFits(d.bars[i], rs, w); }
    BarsTranslate(c, rs);
  }
}
