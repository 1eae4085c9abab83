// Address translation: region tables between bus and CPU addresses, the mapped
// aperture between CPU and logical addresses, the BAR cache (pci_bar.c,
// pcie_mem.c).  Bus addresses, region sizes and pointers are 32-bit, CPU physical
// addresses and lengths 64-bit.

module Translate {
  import opened Words
  import opened SlotPool
  import opened Resources

  function Wrap32(x: nat): u32 { if x < U32 then x else x % U32 }
  function Wrap64(x: nat): u64 { if x < U64 then x else x % U64 }

  predicate Matches(r: Region, mask: u32, flags: u32) { And(r.flags, mask) == flags }

  /** [a, a + len) lies in [start, start + size), and a itself does. */
  predicate Inside(a: nat, len: nat, start: nat, size: nat) {
    start <= a < start + size && a + len <= start + size
  }

  predicate OnBus(r: Region, a: nat, len: nat, mask: u32, flags: u32) {
    Matches(r, mask, flags) && Inside(a, len, r.start, r.size)
  }

  predicate OnCpu(r: Region, a: nat, len: nat, mask: u32, flags: u32) {
    Matches(r, mask, flags) && Inside(a, len, r.phys, r.size)
  }

  /** The first region from i on that holds the whole access. */
  ghost function BusHit(rs: seq<Region>, a: nat, len: nat, mask: u32, flags: u32, i: nat): Option<nat>
    decreases |rs| - i
  {
    if i >= |rs| then None else if OnBus(rs[i], a, len, mask, flags) then Some(i)
    else BusHit(rs, a, len, mask, flags, i + 1)
  }

  ghost function CpuHit(rs: seq<Region>, a: nat, len: nat, mask: u32, flags: u32, i: nat): Option<nat>
    decreases |rs| - i
  {
    if i >= |rs| then None else if OnCpu(rs[i], a, len, mask, flags) then Some(i)
    else CpuHit(rs, a, len, mask, flags, i + 1)
  }

  lemma {:induction false} BusHitExact(rs: seq<Region>, a: nat, len: nat, mask: u32, flags: u32, i: nat)
    ensures var h := BusHit(rs, a, len, mask, flags, i);
      && (h.Some? ==> i <= h.value < |rs| && OnBus(rs[h.value], a, len, mask, flags)
                      && forall j | i <= j < h.value :: !OnBus(rs[j], a, len, mask, flags))
      && (h.None? ==> forall j | i <= j < |rs| :: !OnBus(rs[j], a, len, mask, flags))
    decreases |rs| - i
  {
    if i < |rs| { BusHitExact(rs, a, len, mask, flags, i + 1); }
  }

  lemma {:induction false} CpuHitExact(rs: seq<Region>, a: nat, len: nat, mask: u32, flags: u32, i: nat)
    ensures var h := CpuHit(rs, a, len, mask, flags, i);
      && (h.Some? ==> i <= h.value < |rs| && OnCpu(rs[h.value], a, len, mask, flags)
                      && forall j | i <= j < h.value :: !OnCpu(rs[j], a, len, mask, flags))
      && (h.None? ==> forall j | i <= j < |rs| :: !OnCpu(rs[j], a, len, mask, flags))
    decreases |rs| - i
  {
    if i < |rs| { CpuHitExact(rs, a, len, mask, flags, i + 1); }
  }

  /** Bus to CPU: translated by that region; 0 if there is none; unchanged on a
      controller without regions. */
  ghost function BusToPhys(rs: seq<Region>, a: u32, len: u64, mask: u32, flags: u32): u64 {
    BusHitExact(rs, a, len, mask, flags, 0);
    if rs == [] then a
    else match BusHit(rs, a, len, mask, flags, 0)
      case Some(i) => Wrap64(rs[i].phys + (a - rs[i].start))
      case None => 0
  }

  ghost function PhysToBus(rs: seq<Region>, p: u64, len: u64, mask: u32, flags: u32): u32 {
    CpuHitExact(rs, p, len, mask, flags, 0);
    if rs == [] then Wrap32(p)
    else match CpuHit(rs, p, len, mask, flags, 0)
      case Some(i) => Wrap32(rs[i].start + (p - rs[i].phys))
      case None => 0
  }

  /** pci_bus_to_phys */
  method FindPhys(rs: seq<Region>, a: u32, len: u64, mask: u32, flags: u32) returns (p: u64)
    ensures p == BusToPhys(rs, a, len, mask, flags)
  {
    if |rs| == 0 { return a; }
    for i := 0 to |rs|
      invariant BusHit(rs, a, len, mask, flags, i) == BusHit(rs, a, len, mask, flags, 0)
    {
      var r := rs[i];
      if And(r.flags, mask) != flags { continue; }
      if a < r.start { continue; }
      var offset := a - r.start;
      if offset >= r.size { continue; }
      if len > r.size - offset { continue; }
      return Wrap64(r.phys + offset);
    }
    return 0;
  }

  /** pci_phys_to_bus */
  method FindBus(rs: seq<Region>, p: u64, len: u64, mask: u32, flags: u32) returns (a: u32)
    ensures a == PhysToBus(rs, p, len, mask, flags)
  {
    if |rs| == 0 { return Wrap32(p); }
    for i := 0 to |rs|
      invariant CpuHit(rs, p, len, mask, flags, i) == CpuHit(rs, p, len, mask, flags, 0)
    {
      var r := rs[i];
      if And(r.flags, mask) != flags { continue; }
      if p < r.phys { continue; }
      var offset := p - r.phys;
      if offset >= r.size { continue; }
      if len > r.size - offset { continue; }
      return Wrap32(r.start + offset);
    }
    return 0;
  }

  /** Region r is one asked for and [a, a + len) lies in its bus window. */
  ghost predicate HoldsBus(r: Region, a: nat, len: nat, mask: u32, flags: u32) {
    And(r.flags, mask) == flags && r.start <= a && a < r.start + r.size && a + len <= r.start + r.size
  }

  ghost predicate HoldsCpu(r: Region, p: nat, len: nat, mask: u32, flags: u32) {
    And(r.flags, mask) == flags && r.phys <= p && p < r.phys + r.size && p + len <= r.phys + r.size
  }

  /** Region i is the first that holds the bus access. */
  ghost predicate FirstBus(rs: seq<Region>, a: nat, len: nat, mask: u32, flags: u32, i: nat) {
    && i < |rs| && HoldsBus(rs[i], a, len, mask, flags)
    && forall j | 0 <= j < i :: !HoldsBus(rs[j], a, len, mask, flags)
  }

  ghost predicate FirstCpu(rs: seq<Region>, p: nat, len: nat, mask: u32, flags: u32, i: nat) {
    && i < |rs| && HoldsCpu(rs[i], p, len, mask, flags)
    && forall j | 0 <= j < i :: !HoldsCpu(rs[j], p, len, mask, flags)
  }

  /** Bus to CPU, exactly: the offset into the first region that holds the access is added
      to where that region is on the CPU side; 0 when no region does. */
  lemma BusToPhysExact(rs: seq<Region>, a: u32, len: u64, mask: u32, flags: u32)
    ensures var p := BusToPhys(rs, a, len, mask, flags);
      if rs == [] then p == a
      else
        && (forall i: nat | FirstBus(rs, a, len, mask, flags, i) :: p == (rs[i].phys + (a - rs[i].start)) % U64)
        && ((forall i | 0 <= i < |rs| :: !HoldsBus(rs[i], a, len, mask, flags)) ==> p == 0)
        && ((exists i: nat :: FirstBus(rs, a, len, mask, flags, i))
            || forall i | 0 <= i < |rs| :: !HoldsBus(rs[i], a, len, mask, flags))
  {
    BusHitExact(rs, a, len, mask, flags, 0);
    forall r ensures HoldsBus(r, a, len, mask, flags) <==> OnBus(r, a, len, mask, flags) {}
    var h := BusHit(rs, a, len, mask, flags, 0);
    if h.Some? {
      assert FirstBus(rs, a, len, mask, flags, h.value);
      forall i: nat | FirstBus(rs, a, len, mask, flags, i) ensures i == h.value {}
    }
  }

  lemma PhysToBusExact(rs: seq<Region>, p: u64, len: u64, mask: u32, flags: u32)
    ensures var a := PhysToBus(rs, p, len, mask, flags);
      if rs == [] then a == p % U32
      else
        && (forall i: nat | FirstCpu(rs, p, len, mask, flags, i) :: a == (rs[i].start + (p - rs[i].phys)) % U32)
        && ((forall i | 0 <= i < |rs| :: !HoldsCpu(rs[i], p, len, mask, flags)) ==> a == 0)
        && ((exists i: nat :: FirstCpu(rs, p, len, mask, flags, i))
            || forall i | 0 <= i < |rs| :: !HoldsCpu(rs[i], p, len, mask, flags))
  {
    CpuHitExact(rs, p, len, mask, flags, 0);
    forall r ensures HoldsCpu(r, p, len, mask, flags) <==> OnCpu(r, p, len, mask, flags) {}
    var h := CpuHit(rs, p, len, mask, flags, 0);
    if h.Some? {
      assert FirstCpu(rs, p, len, mask, flags, h.value);
      forall i: nat | FirstCpu(rs, p, len, mask, flags, i) ensures i == h.value {}
    }
  }

  // ---- round trips between bus and CPU ----

  ghost predicate NoOverlap(a: nat, n: nat, b: nat, m: nat) { a + n <= b || b + m <= a }

  /** The windows asked for wrap in neither space and overlap in neither. */
  ghost predicate Apart(rs: seq<Region>, mask: u32, flags: u32) {
    && (forall i | 0 <= i < |rs| && Matches(rs[i], mask, flags) ::
          rs[i].start + rs[i].size <= U32 && rs[i].phys + rs[i].size <= U64)
    && (forall i, j | 0 <= i < j < |rs| && Matches(rs[i], mask, flags) && Matches(rs[j], mask, flags) ::
          && NoOverlap(rs[i].start, rs[i].size, rs[j].start, rs[j].size)
          && NoOverlap(rs[i].phys, rs[i].size, rs[j].phys, rs[j].size))
  }

  /** Where a bus access is translated at all, the CPU access lies in the same region
      as a whole, and translates back to where it came from. */
  lemma BusRoundTrip(rs: seq<Region>, a: u32, len: u64, mask: u32, flags: u32)
    requires Apart(rs, mask, flags) && BusHit(rs, a, len, mask, flags, 0).Some?
    ensures var i, p := BusHit(rs, a, len, mask, flags, 0).value, BusToPhys(rs, a, len, mask, flags);
      && i < |rs| && OnCpu(rs[i], p, len, mask, flags) && p - rs[i].phys == a - rs[i].start
      && CpuHit(rs, p, len, mask, flags, 0) == Some(i)
      && PhysToBus(rs, p, len, mask, flags) == a
  {
    BusHitExact(rs, a, len, mask, flags, 0);
    var i := BusHit(rs, a, len, mask, flags, 0).value;
    CpuHitExact(rs, rs[i].phys + (a - rs[i].start), len, mask, flags, 0);
  }

  lemma CpuRoundTrip(rs: seq<Region>, p: u64, len: u64, mask: u32, flags: u32)
    requires Apart(rs, mask, flags) && CpuHit(rs, p, len, mask, flags, 0).Some?
    ensures var i, a := CpuHit(rs, p, len, mask, flags, 0).value, PhysToBus(rs, p, len, mask, flags);
      && i < |rs| && OnBus(rs[i], a, len, mask, flags) && p - rs[i].phys == a - rs[i].start
      && BusHit(rs, a, len, mask, flags, 0) == Some(i)
      && BusToPhys(rs, a, len, mask, flags) == p
  {
    CpuHitExact(rs, p, len, mask, flags, 0);
    var i := CpuHit(rs, p, len, mask, flags, 0).value;
    BusHitExact(rs, rs[i].start + (p - rs[i].phys), len, mask, flags, 0);
  }

  // ---- the mapped aperture ----

  /** The outbound MMIO window: CPU address, logical address, size. */
  datatype Aperture = Aperture(phys: u64, virt: u32, size: u64)

  /** Its end, in each space. */
  function PhysEnd(w: Aperture): u64 { Wrap64(w.phys + w.size) }
  function VirtEnd(w: Aperture): u32 { Wrap32(w.virt + w.size) }

  /** The aperture ends before either address space does. */
  ghost predicate ApertureOk(w: Aperture) { w.phys + w.size < U64 && w.virt + w.size < U32 }

  /** pci_bus_to_virt; 0 is NULL. */
  ghost function BusToVirt(rs: seq<Region>, w: Aperture, a: u32, len: u64, mask: u32, flags: u32): u32 {
    var p := BusToPhys(rs, a, len, mask, flags);
    if p == 0 then 0
    else if p < w.phys || p >= PhysEnd(w) then 0
    else if Wrap64(p + len) > PhysEnd(w) then 0
    else Wrap32(w.virt + (p - w.phys))
  }

  /** pci_virt_to_bus */
  ghost function VirtToBus(rs: seq<Region>, w: Aperture, v: u32, len: u64, mask: u32, flags: u32): u32 {
    if v < w.virt || v >= VirtEnd(w) then 0
    else PhysToBus(rs, Wrap64(w.phys + (v - w.virt)), len, mask, flags)
  }

  /** The pointer to a CPU access [p, p + len) in the aperture, NULL if it is not wholly
      there; CPU address 0 has none, and an end past 64 bits is taken modulo 2^64. */
  ghost function PointerAt(w: Aperture, p: nat, len: nat): nat {
    var end := if p + len < U64 then p + len else (p + len) % U64;
    if p != 0 && w.phys <= p && p < w.phys + w.size && end <= w.phys + w.size then w.virt + (p - w.phys) else 0
  }

  lemma PointerExact(rs: seq<Region>, w: Aperture, a: u32, len: u64, mask: u32, flags: u32)
    requires ApertureOk(w)
    ensures BusToVirt(rs, w, a, len, mask, flags) == PointerAt(w, BusToPhys(rs, a, len, mask, flags), len)
  {}

  /** The region's side of an offset does not wrap. */
  lemma OffsetFits(r: Region, a: nat)
    requires r.start <= a && a < r.start + r.size && r.phys + r.size <= U64
    ensures (r.phys + (a - r.start)) % U64 == r.phys + (a - r.start)
  {}

  /** Pointers, exactly: a bus access has one if and only if a region holds it and the CPU
      access the first such region makes of it lies in the aperture. */
  lemma BusToVirtExact(rs: seq<Region>, w: Aperture, a: u32, len: u64, mask: u32, flags: u32)
    requires ApertureOk(w)
    ensures var v := BusToVirt(rs, w, a, len, mask, flags);
      if rs == [] then v == PointerAt(w, a, len)
      else
        && (forall i: nat | FirstBus(rs, a, len, mask, flags, i) && rs[i].phys + rs[i].size <= U64 ::
              v == PointerAt(w, rs[i].phys + (a - rs[i].start), len))
        && ((forall i | 0 <= i < |rs| :: !HoldsBus(rs[i], a, len, mask, flags)) ==> v == 0)
  {
    BusToPhysExact(rs, a, len, mask, flags);
    PointerExact(rs, w, a, len, mask, flags);
    forall i: nat | FirstBus(rs, a, len, mask, flags, i) && rs[i].phys + rs[i].size <= U64
      ensures BusToPhys(rs, a, len, mask, flags) == rs[i].phys + (a - rs[i].start)
    {
      OffsetFits(rs[i], a);
    }
  }

  /** ... and a pointer has a bus address if and only if it lies in the aperture and a
      region holds the CPU access behind it. */
  lemma VirtToBusExact(rs: seq<Region>, w: Aperture, v: u32, len: u64, mask: u32, flags: u32)
    requires ApertureOk(w)
    ensures var a, p := VirtToBus(rs, w, v, len, mask, flags), w.phys + (v - w.virt);
      if !(w.virt <= v && v < w.virt + w.size) then a == 0
      else if rs == [] then a == p % U32
      else
        && (forall i: nat | FirstCpu(rs, p, len, mask, flags, i) :: a == (rs[i].start + (p - rs[i].phys)) % U32)
        && ((forall i | 0 <= i < |rs| :: !HoldsCpu(rs[i], p, len, mask, flags)) ==> a == 0)
  {
    if w.virt <= v && v < w.virt + w.size { PhysToBusExact(rs, w.phys + (v - w.virt), len, mask, flags); }
  }

  method BusVirt(rs: seq<Region>, w: Aperture, a: u32, len: u64, mask: u32, flags: u32) returns (v: u32)
    ensures v == BusToVirt(rs, w, a, len, mask, flags)
  {
    var p := FindPhys(rs, a, len, mask, flags);
    if p == 0 { return 0; }
    if p < w.phys || p >= PhysEnd(w) { return 0; }
    if Wrap64(p + len) > PhysEnd(w) { return 0; }
    return Wrap32(w.virt + (p - w.phys));
  }

  method VirtBus(rs: seq<Region>, w: Aperture, v: u32, len: u64, mask: u32, flags: u32) returns (a: u32)
    ensures a == VirtToBus(rs, w, v, len, mask, flags)
  {
    if v < w.virt || v >= VirtEnd(w) { return 0; }
    a := FindBus(rs, Wrap64(w.phys + (v - w.virt)), len, mask, flags);
  }

  /** A bus address that has a pointer is the bus address of that pointer, and the
      whole access lies in the aperture unless its end runs past the CPU's 64 bits. */
  lemma VirtRoundTrip(rs: seq<Region>, w: Aperture, a: u32, len: u64, mask: u32, flags: u32)
    requires ApertureOk(w) && Apart(rs, mask, flags)
    requires BusToVirt(rs, w, a, len, mask, flags) != 0
    ensures var v := BusToVirt(rs, w, a, len, mask, flags);
      && VirtToBus(rs, w, v, len, mask, flags) == a
      && w.virt <= v
      && v - w.virt == BusToPhys(rs, a, len, mask, flags) - w.phys
      && (BusToPhys(rs, a, len, mask, flags) + len < U64 ==> v + len <= w.virt + w.size)
  {
    BusHitExact(rs, a, len, mask, flags, 0);
    if rs != [] { BusRoundTrip(rs, a, len, mask, flags); }
  }

  /** An aperture that ends exactly at the top of the logical space has pointers and
      takes none back. */
  lemma TopAperture(rs: seq<Region>, w: Aperture, v: u32, len: u64, mask: u32, flags: u32)
    requires w.virt + w.size == U32
    ensures VirtToBus(rs, w, v, len, mask, flags) == 0
  {}

  // ---- the BAR cache ----

  datatype Mapping = Mapping(present: bool, io: bool, bus: u32, size: u32, virt: u32)

  predicate Usable(b: Mapping) { b.present && b.virt != 0 }

  /** `addr >= start && addr < start + size`, the sum wrapping. */
  predicate InWindow(addr: u32, start: u32, size: u32) { start <= addr && addr < Wrap32(start + size) }

  ghost function BarHit(bars: seq<Mapping>, addr: u32, logical: bool, i: nat): Option<nat>
    decreases |bars| - i
  {
    if i >= |bars| then None
    else if Usable(bars[i]) && InWindow(addr, if logical then bars[i].virt else bars[i].bus, bars[i].size) then Some(i)
    else BarHit(bars, addr, logical, i + 1)
  }

  lemma {:induction false} BarHitExact(bars: seq<Mapping>, addr: u32, logical: bool, i: nat)
    ensures var h := BarHit(bars, addr, logical, i);
      && (h.Some? ==>
            && i <= h.value < |bars| && Usable(bars[h.value])
            && InWindow(addr, if logical then bars[h.value].virt else bars[h.value].bus, bars[h.value].size)
            && forall j | i <= j < h.value && Usable(bars[j]) ::
                 !InWindow(addr, if logical then bars[j].virt else bars[j].bus, bars[j].size))
      && (h.None? ==> forall j | i <= j < |bars| && Usable(bars[j]) ::
            !InWindow(addr, if logical then bars[j].virt else bars[j].bus, bars[j].size))
    decreases |bars| - i
  {
    if i < |bars| { BarHitExact(bars, addr, logical, i + 1); }
  }

  /** LibLogicToPhysic for a given device. */
  ghost function LogicToPhysic(bars: seq<Mapping>, rs: seq<Region>, addr: u32): u32 {
    BarHitExact(bars, addr, true, 0);
    if addr == 0 then 0
    else match BarHit(bars, addr, true, 0)
      case Some(i) => Wrap32(bars[i].bus + (addr - bars[i].virt))
      case None => PhysToBus(rs, addr, 1, 0, 0)
  }

  /** LibPhysicToLogic for a given device. */
  ghost function PhysicToLogic(bars: seq<Mapping>, rs: seq<Region>, addr: u32): u32 {
    BarHitExact(bars, addr, false, 0);
    if addr == 0 then 0
    else match BarHit(bars, addr, false, 0)
      case Some(i) => Wrap32(bars[i].virt + (addr - bars[i].bus))
      case None => Wrap32(BusToPhys(rs, addr, 1, 0, 0))
  }

  /** A BAR that is there and mapped has addr in its window, its end taken modulo 2^32. */
  ghost predicate InMapping(b: Mapping, addr: nat, logical: bool) {
    var base := if logical then b.virt else b.bus;
    b.present && b.virt != 0 && base <= addr && addr < (base + b.size) % U32
  }

  ghost predicate FirstMapping(bars: seq<Mapping>, addr: nat, logical: bool, i: nat) {
    i < |bars| && InMapping(bars[i], addr, logical) && forall j | 0 <= j < i :: !InMapping(bars[j], addr, logical)
  }

  lemma HitIsFirst(bars: seq<Mapping>, addr: u32, logical: bool)
    ensures match BarHit(bars, addr, logical, 0)
      case Some(i) => FirstMapping(bars, addr, logical, i)
      case None => forall i | 0 <= i < |bars| :: !InMapping(bars[i], addr, logical)
  {
    BarHitExact(bars, addr, logical, 0);
    forall b: Mapping ensures InMapping(b, addr, logical) <==>
      Usable(b) && InWindow(addr, if logical then b.virt else b.bus, b.size) {}
  }

  /** Logical to PCI and PCI to logical, exactly: NULL stays NULL, an address in a mapped
      BAR keeps its offset into the first such BAR, any other goes by the regions. */
  lemma LogicToPhysicExact(bars: seq<Mapping>, rs: seq<Region>, addr: u32)
    ensures var r := LogicToPhysic(bars, rs, addr);
      if addr == 0 then r == 0
      else
        && (forall i: nat | FirstMapping(bars, addr, true, i) :: r == (bars[i].bus + (addr - bars[i].virt)) % U32)
        && ((forall i | 0 <= i < |bars| :: !InMapping(bars[i], addr, true)) ==> r == PhysToBus(rs, addr, 1, 0, 0))
  {
    HitIsFirst(bars, addr, true);
  }

  lemma PhysicToLogicExact(bars: seq<Mapping>, rs: seq<Region>, addr: u32)
    ensures var r := PhysicToLogic(bars, rs, addr);
      if addr == 0 then r == 0
      else
        && (forall i: nat | FirstMapping(bars, addr, false, i) :: r == (bars[i].virt + (addr - bars[i].bus)) % U32)
        && ((forall i | 0 <= i < |bars| :: !InMapping(bars[i], addr, false)) ==>
              r == BusToPhys(rs, addr, 1, 0, 0) % U32)
  {
    HitIsFirst(bars, addr, false);
  }

  method FindLogicToPhysic(bars: seq<Mapping>, rs: seq<Region>, addr: u32) returns (r: u32)
    ensures r == LogicToPhysic(bars, rs, addr)
  {
    if addr == 0 { return 0; }
    for i := 0 to |bars|
      invariant BarHit(bars, addr, true, i) == BarHit(bars, addr, true, 0)
    {
      var b := bars[i];
      if !b.present || b.virt == 0 { continue; }
      if addr >= b.virt && addr < Wrap32(b.virt + b.size) { return Wrap32(b.bus + (addr - b.virt)); }
    }
    r := FindBus(rs, addr, 1, 0, 0);
  }

  method FindPhysicToLogic(bars: seq<Mapping>, rs: seq<Region>, addr: u32) returns (r: u32)
    ensures r == PhysicToLogic(bars, rs, addr)
  {
    if addr == 0 { return 0; }
    for i := 0 to |bars|
      invariant BarHit(bars, addr, false, i) == BarHit(bars, addr, false, 0)
    {
      var b := bars[i];
      if !b.present || b.virt == 0 { continue; }
      if addr >= b.bus && addr < Wrap32(b.bus + b.size) { return Wrap32(b.virt + (addr - b.bus)); }
    }
    var p := FindPhys(rs, addr, 1, 0, 0);
    return Wrap32(p);
  }

  /** Mapped, and of some bytes. */
  ghost predicate Held(b: Mapping) { Usable(b) && b.size > 0 }

  /** Mapped BARs: none ends past either space, no two overlap in either space. */
  ghost predicate BarsApart(bars: seq<Mapping>) {
    && (forall i | 0 <= i < |bars| && Held(bars[i]) ::
          bars[i].bus + bars[i].size <= U32 && bars[i].virt + bars[i].size <= U32)
    && (forall i, j | 0 <= i < j < |bars| && Held(bars[i]) && Held(bars[j]) ::
          && NoOverlap(bars[i].bus, bars[i].size, bars[j].bus, bars[j].size)
          && NoOverlap(bars[i].virt, bars[i].size, bars[j].virt, bars[j].size))
  }

  /** Every byte of a mapped BAR that ends before either space does is found in it, by
      its logical and by its bus address. */
  lemma BarFound(bars: seq<Mapping>, i: nat, o: nat)
    requires BarsApart(bars) && i < |bars| && Held(bars[i]) && o < bars[i].size
    requires bars[i].bus + bars[i].size < U32 && bars[i].virt + bars[i].size < U32
    ensures BarHit(bars, bars[i].virt + o, true, 0) == Some(i)
    ensures BarHit(bars, bars[i].bus + o, false, 0) == Some(i)
  {
    BarHitExact(bars, bars[i].virt + o, true, 0);
    BarHitExact(bars, bars[i].bus + o, false, 0);
  }

  /** Byte o of BAR i, if that is mapped and ends below 4 GiB on the bus, translates from its
      logical to its bus address and back. */
  ghost predicate ByteTranslates(bars: seq<Mapping>, rs: seq<Region>, i: nat, o: nat) {
    i < |bars| && Held(bars[i]) && o < bars[i].size && bars[i].bus + bars[i].size < U32 && bars[i].bus + o != 0 ==>
      var v, a := bars[i].virt + o, bars[i].bus + o;
      v < U32 && LogicToPhysic(bars, rs, v) == a && PhysicToLogic(bars, rs, a) == v
  }

  ghost predicate AllTranslate(bars: seq<Mapping>, rs: seq<Region>) {
    forall i: nat, o: nat :: ByteTranslates(bars, rs, i, o)
  }

  lemma BarsTranslate(bars: seq<Mapping>, rs: seq<Region>)
    requires BarsApart(bars)
    requires forall i | 0 <= i < |bars| && Held(bars[i]) :: bars[i].virt + bars[i].size < U32
    ensures AllTranslate(bars, rs)
  {
    forall i: nat, o: nat ensures ByteTranslates(bars, rs, i, o) {
      if i < |bars| && Held(bars[i]) && o < bars[i].size && bars[i].bus + bars[i].size < U32 && bars[i].bus + o != 0 {
        BarFound(bars, i, o);
      }
    }
  }

  /** Nothing a 32-bit CPU address can be translated by shares bus addresses with a
      mapped BAR. */
  ghost predicate RamApart(bars: seq<Mapping>, rs: seq<Region>) {
    forall i, j | 0 <= i < |rs| && rs[i].phys < U32 && 0 <= j < |bars| && Held(bars[j]) ::
      NoOverlap(rs[i].start, rs[i].size, bars[j].bus, bars[j].size)
  }

  /** For a BAR window the way there and back is exactly an identity when the BAR does
      not end at 4 GiB on the bus: one that does is not recognised on the way back,
      which then goes through the region table. */
  lemma LogicInBar(bars: seq<Mapping>, rs: seq<Region>, addr: u32, i: nat)
    requires BarsApart(bars) && addr != 0 && BarHit(bars, addr, true, 0) == Some(i) && i < |bars|
    requires LogicToPhysic(bars, rs, addr) != 0
    ensures var p := LogicToPhysic(bars, rs, addr);
      && p == bars[i].bus + (addr - bars[i].virt)
      && (bars[i].bus + bars[i].size < U32 ==> PhysicToLogic(bars, rs, p) == addr)
      && (bars[i].bus + bars[i].size == U32 ==> PhysicToLogic(bars, rs, p) == Wrap32(BusToPhys(rs, p, 1, 0, 0)))
  {
    BarHitExact(bars, addr, true, 0);
    BarHitExact(bars, LogicToPhysic(bars, rs, addr), false, 0);
  }

  lemma LogicInRam(bars: seq<Mapping>, rs: seq<Region>, addr: u32)
    requires Apart(rs, 0, 0) && RamApart(bars, rs) && BarsApart(bars) && rs != []
    requires addr != 0 && BarHit(bars, addr, true, 0).None? && LogicToPhysic(bars, rs, addr) != 0
    ensures PhysicToLogic(bars, rs, LogicToPhysic(bars, rs, addr)) == addr
  {
    CpuHitExact(rs, addr, 1, 0, 0, 0);
    CpuRoundTrip(rs, addr, 1, 0, 0);
    BarHitExact(bars, LogicToPhysic(bars, rs, addr), false, 0);
  }

  /** On a controller without regions addresses outside the BAR windows are passed
      through; they come back unless they are the bus address of a mapped BAR. */
  lemma LogicPassed(bars: seq<Mapping>, addr: u32)
    requires addr != 0 && BarHit(bars, addr, true, 0).None?
    ensures LogicToPhysic(bars, [], addr) == addr
    ensures BarHit(bars, addr, false, 0).None? ==> PhysicToLogic(bars, [], addr) == addr
    ensures BarsApart(bars) && BarHit(bars, addr, false, 0).Some? ==> PhysicToLogic(bars, [], addr) != addr
  {
    BarHitExact(bars, addr, true, 0);
    BarHitExact(bars, addr, false, 0);
  }

  /** The address leads into a mapped BAR that ends at 4 GiB on the bus. */
  ghost predicate InTopBar(bars: seq<Mapping>, addr: u32) {
    var h := BarHit(bars, addr, true, 0);
    h.Some? && h.value < |bars| && bars[h.value].bus + bars[h.value].size == U32
  }

  /** Logical to PCI and back, for BAR windows and for DMA memory alike, wherever the
      first step gives an address and no BAR that ends at 4 GiB is in the way. */
  lemma LogicRoundTrip(bars: seq<Mapping>, rs: seq<Region>, addr: u32)
    requires BarsApart(bars) && Apart(rs, 0, 0) && RamApart(bars, rs) && !InTopBar(bars, addr)
    requires rs == [] ==> BarHit(bars, addr, true, 0).Some? || BarHit(bars, addr, false, 0).None?
    ensures var p := LogicToPhysic(bars, rs, addr); p != 0 ==> PhysicToLogic(bars, rs, p) == addr
  {
    BarHitExact(bars, addr, true, 0);
    var p := LogicToPhysic(bars, rs, addr);
    if p != 0 {
      var h := BarHit(bars, addr, true, 0);
      if h.Some? { LogicInBar(bars, rs, addr, h.value); }
      else if rs == [] { LogicPassed(bars, addr); }
      else { LogicInRam(bars, rs, addr); }
    }
  }

  // ---- handing out a piece of a BAR ----

  /** The test of LibObtainPCIRegion, both sums wrapping. */
  predicate Accepts(b: Mapping, region: u32, size: u32) {
    Usable(b) && !b.io && b.bus <= region && Wrap32(region + size) <= Wrap32(b.bus + b.size)
  }

  predicate Contains(b: Mapping, region: u32, size: u32) {
    Usable(b) && !b.io && b.bus <= region && region + size <= b.bus + b.size
  }

  ghost function AcceptHit(bars: seq<Mapping>, region: u32, size: u32, i: nat): Option<nat>
    decreases |bars| - i
  {
    if i >= |bars| then None else if Accepts(bars[i], region, size) then Some(i)
    else AcceptHit(bars, region, size, i + 1)
  }

  /** The first BAR the test accepts, none if it accepts none. */
  lemma {:induction false} AcceptHitExact(bars: seq<Mapping>, region: u32, size: u32, i: nat)
    ensures var h := AcceptHit(bars, region, size, i);
      && (h.Some? ==> i <= h.value < |bars| && Accepts(bars[h.value], region, size)
                      && forall j | i <= j < h.value :: !Accepts(bars[j], region, size))
      && (h.None? ==> forall j | i <= j < |bars| :: !Accepts(bars[j], region, size))
    decreases |bars| - i
  {
    if i < |bars| { AcceptHitExact(bars, region, size, i + 1); }
  }

  ghost function Obtained(bars: seq<Mapping>, region: u32, size: u32): u32 {
    AcceptHitExact(bars, region, size, 0);
    if region == 0 then 0
    else match AcceptHit(bars, region, size, 0)
      case Some(i) => Wrap32(bars[i].virt + (region - bars[i].bus))
      case None => 0
  }

  /** BAR b is there, mapped and memory, and passes the test of the ends modulo 2^32. */
  ghost predicate Offers(b: Mapping, region: nat, size: nat) {
    b.present && b.virt != 0 && !b.io && b.bus <= region && (region + size) % U32 <= (b.bus + b.size) % U32
  }

  /** A pointer is obtained exactly: at its offset into the first BAR that offers it, NULL
      if none does and for region 0. */
  lemma ObtainedExact(bars: seq<Mapping>, region: u32, size: u32)
    ensures var v := Obtained(bars, region, size);
      if region == 0 then v == 0
      else
        && (forall i: nat | i < |bars| && Offers(bars[i], region, size)
              && (forall j | 0 <= j < i :: !Offers(bars[j], region, size)) ::
              v == (bars[i].virt + (region - bars[i].bus)) % U32)
        && ((forall i | 0 <= i < |bars| :: !Offers(bars[i], region, size)) ==> v == 0)
  {
    AcceptHitExact(bars, region, size, 0);
    forall b: Mapping ensures Offers(b, region, size) <==> Accepts(b, region, size) {}
  }

  /** LibObtainPCIRegion: the pointer into that BAR, else NULL. */
  method ObtainPCIRegion(bars: seq<Mapping>, region: u32, size: u32) returns (v: u32)
    ensures v == Obtained(bars, region, size)
  {
    if region == 0 { return 0; }
    for i := 0 to |bars|
      invariant AcceptHit(bars, region, size, i) == AcceptHit(bars, region, size, 0)
    {
      var b := bars[i];
      if !b.present || b.virt == 0 || b.io { continue; }
      if region >= b.bus && Wrap32(region + size) <= Wrap32(b.bus + b.size) {
        return Wrap32(b.virt + (region - b.bus));
      }
    }
    return 0;
  }

  /** The wrapping test is the containment it stands for when both ends stay below
      4 GiB or both reach it.  Otherwise it goes wrong by judging a wrapped end: a
      request that alone runs past 4 GiB fits nowhere and may be accepted, one that
      lies in a BAR ending there may be refused. */
  lemma AcceptsExact(b: Mapping, region: u32, size: u32)
    requires Usable(b) && !b.io && b.bus <= region
    ensures (region + size < U32 <==> b.bus + b.size < U32) ==>
      (Accepts(b, region, size) <==> Contains(b, region, size))
    ensures region + size >= U32 && b.bus + b.size < U32 ==>
      !Contains(b, region, size) && (Accepts(b, region, size) <==> region + size - U32 <= b.bus + b.size)
    ensures region + size < U32 && b.bus + b.size >= U32 ==>
      Contains(b, region, size) && (Accepts(b, region, size) <==> region + size <= b.bus + b.size - U32)
  {}
}
