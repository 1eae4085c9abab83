// The address allocator of pci_auto.c: align and bump in wrapping 32-bit
// arithmetic.

module BarAlloc {
  import opened Words
  import opened SlotPool
  import opened Resources

  // ---- rounding up ----

  /** The least multiple of p not below x. */
  ghost function Up(x: nat, p: nat): nat
    requires p > 0
  {
    if x % p == 0 then x else x - x % p + p
  }

  lemma Multiple(x: nat, p: nat)
    requires p > 0
    ensures x == p * (x / p) + x % p
  {}

  lemma UpExact(x: nat, p: nat)
    requires p > 0
    ensures Up(x, p) % p == 0 && x <= Up(x, p) < x + p
  {
    if x % p != 0 {
      var q := x / p;
      Multiple(x, p);
      assert p * (q + 1) == p * q + p;
      DivUnique(p * q + p, p, q + 1, 0);
    }
  }

  lemma UpLeast(x: nat, p: nat, m: nat)
    requires p > 0 && m % p == 0 && x <= m
    ensures Up(x, p) <= m
  {
    if x % p != 0 {
      var q, t := x / p, m / p;
      Multiple(x, p);
      Multiple(m, p);
      if t <= q { MulOrder(p, t, q); assert false; }
      MulOrder(p, q, t);
    }
  }

  lemma UpOrder(x: nat, y: nat, p: nat)
    requires p > 0 && x <= y
    ensures Up(x, p) <= Up(y, p)
  {
    UpExact(y, p);
    UpLeast(x, p, Up(y, p));
  }

  lemma PredMod(x: nat, p: nat)
    requires p > 0 && x > 0
    ensures (x - 1) % p == if x % p == 0 then p - 1 else x % p - 1
  {
    var q, t := x / p, x % p;
    Multiple(x, p);
    if t == 0 {
      assert q > 0;
      assert p * q == p * (q - 1) + p;
      DivUnique(x - 1, p, q - 1, p - 1);
    } else {
      DivUnique(x - 1, p, q, t - 1);
    }
  }

  lemma Pow2Divides(k: nat, n: nat)
    requires k <= n
    ensures Pow2(k) > 0 && Pow2(n) % Pow2(k) == 0
  {
    Pow2Positive(k);
    Pow2Add(k, n - k);
    DivUnique(Pow2(n), Pow2(k), Pow2(n - k), 0);
  }

  /** Alignments of 32-bit addresses divide 4 GiB. */
  lemma SizeDivides(p: nat)
    requires IsPow2(p) && p < U32
    ensures U32 % p == 0 && p == Pow2(Log2(p)) && Log2(p) < 32
  {
    Log2Exact(p);
    Pow2_32();
    if Log2(p) >= 32 { Pow2Monotone(32, Log2(p)); }
    Pow2Divides(Log2(p), 32);
  }

  // ---- one region ----

  const FLOOR: nat := 0x1000

  // u32 subtraction and addition.
  function Minus(a: u32, b: u32): u32 { if a >= b then a - b else a + U32 - b }
  function Plus(a: u32, b: u32): u32 { if a + b < U32 then a + b else a + b - U32 }

  /** 4 GiB shows as 0. */
  ghost function Low32(a: nat): nat { if a == U32 then 0 else a }

  lemma OrFits(a: u32, b: u32)
    ensures Or(a, b) < U32
  {
    Pow2_32();
    OrBound(a, b, 32);
  }

  /** `((lower - 1) | (size - 1)) + 1` */
  function Aligned(lower: u32, size: u32): u32 {
    OrFits(Minus(lower, 1), Minus(size, 1));
    Plus(Or(Minus(lower, 1), Minus(size, 1)), 1)
  }

  /** `addr - start + size <= res->size` */
  predicate Room(r: Region, addr: u32, size: u32) {
    Plus(Minus(addr, r.start), size) <= r.size
  }

  /** pciauto_region_allocate: the address granted. */
  function Grant(r: Region, size: u32): Option<u32> {
    var addr := Aligned(r.lower, size);
    if Room(r, addr, size) then Some(addr) else None
  }

  /** ... and the region afterwards. */
  function After(r: Region, size: u32): Region {
    match Grant(r, size)
    case Some(addr) => r.(lower := Plus(addr, size))
    case None => r
  }

  /** Where the allocator stands; a lower bound wrapped to 0 stands for 4 GiB. */
  ghost function Pos(r: Region): nat { if r.lower == 0 then U32 else r.lower }

  ghost function End(r: Region): nat { r.start + r.size }

  /** A window that ends at or below 4 GiB, the allocator not below its start. */
  ghost predicate RegionOk(r: Region) {
    End(r) <= U32 && r.start <= Pos(r)
  }

  ghost predicate Fits(r: Region, size: nat)
    requires size > 0
  {
    Up(Pos(r), size) + size <= End(r)
  }

  /** The wrapping round-up is the unbounded one, 4 GiB showing as 0. */
  lemma AlignedIsUp(r: Region, p: u32)
    requires IsPow2(p)
    ensures Pos(r) <= Up(Pos(r), p) <= U32 && Up(Pos(r), p) % p == 0
    ensures Aligned(r.lower, p) == Low32(Up(Pos(r), p))
  {
    SizeDivides(p);
    var y := Minus(r.lower, 1);
    assert y == Pos(r) - 1;
    OrLowMask(y, Log2(p), p);
    PredMod(Pos(r), p);
    UpExact(Pos(r), p);
    UpLeast(Pos(r), p, U32);
    OrFits(y, p - 1);
  }

  lemma MultiplesApart(a: nat, b: nat, p: nat)
    requires p > 0 && a % p == 0 && b % p == 0 && a < b
    ensures a + p <= b
  {
    Multiple(a, p);
    Multiple(b, p);
    if b / p <= a / p { MulOrder(p, b / p, a / p); }
    MulOrder(p, a / p, b / p);
  }

  /** A request for no bytes, which a 64-bit BAR of 4 GiB or more makes once its size
      is cut to 32 bits, is answered with address 0 whatever was taken before. */
  lemma ZeroAligned(lower: u32)
    ensures Aligned(lower, 0) == 0
  {
    Pow2_32();
    OrLowMask(Minus(lower, 1), 32, U32);
    DivUnique(Minus(lower, 1), U32, 0, Minus(lower, 1));
  }

  /** The 32-bit room test, exactly.  For a power of two it agrees with the unbounded
      one but for two wrapped cases, neither of which a size below the region's start
      can meet; no bytes are granted where the region starts at 0 or ends at 4 GiB. */
  lemma RoomExact(r: Region, size: u32)
    requires RegionOk(r) && (size == 0 || IsPow2(size))
    ensures size > 0 ==>
      var a := Up(Pos(r), size);
      Grant(r, size).Some? <==>
        || Fits(r, size)
        || (a == U32 && r.start <= size <= End(r))
        || (a + size == U32 && r.start == 0)
    ensures size == 0 ==> (Grant(r, 0).Some? <==> r.start == 0 || End(r) == U32)
  {
    if size == 0 {
      ZeroAligned(r.lower);
    } else {
      AlignedIsUp(r, size);
      SizeDivides(size);
      var a := Up(Pos(r), size);
      if a < U32 { MultiplesApart(a, U32, size); }
    }
  }

  /** ... and it uses the region up: bus_lower stands at 4 GiB, and until the next
      reset no request of any size below the start is granted. */
  lemma ZeroTakesAll(r: Region, size: u32)
    requires RegionOk(r) && Grant(r, 0).Some? && IsPow2(size) && size < r.start
    ensures Grant(r, 0) == Some(0) && RegionOk(After(r, 0)) && Pos(After(r, 0)) == U32
    ensures Grant(After(r, 0), size).None?
  {
    ZeroAligned(r.lower);
    GrantExact(After(r, 0), size);
    AlignedIsUp(After(r, 0), size);
  }

  /** With sizes below bus_start a request is granted if and only if it fits, at the
      first aligned address from bus_lower on, and moves bus_lower past it. */
  lemma GrantExact(r: Region, size: u32)
    requires RegionOk(r) && IsPow2(size) && size < r.start
    ensures Grant(r, size).Some? <==> Fits(r, size)
    ensures Grant(r, size).Some? ==>
      var a := Grant(r, size).value;
      && a == Up(Pos(r), size) && a % size == 0 && Pos(r) <= a && a + size <= End(r)
      && Pos(After(r, size)) == a + size && RegionOk(After(r, size))
    ensures Grant(r, size).None? ==> After(r, size) == r
  {
    RoomExact(r, size);
    AlignedIsUp(r, size);
  }

  /** The upper half of the address space, unused or used up. */
  lemma HalfGrants(r: Region)
    requires r.start == r.size == 0x8000_0000 && (r.lower == 0x8000_0000 || r.lower == 0)
    ensures Grant(r, 0x8000_0000) == Some(r.lower)
    ensures Fits(r, 0x8000_0000) <==> r.lower == 0x8000_0000
  {
    TwoGiB();
    AlignedIsUp(r, 0x8000_0000);
  }

  /** Otherwise it need not be: a 2 GiB window ending at 4 GiB, used up by one BAR,
      grants a second one of its size at address 0. */
  lemma FullRegionGrantsAgain(phys: u64, flags: u32)
    ensures var r := Region(0x8000_0000, phys, 0x8000_0000, flags, 0x8000_0000);
      && RegionOk(r) && Grant(r, 0x8000_0000) == Some(0x8000_0000)
      && Grant(After(r, 0x8000_0000), 0x8000_0000) == Some(0)
      && !Fits(After(r, 0x8000_0000), 0x8000_0000)
  {
    var r := Region(0x8000_0000, phys, 0x8000_0000, flags, 0x8000_0000);
    HalfGrants(r);
    HalfGrants(r.(lower := 0));
  }

  lemma TwoGiB()
    ensures IsPow2(0x8000_0000)
  {
    Pow2Add(16, 15);
    Pow2Add(8, 8);
    Pow2Add(8, 7);
    assert Pow2(8) == 256 && Pow2(7) == 128;
    assert Pow2(31) == 0x8000_0000;
    Pow2IsPow2(31);
  }

  /** A BAR size the region can be trusted with. */
  ghost predicate Sizable(start: nat, size: nat) { IsPow2(size) && size < start }

  /** The request is for nothing or one the region can be trusted with; `aligned`, the
      region starts at a multiple of it. */
  ghost predicate SizeOk(start: nat, size: nat, aligned: bool) {
    size == 0 || (Sizable(start, size) && (aligned ==> start % size == 0))
  }

  /** [a, a + size) is aligned to its size and lies in [lo, hi). */
  ghost predicate Within(a: nat, size: nat, lo: nat, hi: nat) {
    size > 0 && a % size == 0 && lo <= a && a + size <= hi
  }

  // ---- bridge windows ----

  const MIB: nat := 0x10_0000         // CONFIG_PCI_BRIDGE_MEM_ALIGNMENT
  const RANGE_MASK: nat := 0xfff0     // PCI_MEMORY_RANGE_MASK on a 16-bit register

  /** pciauto_region_init, called for the region by every pciauto_config_init. */
  function Reset(r: Region): Region { r.(lower := if r.start < FLOOR then FLOOR else r.start) }

  /** pciauto_region_align to the bridge granularity. */
  function Rounded(r: Region): Region { r.(lower := Aligned(r.lower, MIB)) }

  // What prescan writes to MEMORY_BASE and postscan to MEMORY_LIMIT.
  function BaseReg(r: Region): nat { And(And(r.lower, 0xfff0_0000) / 0x1_0000, RANGE_MASK) }
  function LimitReg(r: Region): nat { And(Minus(r.lower, 1) / 0x1_0000, RANGE_MASK) }

  // How a bridge reads them (section 3.2.5.8 of the PCI-to-PCI Bridge Architecture
  // Specification 1.2): the low 20 bits are 0 in the base and 1 in the limit.
  function BaseOf(reg: nat): nat { And(reg, RANGE_MASK) * 0x1_0000 }
  function LimitOf(reg: nat): nat { And(reg, RANGE_MASK) * 0x1_0000 + 0xf_ffff }

  lemma MaskRange(w: nat, q: nat, t: nat)
    requires w < 0x1_0000 && w == 16 * q + t && t < 16
    ensures And(w, RANGE_MASK) == 16 * q
  {
    Pow2Add(8, 8);
    assert Pow2(8) == 256 && Pow2(4) == 16;
    AndHighMask(w, 16, 4, 16);
    DivUnique(w, 16, q, t);
  }

  lemma MibIsPow2()
    ensures IsPow2(MIB) && Pow2(20) == MIB
  {
    Pow2Add(8, 12);
    Pow2Add(4, 8);
    assert Pow2(8) == 256 && Pow2(4) == 16;
    Pow2IsPow2(20);
  }

  lemma Megabytes(x: nat, q: nat)
    requires x == MIB * q && q >= 1
    ensures x / 0x1_0000 == 16 * q && (x - 1) / 0x1_0000 == 16 * (q - 1) + 15
  {}

  lemma Sixteens(q: nat)
    requires q < 0x1000
    ensures And(16 * q, RANGE_MASK) == 16 * q && And(16 * q + 15, RANGE_MASK) == 16 * q
  {
    MaskRange(16 * q, q, 0);
    MaskRange(16 * q + 15, q, 15);
  }

  lemma MibIndex(x: nat) returns (q: nat)
    requires x % MIB == 0 && 0 < x <= U32
    ensures x == MIB * q && 1 <= q <= 0x1000
  {
    q := x / MIB;
  }

  lemma TopMask(y: u32, q: nat)
    requires y == MIB * q
    ensures And(y, 0xfff0_0000) == y
  {
    MibIsPow2();
    Pow2_32();
    AndHighMask(y, 32, 20, MIB);
    DivUnique(y, MIB, q, 0);
  }

  lemma BaseRegister(r: Region, q: nat)
    requires r.lower == MIB * q && 1 <= q <= 0x1000
    ensures BaseReg(r) == 16 * q
  {
    TopMask(r.lower, q);
    Megabytes(r.lower, q);
    if q < 0x1000 { Sixteens(q); }
  }

  lemma LimitRegister(r: Region, q: nat)
    requires Pos(r) == MIB * q && 1 <= q <= 0x1000
    ensures LimitReg(r) == 16 * (q - 1)
  {
    Megabytes(Pos(r), q);
    Sixteens(q - 1);
  }

  lemma RegisterBytes(q: nat)
    requires 1 <= q
    ensures 16 * q * 0x1_0000 == MIB * q && 16 * (q - 1) * 0x1_0000 + 0xf_ffff == MIB * q - 1
  {}

  lemma BaseDecodes(r: Region)
    requires r.lower % MIB == 0
    ensures BaseOf(BaseReg(r)) == r.lower
  {
    if r.lower > 0 {
      var q := MibIndex(r.lower);
      BaseRegister(r, q);
      Sixteens(q);
      RegisterBytes(q);
    }
  }

  lemma LimitDecodes(r: Region)
    requires r.lower % MIB == 0
    ensures LimitOf(LimitReg(r)) == Pos(r) - 1
  {
    var q := MibIndex(Pos(r));
    LimitRegister(r, q);
    Sixteens(q - 1);
    RegisterBytes(q);
  }

  lemma RoundedIsUp(r: Region)
    ensures Pos(Rounded(r)) == Up(Pos(r), MIB) && Rounded(r).lower % MIB == 0
  {
    MibIsPow2();
    AlignedIsUp(r, MIB);
  }

  lemma ResetOk(r: Region)
    requires End(r) <= U32 && r.start >= FLOOR
    ensures RegionOk(Reset(r)) && Pos(Reset(r)) == r.start
  {}
}
