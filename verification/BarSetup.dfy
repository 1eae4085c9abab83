// Sizing and placing one function's BARs and expansion ROM, and the regions they
// come from, as pci_auto.c runs it.

module BarSetup {
  import opened Words
  import opened SlotPool
  import opened BarAlloc
  import opened Resources

  const MEM_MASK: nat := 0xffff_fff0
  const IO_MASK: nat := 0xffff_fffc
  const ROM_MASK: nat := 0xffff_fffe
  const ALL_ONES: nat := 0xffff_ffff

  datatype Kind = Mem | Pre | Io

  /** The three regions a controller allocates from; a board may lack some. */
  datatype Pools = Pools(mem: Option<Region>, pre: Option<Region>, io: Option<Region>)

  function Pool(ps: Pools, k: Kind): Option<Region> {
    match k case Mem => ps.mem case Pre => ps.pre case Io => ps.io
  }

  function WithPool(ps: Pools, k: Kind, r: Region): Pools {
    match k case Mem => ps.(mem := Some(r)) case Pre => ps.(pre := Some(r)) case Io => ps.(io := Some(r))
  }

  /** dev->bars[]: what was placed where. */
  datatype Bar = Absent | Bar(kind: Kind, is64: bool, addr: u32, size: u32)

  // ---- reading a sizing response ----

  lemma AndFits(a: u32, b: u32)
    ensures And(a, b) < U32
  {
    AndBound(a, b);
  }

  predicate Implemented(resp: u32) { resp != 0 && resp != ALL_ONES }
  predicate IsIo(resp: u32) { Bit(resp, 0) }
  predicate Is64(resp: u32) { !IsIo(resp) && And(resp, 6) == 4 }

  function SizeOf(resp: u32, mask: u32): u32 {
    AndFits(resp, mask);
    Minus(0, And(resp, mask))
  }

  function BarSize(resp: u32): u32 { SizeOf(resp, if IsIo(resp) then IO_MASK else MEM_MASK) }

  function KindOf(resp: u32, ps: Pools): Kind {
    if IsIo(resp) then Io else if ps.pre.Some? && And(resp, 8) != 0 then Pre else Mem
  }

  /** A well-behaved response, the negated size over flag bits below p, decodes to its
      size. */
  lemma SizeDecodes(size: u32, flags: nat, k: nat, p: nat, resp: u32)
    requires IsPow2(size) && p == Pow2(k) && k < 32 && p <= size && flags < p && resp == U32 - size + flags
    ensures 0 < p < U32 && SizeOf(resp, U32 - p) == size
  {
    Pow2Positive(k);
    Pow2_32();
    Pow2Monotone(k, 31);
    var q := FieldPart(size, k, p);
    HighPart(resp, k, p, q, flags);
  }

  lemma Difference(p: nat, a: nat, b: nat)
    requires p > 0 && p * a <= p * b
    ensures a <= b && p * b - p * a == p * (b - a)
  {
    MulOrder(p, b, a);
  }

  lemma FieldDivides(size: u32, k: nat, p: nat)
    requires IsPow2(size) && p == Pow2(k) && k < 32 && 0 < p <= size
    ensures size % p == 0 && U32 % p == 0
  {
    SizeDivides(size);
    Pow2Order(k, Log2(size));
    Pow2Divides(k, Log2(size));
    Pow2Divides(k, 32);
    Pow2_32();
  }

  lemma Quotient(x: nat, p: nat) returns (q: nat)
    requires p > 0 && x % p == 0
    ensures x == p * q
  {
    Multiple(x, p);
    q := x / p;
  }

  lemma FieldPart(size: u32, k: nat, p: nat) returns (q: nat)
    requires IsPow2(size) && p == Pow2(k) && k < 32 && 0 < p <= size
    ensures U32 - size == p * q
  {
    FieldDivides(size, k, p);
    var a := Quotient(size, p);
    var b := Quotient(U32, p);
    Difference(p, a, b);
    q := b - a;
  }

  lemma HighPart(w: u32, k: nat, p: nat, q: nat, t: nat)
    requires p == Pow2(k) && k < 32 && t < p < U32 && w == p * q + t
    ensures And(w, U32 - p) == p * q
  {
    Pow2_32();
    AndHighMask(w, 32, k, p);
    DivUnique(w, p, q, t);
  }

  // ---- which bits of a response mean what (section 6.2.5.1 of PCI Local Bus 3.0) ----

  /** A size in 32 bits is what is missing to 4 GiB, of an address with its low bits off. */
  ghost function Negated(resp: u32, low: nat): nat
    requires low > 0
  {
    if resp - resp % low == 0 then 0 else U32 - (resp - resp % low)
  }

  /** The kind an answer asks for, by its bits. */
  ghost function BitKind(resp: u32, prefetch: bool): Kind {
    if resp % 2 == 1 then Io else if resp / 8 % 2 == 1 && prefetch then Pre else Mem
  }

  lemma MaskOff(resp: u32, k: nat, p: nat)
    requires p == Pow2(k) && k <= 4
    ensures 0 < p < U32 && And(resp, U32 - p) == resp - resp % p && SizeOf(resp, U32 - p) == Negated(resp, p)
  {
    Powers();
    Pow2Order(k, 4);
    Pow2_32();
    Pow2Positive(k);
    AndHighMask(resp, 32, k, p);
  }

  /** The kind, width and size of a BAR as the bits of its answer say: bit 0 means I/O;
      otherwise bits 2:1 equal to 2 mean 64-bit, and bit 3 means prefetchable where there
      is such a region.  The low four bits of a memory BAR, two of an I/O BAR, are no
      part of the size. */
  lemma AnswerBits(ps: Pools, resp: u32)
    ensures Implemented(resp) <==> resp != 0 && resp != 0xffff_ffff
    ensures IsIo(resp) <==> resp % 2 == 1
    ensures Is64(resp) <==> resp % 2 == 0 && resp / 2 % 4 == 2
    ensures KindOf(resp, ps) == BitKind(resp, ps.pre.Some?)
    ensures BarSize(resp) == Negated(resp, if resp % 2 == 1 then 4 else 16)
  {
    Powers();
    FieldExact(resp, 2, 4, 1, 2, 6);
    FieldExact(resp, 1, 2, 3, 8, 8);
    MaskOff(resp, 4, 16);
    MaskOff(resp, 2, 4);
  }

  lemma RomBits(resp: u32)
    ensures SizeOf(resp, ROM_MASK) == Negated(resp, 2)
  {
    Powers();
    MaskOff(resp, 1, 2);
  }

  /** ... for memory, I/O and ROM registers. */
  lemma ResponseDecodes(size: u32, flags: nat, resp: u32)
    requires IsPow2(size) && resp == U32 - size + flags
    ensures 16 <= size && flags < 16 && !IsIo(resp) ==> BarSize(resp) == size
    ensures 4 <= size && flags < 4 && IsIo(resp) ==> BarSize(resp) == size
    ensures 2 <= size && flags < 2 ==> SizeOf(resp, ROM_MASK) == size
  {
    assert Pow2(4) == 16 && Pow2(2) == 4 && Pow2(1) == 2;
    if 16 <= size && flags < 16 { SizeDecodes(size, flags, 4, 16, resp); }
    if 4 <= size && flags < 4 { SizeDecodes(size, flags, 2, 4, resp); }
    if 2 <= size && flags < 2 { SizeDecodes(size, flags, 1, 2, resp); }
  }

  // ---- the BAR loop ----

  /** One request against the pool of its kind. */
  function Ask(ps: Pools, k: Kind, size: u32): Option<u32> {
    var r := Pool(ps, k);
    if r.None? then None else Grant(r.value, size)
  }

  function Served(ps: Pools, k: Kind, size: u32): Pools {
    var r := Pool(ps, k);
    if r.None? then ps else WithPool(ps, k, After(r.value, size))
  }

  datatype Dev = Dev(ps: Pools, bars: seq<Bar>, regs: seq<u32>)

  /** BAR registers sized: each holds what all-ones leaves in it. */
  ghost function Tickle(d: Dev, slot: nat, resp: seq<u32>): Dev
    requires slot + 1 < |resp| == |d.regs|
  {
    var one := d.regs[slot := resp[slot]];
    d.(regs := if Implemented(resp[slot]) && Is64(resp[slot]) then one[slot + 1 := resp[slot + 1]] else one)
  }

  /** One turn of the loop, and where the next one starts: a placed 64-bit BAR takes
      two registers, one that found no room only its first. */
  ghost function Turn(d: Dev, slot: nat, resp: seq<u32>): (t: (Dev, nat))
    requires slot + 1 < |resp| == |d.regs| && slot < |d.bars|
    ensures |t.0.regs| == |d.regs| && |t.0.bars| == |d.bars| && slot < t.1 <= slot + 2
  {
    var r, e := resp[slot], Tickle(d, slot, resp);
    if !Implemented(r) then (e, slot + 1)
    else
      var k, size := KindOf(r, d.ps), BarSize(r);
      var g := Ask(d.ps, k, size);
      if g.None? then (e, slot + 1)
      else
        var put := e.regs[slot := g.value];
        (Dev(Served(d.ps, k, size), d.bars[slot := Bar(k, Is64(r), g.value, size)],
             if Is64(r) then put[slot + 1 := 0] else put),
         if Is64(r) then slot + 2 else slot + 1)
  }

  /** One turn, from the bits of the answers.  A BAR that answers neither 0 nor all-ones is
      placed if and only if its kind's region grants it its size: the address goes to the
      register, 0 to the next one of a 64-bit BAR, and the region moves on.  Otherwise the
      registers are left sized, and the next turn is the next register's. */
  lemma TurnExact(d: Dev, slot: nat, resp: seq<u32>)
    requires slot + 1 < |resp| == |d.regs| && slot < |d.bars|
    ensures
      var r, t := resp[slot], Turn(d, slot, resp);
      var asks, wide := r != 0 && r != 0xffff_ffff, r % 2 == 0 && r / 2 % 4 == 2;
      var k, size := BitKind(r, d.ps.pre.Some?), Negated(r, if r % 2 == 1 then 4 else 16);
      var p := Pool(d.ps, k);
      if asks && p.Some? && Grant(p.value, size).Some? then
        var a := Grant(p.value, size).value;
        && t.1 == (if wide then slot + 2 else slot + 1) && t.0.bars == d.bars[slot := Bar(k, wide, a, size)]
        && t.0.regs == (if wide then d.regs[slot := a][slot + 1 := 0] else d.regs[slot := a])
        && Pool(t.0.ps, k) == Some(After(p.value, size)) && forall j | j != k :: Pool(t.0.ps, j) == Pool(d.ps, j)
      else
        && t.1 == slot + 1 && t.0.bars == d.bars && t.0.ps == d.ps
        && t.0.regs == if asks && wide then d.regs[slot := r][slot + 1 := resp[slot + 1]] else d.regs[slot := r]
  {
    AnswerBits(d.ps, resp[slot]);
  }

  ghost function Setup(d: Dev, slot: nat, num: nat, resp: seq<u32>): Dev
    requires num < |resp| == |d.regs| && num == |d.bars|
    decreases num - slot
  {
    if slot >= num then d
    else var t := Turn(d, slot, resp); Setup(t.0, t.1, num, resp)
  }

  // ---- what the loop leaves ----

  /** Every BAR the loop may come to asks for a power of two, or for the 0 that a
      64-bit BAR of 4 GiB or more comes to in 32 bits. */
  ghost predicate Regular(resp: seq<u32>, num: nat) {
    forall i | 0 <= i < num && i < |resp| && Implemented(resp[i]) :: BarSize(resp[i]) == 0 || IsPow2(BarSize(resp[i]))
  }

  /** ... and one its pool can be trusted with. */
  ghost predicate Trusted(ps: Pools, resp: seq<u32>, num: nat) {
    forall i | 0 <= i < num && i < |resp| && Implemented(resp[i]) ::
      var p := Pool(ps, KindOf(resp[i], ps)); p.Some? ==> SizeOk(p.value.start, BarSize(resp[i]), false)
  }

  /** Same regions, allocators not moved back. */
  ghost predicate Advanced(ps0: Pools, ps: Pools) {
    forall k ::
      && (Pool(ps, k).Some? <==> Pool(ps0, k).Some?)
      && (Pool(ps, k).Some? ==>
            var a, b := Pool(ps0, k).value, Pool(ps, k).value;
            RegionOk(b) && b.start == a.start && b.size == a.size && Pos(a) <= Pos(b))
  }

  /** The range lies in the region from where the allocator stood at first. */
  ghost predicate InPool(ps0: Pools, b: Bar)
    requires b.Bar?
  {
    Pool(ps0, b.kind).Some? && (b.size > 0 ==>
      Within(b.addr, b.size, Pos(Pool(ps0, b.kind).value), End(Pool(ps0, b.kind).value)))
  }

  /** ... and in the stretch that was allocated since; a range of no bytes is at 0,
      its pool used up. */
  ghost predicate InStretch(ps0: Pools, ps: Pools, b: Bar)
    requires b.Bar?
  {
    && InPool(ps0, b) && Pool(ps, b.kind).Some?
    && (if b.size > 0 then b.addr + b.size <= Pos(Pool(ps, b.kind).value)
        else b.addr == 0 && Pos(Pool(ps, b.kind).value) == U32)
  }

  /** A BAR is what its response asked for: its kind, width and size by the bits. */
  ghost predicate Asked(ps0: Pools, b: Bar, resp: u32)
    requires b.Bar?
  {
    && resp != 0 && resp != 0xffff_ffff
    && b.kind == BitKind(resp, ps0.pre.Some?)
    && (b.is64 <==> resp % 2 == 0 && resp / 2 % 4 == 2)
    && b.size == Negated(resp, if resp % 2 == 1 then 4 else 16)
  }

  /** Two BARs of one pool, in the order of their registers. */
  ghost predicate InOrder(a: Bar, b: Bar)
    requires a.Bar? && b.Bar?
  {
    a.kind == b.kind && b.size > 0 ==> a.size > 0 && a.addr + a.size <= b.addr
  }

  ghost predicate Sound(ps0: Pools, d: Dev, slot: nat, resp: seq<u32>) {
    && |d.regs| == |resp| > |d.bars|
    && Advanced(ps0, d.ps)
    && (forall i | 0 <= i < |d.bars| && d.bars[i].Bar? ::
          && (if d.bars[i].is64 then i + 2 else i + 1) <= slot
          && InStretch(ps0, d.ps, d.bars[i])
          && Asked(ps0, d.bars[i], resp[i])
          && d.regs[i] == d.bars[i].addr
          && (d.bars[i].is64 ==> d.regs[i + 1] == 0))
    && (forall i, j | 0 <= i < j < |d.bars| && d.bars[i].Bar? && d.bars[j].Bar? ::
          (d.bars[i].is64 ==> j != i + 1) && InOrder(d.bars[i], d.bars[j]))
  }

  /** A request that fits its pool, or asks for nothing. */
  ghost predicate FitsPool(ps: Pools, k: Kind, size: nat) {
    size == 0 || (Pool(ps, k).Some? && Fits(Pool(ps, k).value, size))
  }

  lemma AskExact(ps0: Pools, ps: Pools, k: Kind, size: u32)
    requires Advanced(ps0, ps) && Ask(ps, k, size).Some? && (size == 0 || IsPow2(size)) && FitsPool(ps, k, size)
    ensures var q := Served(ps, k, size);
      && Advanced(ps0, q)
      && (size > 0 ==>
            && Within(Ask(ps, k, size).value, size, Pos(Pool(ps, k).value), Pos(Pool(q, k).value))
            && Ask(ps, k, size).value + size <= End(Pool(ps, k).value))
      && (size == 0 ==> Ask(ps, k, size).value == 0 && Pos(Pool(q, k).value) == U32)
      && Pos(Pool(ps, k).value) <= Pos(Pool(q, k).value)
      && forall j | j != k :: Pool(q, j) == Pool(ps, j)
  {
    if size == 0 { NoneGranted(Pool(ps, k).value); } else { FitGranted(Pool(ps, k).value, size); }
  }

  lemma FitGranted(r: Region, size: u32)
    requires RegionOk(r) && IsPow2(size) && Grant(r, size).Some? && Fits(r, size)
    ensures var a, q := Grant(r, size).value, After(r, size);
      && Within(a, size, Pos(r), Pos(q)) && a + size <= End(r)
      && RegionOk(q) && q.start == r.start && q.size == r.size
  {
    AlignedIsUp(r, size);
  }

  lemma NoneGranted(r: Region)
    requires RegionOk(r) && Grant(r, 0).Some?
    ensures var q := After(r, 0);
      Grant(r, 0) == Some(0) && RegionOk(q) && q.start == r.start && q.size == r.size && Pos(q) == U32
  {
    ZeroAligned(r.lower);
  }

  /** A range granted without fitting is not where ranges belong. */
  lemma AskAstray(ps0: Pools, ps: Pools, k: Kind, size: u32)
    requires Advanced(ps0, ps) && Ask(ps, k, size).Some? && IsPow2(size) && !FitsPool(ps, k, size)
    ensures !Within(Ask(ps, k, size).value, size, Pos(Pool(ps0, k).value), End(Pool(ps0, k).value))
  {
    AlignedIsUp(Pool(ps, k).value, size);
  }

  /** Registers from slot on are free to change. */
  lemma NothingPlaced(ps0: Pools, d: Dev, slot: nat, resp: seq<u32>, regs: seq<u32>, next: nat)
    requires Sound(ps0, d, slot, resp) && slot <= next && |regs| == |d.regs|
    requires forall i | 0 <= i < slot && i < |regs| :: regs[i] == d.regs[i]
    ensures Sound(ps0, d.(regs := regs), next, resp)
  {}

  /** One more BAR at slot, above all those placed in its pool before. */
  lemma OnePlaced(ps0: Pools, d: Dev, slot: nat, resp: seq<u32>, b: Bar, ps: Pools)
    requires Sound(ps0, d, slot, resp) && slot < |d.bars| && d.bars[slot] == Absent && b.Bar?
    requires Advanced(ps0, ps) && InStretch(ps0, ps, b) && Asked(ps0, b, resp[slot])
    requires Pool(d.ps, b.kind).Some? && (b.size > 0 ==> Pos(Pool(d.ps, b.kind).value) <= b.addr < U32)
    requires Pos(Pool(d.ps, b.kind).value) <= Pos(Pool(ps, b.kind).value) <= U32
    requires forall k | k != b.kind :: Pool(ps, k) == Pool(d.ps, k)
    requires d.regs[slot] == b.addr && (b.is64 ==> d.regs[slot + 1] == 0)
    ensures Sound(ps0, d.(ps := ps, bars := d.bars[slot := b]), if b.is64 then slot + 2 else slot + 1, resp)
  {
    forall i | 0 <= i < |d.bars| && i != slot && d.bars[i].Bar?
      ensures i < slot && InStretch(ps0, ps, d.bars[i]) && InOrder(d.bars[i], b)
    {
      assert InStretch(ps0, d.ps, d.bars[i]);
    }
  }

  /** One turn, exactly: it keeps all that unless it places a range that does not fit,
      and then that range is astray. */
  lemma TurnKeeps(ps0: Pools, d: Dev, slot: nat, num: nat, resp: seq<u32>)
    requires num < |resp| == |d.regs| && num == |d.bars| && slot < num
    requires Sound(ps0, d, slot, resp) && Regular(resp, num) && d.bars[slot] == Absent
    ensures var t := Turn(d, slot, resp);
      if TurnFits(d, slot, resp) then Sound(ps0, t.0, t.1, resp)
      else t.0.bars[slot].Bar? && !InPool(ps0, t.0.bars[slot])
    ensures var t := Turn(d, slot, resp); forall i | 0 <= i < num && i != slot :: t.0.bars[i] == d.bars[i]
  {
    var r, t := resp[slot], Turn(d, slot, resp);
    NothingPlaced(ps0, d, slot, resp, Tickle(d, slot, resp).regs, slot + 1);
    if Implemented(r) {
      var k, size := KindOf(r, d.ps), BarSize(r);
      AnswerBits(ps0, r);
      assert KindOf(r, ps0) == k by { assert Pool(d.ps, Pre).Some? <==> Pool(ps0, Pre).Some?; }
      if Ask(d.ps, k, size).Some? {
        assert Pool(ps0, k).Some? && End(Pool(ps0, k).value) == End(Pool(d.ps, k).value);
        if FitsPool(d.ps, k, size) {
          AskExact(ps0, d.ps, k, size);
          NothingPlaced(ps0, d, slot, resp, t.0.regs, slot);
          OnePlaced(ps0, d.(regs := t.0.regs), slot, resp, t.0.bars[slot], t.0.ps);
        } else {
          AskAstray(ps0, d.ps, k, size);
        }
      }
    }
  }

  /** The turn places nothing, or something that fits. */
  ghost predicate TurnFits(d: Dev, slot: nat, resp: seq<u32>)
    requires slot < |resp|
  {
    var k, size := KindOf(resp[slot], d.ps), BarSize(resp[slot]);
    Implemented(resp[slot]) && Ask(d.ps, k, size).Some? ==> FitsPool(d.ps, k, size)
  }

  ghost predicate AllFit(d: Dev, slot: nat, num: nat, resp: seq<u32>)
    requires num < |resp| == |d.regs| && num == |d.bars|
    decreases num - slot
  {
    slot >= num || (TurnFits(d, slot, resp) && (var t := Turn(d, slot, resp); AllFit(t.0, t.1, num, resp)))
  }

  lemma {:induction false} SetupKeepsBelow(d: Dev, slot: nat, num: nat, resp: seq<u32>, i: nat)
    requires num < |resp| == |d.regs| && num == |d.bars| && i < num && i < slot
    ensures var e := Setup(d, slot, num, resp); |e.bars| == num && |e.regs| == |d.regs| && e.bars[i] == d.bars[i]
    decreases num - slot
  {
    if slot < num {
      var t := Turn(d, slot, resp);
      SetupKeepsBelow(t.0, t.1, num, resp, i);
    }
  }

  lemma {:induction false} SetupShape(d: Dev, slot: nat, num: nat, resp: seq<u32>)
    requires num < |resp| == |d.regs| && num == |d.bars|
    ensures var e := Setup(d, slot, num, resp); |e.bars| == num && |e.regs| == |d.regs|
    decreases num - slot
  {
    if slot < num {
      var t := Turn(d, slot, resp);
      SetupShape(t.0, t.1, num, resp);
    }
  }

  /** A whole device, exactly.  The BARs placed are aligned to their sizes, inside the
      part of their region taken since, in ascending order and so disjoint; each is of
      the kind, width and size its response asked for; their registers hold their
      addresses, and a 64-bit BAR has its upper half zero and to itself.  All this if
      and only if nothing was placed that did not fit. */
  lemma {:induction false} SetupExact(ps0: Pools, d: Dev, slot: nat, num: nat, resp: seq<u32>)
    requires num < |resp| == |d.regs| && num == |d.bars|
    requires Sound(ps0, d, slot, resp) && Regular(resp, num) && forall i | slot <= i < num :: d.bars[i] == Absent
    ensures var e := Setup(d, slot, num, resp);
      && |e.bars| == num && |e.regs| == |d.regs|
      && (Sound(ps0, e, num + 1, resp) <==> AllFit(d, slot, num, resp))
    decreases num - slot
  {
    SetupShape(d, slot, num, resp);
    if slot < num {
      TurnKeeps(ps0, d, slot, num, resp);
      var t := Turn(d, slot, resp);
      if TurnFits(d, slot, resp) {
        SetupExact(ps0, t.0, t.1, num, resp);
      } else {
        SetupKeepsBelow(t.0, t.1, num, resp, slot);
        assert !InStretch(ps0, Setup(d, slot, num, resp).ps, Setup(d, slot, num, resp).bars[slot]);
      }
    }
  }

  lemma {:induction false} TrustedFits(ps0: Pools, d: Dev, slot: nat, num: nat, resp: seq<u32>)
    requires num < |resp| == |d.regs| && num == |d.bars|
    requires Sound(ps0, d, slot, resp) && Regular(resp, num) && forall i | slot <= i < num :: d.bars[i] == Absent
    requires Trusted(ps0, resp, num)
    ensures AllFit(d, slot, num, resp)
    decreases num - slot
  {
    if slot < num {
      var r := resp[slot];
      var k, size := KindOf(r, d.ps), BarSize(r);
      if Implemented(r) && Ask(d.ps, k, size).Some? && size > 0 {
        assert KindOf(r, ps0) == k by { assert Pool(d.ps, Pre).Some? <==> Pool(ps0, Pre).Some?; }
        GrantExact(Pool(d.ps, k).value, size);
      }
      TurnKeeps(ps0, d, slot, num, resp);
      var t := Turn(d, slot, resp);
      TrustedFits(ps0, t.0, t.1, num, resp);
    }
  }

  /** The same regions, no allocator moved back. */
  ghost predicate Later(a: Pools, b: Pools) {
    forall k ::
      && (Pool(a, k).Some? <==> Pool(b, k).Some?)
      && (Pool(a, k).Some? ==>
            var p, q := Pool(a, k).value, Pool(b, k).value;
            p.start == q.start && p.size == q.size && Pos(p) <= Pos(q))
  }

  lemma TurnLater(ps0: Pools, d: Dev, slot: nat, resp: seq<u32>)
    requires slot + 1 < |resp| == |d.regs| && slot < |d.bars| && Advanced(ps0, d.ps) && TurnFits(d, slot, resp)
    requires Implemented(resp[slot]) ==> BarSize(resp[slot]) == 0 || IsPow2(BarSize(resp[slot]))
    ensures Later(d.ps, Turn(d, slot, resp).0.ps)
  {
    var k, size := KindOf(resp[slot], d.ps), BarSize(resp[slot]);
    if Implemented(resp[slot]) && Ask(d.ps, k, size).Some? { AskExact(ps0, d.ps, k, size); }
  }

  lemma {:induction false} SetupLater(ps0: Pools, d: Dev, slot: nat, num: nat, resp: seq<u32>)
    requires num < |resp| == |d.regs| && num == |d.bars|
    requires Sound(ps0, d, slot, resp) && Regular(resp, num) && forall i | slot <= i < num :: d.bars[i] == Absent
    requires AllFit(d, slot, num, resp)
    ensures Later(d.ps, Setup(d, slot, num, resp).ps)
    decreases num - slot
  {
    if slot < num {
      TurnKeeps(ps0, d, slot, num, resp);
      TurnLater(ps0, d, slot, resp);
      var t := Turn(d, slot, resp);
      SetupLater(ps0, t.0, t.1, num, resp);
    }
  }

  /** Room later is room now. */
  lemma RoomNow(a: Pools, b: Pools, k: Kind, size: u32)
    requires Later(a, b) && Pool(a, k).Some? && RegionOk(Pool(a, k).value) && IsPow2(size)
    requires Fits(Pool(b, k).value, size)
    ensures Ask(a, k, size).Some?
  {
    UpOrder(Pos(Pool(a, k).value), Pos(Pool(b, k).value), size);
    RoomExact(Pool(a, k).value, size);
  }

  /** Register i is one the loop comes to: no 64-bit BAR was placed at the one before. */
  ghost predicate ComesTo(bars: seq<Bar>, slot: nat, i: nat) {
    i <= slot || i > |bars| || bars[i - 1] == Absent || !bars[i - 1].is64
  }

  lemma PlacesNow(ps0: Pools, d: Dev, slot: nat, num: nat, resp: seq<u32>)
    requires num < |resp| == |d.regs| && num == |d.bars| && slot < num
    requires Sound(ps0, d, slot, resp) && Regular(resp, num) && forall j | slot <= j < num :: d.bars[j] == Absent
    requires AllFit(d, slot, num, resp) && Implemented(resp[slot]) && BarSize(resp[slot]) > 0
    requires var e, k := Setup(d, slot, num, resp), KindOf(resp[slot], d.ps);
      Pool(e.ps, k).Some? && Fits(Pool(e.ps, k).value, BarSize(resp[slot]))
    ensures Turn(d, slot, resp).0.bars[slot].Bar?
  {
    SetupLater(ps0, d, slot, num, resp);
    RoomNow(d.ps, Setup(d, slot, num, resp).ps, KindOf(resp[slot], d.ps), BarSize(resp[slot]));
  }

  /** Where the loop goes from here. */
  lemma GoesOn(ps0: Pools, d: Dev, slot: nat, num: nat, resp: seq<u32>)
    requires num < |resp| == |d.regs| && num == |d.bars| && slot < num
    requires Sound(ps0, d, slot, resp) && Regular(resp, num) && forall j | slot <= j < num :: d.bars[j] == Absent
    requires AllFit(d, slot, num, resp)
    ensures var t, e := Turn(d, slot, resp), Setup(d, slot, num, resp);
      && Sound(ps0, t.0, t.1, resp) && (forall j | t.1 <= j < num :: t.0.bars[j] == Absent)
      && AllFit(t.0, t.1, num, resp) && e == Setup(t.0, t.1, num, resp) && Later(d.ps, t.0.ps)
      && |e.bars| == num && e.bars[slot] == t.0.bars[slot]
      && (t.1 == slot + 2 ==> e.bars[slot].Bar? && e.bars[slot].is64)
  {
    TurnKeeps(ps0, d, slot, num, resp);
    TurnLater(ps0, d, slot, resp);
    SetupKeepsBelow(Turn(d, slot, resp).0, Turn(d, slot, resp).1, num, resp, slot);
  }

  lemma {:induction false} SetupPlaces(ps0: Pools, d: Dev, slot: nat, num: nat, resp: seq<u32>, i: nat)
    requires num < |resp| == |d.regs| && num == |d.bars| && slot <= i < num
    requires Sound(ps0, d, slot, resp) && Regular(resp, num) && forall j | slot <= j < num :: d.bars[j] == Absent
    requires AllFit(d, slot, num, resp) && Implemented(resp[i]) && BarSize(resp[i]) > 0
    requires var e, k := Setup(d, slot, num, resp), KindOf(resp[i], d.ps);
      |e.bars| == num && ComesTo(e.bars, slot, i) && Pool(e.ps, k).Some? && Fits(Pool(e.ps, k).value, BarSize(resp[i]))
    ensures Setup(d, slot, num, resp).bars[i].Bar?
    decreases num - slot
  {
    GoesOn(ps0, d, slot, num, resp);
    if slot == i {
      PlacesNow(ps0, d, slot, num, resp);
    } else {
      var t := Turn(d, slot, resp);
      SameKind(d.ps, t.0.ps, resp[i]);
      SetupPlaces(ps0, t.0, t.1, num, resp, i);
    }
  }

  lemma SameKind(a: Pools, b: Pools, resp: u32)
    requires Later(a, b)
    ensures KindOf(resp, a) == KindOf(resp, b)
  {
    assert Pool(a, Pre).Some? <==> Pool(b, Pre).Some?;
  }

  /** No BAR is passed over: one the loop comes to that answers neither 0 nor all-ones and
      asks for something is placed if its kind's region has room for it, even if only
      what is left of the region after all the others. */
  lemma SetupComplete(ps0: Pools, d: Dev, num: nat, resp: seq<u32>, i: nat)
    requires num < |resp| == |d.regs| && num == |d.bars| && i < num
    requires Sound(ps0, d, 0, resp) && Regular(resp, num) && forall j | 0 <= j < num :: d.bars[j] == Absent
    requires AllFit(d, 0, num, resp) && resp[i] != 0 && resp[i] != 0xffff_ffff
    ensures var e, size := Setup(d, 0, num, resp), Negated(resp[i], if resp[i] % 2 == 1 then 4 else 16);
      var k := BitKind(resp[i], d.ps.pre.Some?);
      && |e.bars| == num
      && (ComesTo(e.bars, 0, i) && size > 0 && Pool(e.ps, k).Some? && Fits(Pool(e.ps, k).value, size) ==>
            e.bars[i].Bar?)
  {
    SetupShape(d, 0, num, resp);
    AnswerBits(d.ps, resp[i]);
    var e, k, size := Setup(d, 0, num, resp), KindOf(resp[i], d.ps), BarSize(resp[i]);
    if ComesTo(e.bars, 0, i) && size > 0 && Pool(e.ps, k).Some? && Fits(Pool(e.ps, k).value, size) {
      SetupPlaces(ps0, d, 0, num, resp, i);
    }
  }

  /** In particular for responses below the start of their region. */
  lemma SetupSound(ps0: Pools, d: Dev, num: nat, resp: seq<u32>)
    requires num < |resp| == |d.regs| && num == |d.bars|
    requires Sound(ps0, d, 0, resp) && Regular(resp, num) && Trusted(ps0, resp, num)
    ensures Sound(ps0, Setup(d, 0, num, resp), num + 1, resp)
  {
    TrustedFits(ps0, d, 0, num, resp);
    SetupExact(ps0, d, 0, num, resp);
  }

  /** The ROM comes after the BARs, from the memory region. */
  lemma RomApart(ps0: Pools, d: Dev, num: nat, resp: seq<u32>, size: u32, i: nat)
    requires Sound(ps0, d, num, resp) && i < |d.bars| && d.bars[i].Bar? && d.bars[i].kind == Mem
    requires Ask(d.ps, Mem, size).Some? && Sizable(Pool(d.ps, Mem).value.start, size)
    ensures d.bars[i].size > 0 && d.bars[i].addr + d.bars[i].size <= Ask(d.ps, Mem, size).value
  {
    assert InStretch(ps0, d.ps, d.bars[i]);
    GrantExact(Pool(d.ps, Mem).value, size);
    AskExact(ps0, d.ps, Mem, size);
  }

  // ---- as the source runs it ----

  class Window {
    const start: u32
    const phys: u64
    const size: u32
    const flags: u32
    var lower: u32

    function View(): Region reads this { Region(start, phys, size, flags, lower) }

    constructor (r: Region)
      ensures View() == r
    {
      start, phys, size, flags, lower := r.start, r.phys, r.size, r.flags, r.lower;
    }

    /** pciauto_region_init */
    method Init()
      modifies this
      ensures View() == Reset(old(View())) && lower == if start < 0x1000 then 0x1000 else start
    {
      lower := if start < FLOOR then FLOOR else start;
    }

    /** pciauto_region_align */
    method Align(n: u32)
      modifies this
      ensures View() == old(View()).(lower := Aligned(old(lower), n))
    {
      OrFits(Minus(lower, 1), Minus(n, 1));
      lower := Plus(Or(Minus(lower, 1), Minus(n, 1)), 1);
    }

    /** pciauto_region_allocate */
    method Allocate(n: u32) returns (r: Option<u32>)
      modifies this
      ensures r == Grant(old(View()), n) && View() == After(old(View()), n)
    {
      OrFits(Minus(lower, 1), Minus(n, 1));
      var addr: u32 := Plus(Or(Minus(lower, 1), Minus(n, 1)), 1);
      if Plus(Minus(addr, start), n) > size { return None; }
      lower := Plus(addr, n);
      return Some(addr);
    }
  }

  ghost function ViewOf(w: Window?): Option<Region>
    reads w
  {
    if w == null then None else Some(w.View())
  }

  ghost function PoolsOf(mem: Window?, pre: Window?, io: Window?): Pools
    reads mem, pre, io
  {
    Pools(ViewOf(mem), ViewOf(pre), ViewOf(io))
  }

  /** The bridge's memory window registers. */
  class Bridge {
    var memBase: nat
    var memLimit: nat

    constructor () {
      memBase, memLimit := 0, 0;
    }

    /** The memory part of pciauto_prescan_setup_bridge */
    method PrescanMem(mem: Window)
      modifies this`memBase, mem
      ensures mem.View() == Rounded(old(mem.View())) && memBase == BaseReg(Rounded(old(mem.View())))
    {
      mem.Align(MIB);
      memBase := And(And(mem.lower, 0xfff0_0000) / 0x1_0000, RANGE_MASK);
    }

    /** The memory part of pciauto_postscan_setup_bridge */
    method PostscanMem(mem: Window)
      modifies this`memLimit, mem
      ensures mem.View() == Rounded(old(mem.View())) && memLimit == LimitReg(Rounded(old(mem.View())))
    {
      mem.Align(MIB);
      memLimit := And(Minus(mem.lower, 1) / 0x1_0000, RANGE_MASK);
    }
  }

  /** pciauto_config_init picks, for each kind, the largest region whose flags are
      that kind's, the first of equals. */
  method PickRegion(flags: seq<nat>, sizes: seq<nat>, want: nat) returns (best: Option<nat>)
    requires |flags| == |sizes|
    ensures best.None? <==> want !in flags
    ensures best.Some? ==>
      && best.value < |flags| && flags[best.value] == want
      && (forall j | 0 <= j < |flags| && flags[j] == want :: sizes[j] <= sizes[best.value])
      && (forall j | 0 <= j < best.value && flags[j] == want :: sizes[j] < sizes[best.value])
  {
    best := None;
    for i := 0 to |flags|
      invariant best.None? <==> want !in flags[..i]
      invariant best.Some? ==>
        && best.value < i && flags[best.value] == want
        && (forall j | 0 <= j < i && flags[j] == want :: sizes[j] <= sizes[best.value])
        && (forall j | 0 <= j < best.value && flags[j] == want :: sizes[j] < sizes[best.value])
    {
      if flags[i] == want && (best.None? || sizes[best.value] < sizes[i]) { best := Some(i); }
    }
  }

  class Function {
    const num: nat                  // bars_num
    const resp: seq<u32>            // what each register answers to all-ones
    const bars: array<Bar>          // dev->bars
    const regs: array<u32>          // the BAR registers, and one more
    var rom: u32                    // the ROM base register

    ghost predicate Valid() {
      num == bars.Length && num < |resp| == regs.Length && bars as object != regs
    }

    ghost function View(mem: Window?, pre: Window?, io: Window?): Dev
      reads bars, regs, mem, pre, io
    {
      Dev(PoolsOf(mem, pre, io), bars[..], regs[..])
    }

    static ghost predicate Apart(mem: Window?, pre: Window?, io: Window?) {
      (mem != null ==> mem != pre && mem != io) && (pre != null ==> pre != io)
    }

    /** All-ones written, the answer left in the register, both of a 64-bit BAR. */
    method TickleBar(slot: nat, ghost mem: Window?, ghost pre: Window?, ghost io: Window?)
      requires Valid() && slot < num
      modifies regs
      ensures View(mem, pre, io) == Tickle(old(View(mem, pre, io)), slot, resp)
    {
      regs[slot] := resp[slot];
      if Implemented(resp[slot]) && Is64(resp[slot]) { regs[slot + 1] := resp[slot + 1]; }
    }

    /** pciauto_region_allocate from the region of a kind, which may be missing. */
    static method AllocateFrom(k: Kind, size: u32, mem: Window?, pre: Window?, io: Window?) returns (addr: Option<u32>)
      requires Apart(mem, pre, io)
      modifies mem, pre, io
      ensures addr == Ask(old(PoolsOf(mem, pre, io)), k, size)
      ensures PoolsOf(mem, pre, io) == Served(old(PoolsOf(mem, pre, io)), k, size)
    {
      var res := match k case Mem => mem case Pre => pre case Io => io;
      if res == null { return None; }
      addr := res.Allocate(size);
    }

    /** One turn of the BAR loop of pciauto_setup_device. */
    method SetupBar(slot: nat, mem: Window?, pre: Window?, io: Window?) returns (next: nat)
      requires Valid() && Apart(mem, pre, io) && slot < num
      modifies mem, pre, io, bars, regs
      ensures (View(mem, pre, io), next) == Turn(old(View(mem, pre, io)), slot, resp)
    {
      next := slot + 1;
      TickleBar(slot, mem, pre, io);
      if resp[slot] == 0 || resp[slot] == ALL_ONES { return; }
      var is64 := Is64(resp[slot]);
      var size := BarSize(resp[slot]);
      AndFits(resp[slot], 8);
      var kind := Mem;
      if IsIo(resp[slot]) { kind := Io; } else if pre != null && And(resp[slot], 8) != 0 { kind := Pre; }
      var addr := AllocateFrom(kind, size, mem, pre, io);
      if addr.None? { return; }
      Place(slot, Bar(kind, is64, addr.value, size));
      if is64 { next := slot + 2; }
    }

    /** A BAR's address into its register, or its two, and the BAR on record. */
    method Place(slot: nat, b: Bar)
      requires Valid() && slot < num && b.Bar?
      modifies bars, regs
      ensures bars[..] == old(bars[..])[slot := b]
      ensures var put := old(regs[..])[slot := b.addr]; regs[..] == if b.is64 then put[slot + 1 := 0] else put
    {
      regs[slot] := b.addr;
      if b.is64 { regs[slot + 1] := 0; }
      bars[slot] := b;
    }

    /** The BAR loop of pciauto_setup_device. */
    method SetupBars(mem: Window?, pre: Window?, io: Window?)
      requires Valid() && Apart(mem, pre, io)
      modifies mem, pre, io, bars, regs
      ensures View(mem, pre, io) == Setup(old(View(mem, pre, io)), 0, num, resp)
    {
      var slot := 0;
      while slot < num
        invariant Setup(View(mem, pre, io), slot, num, resp) == Setup(old(View(mem, pre, io)), 0, num, resp)
        decreases num - slot
      {
        slot := SetupBar(slot, mem, pre, io);
      }
    }

    /** The expansion ROM of pciauto_setup_device. */
    method SetupRom(answer: u32, mem: Window?)
      modifies mem, this`rom
      ensures var was, size := old(ViewOf(mem)), Negated(answer, 2);
        if answer != 0 && was.Some? && Grant(was.value, size).Some? then
          rom == Grant(was.value, size).value && ViewOf(mem) == Some(After(was.value, size))
        else rom == answer && ViewOf(mem) == was
    {
      RomBits(answer);
      rom := answer;
      if answer == 0 || mem == null { return; }
      var addr := mem.Allocate(SizeOf(answer, ROM_MASK));
      if addr.Some? { rom := addr.value; }
    }
  }
}
