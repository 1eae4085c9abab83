// The interrupt-vector core in the form of the source: a controller and a device
// as objects whose methods write bitmaps, tables and registers.  Every method is
// proved to compute the function of Vectors.dfy named in its contract.

module IrqDriver {
  import opened Words
  import opened SlotPool
  import opened Vectors
  import D = Demux

  // ---- register words ----

  /** Bits outside `m` do not see a change of bits inside it. */
  lemma FieldKept(w: nat, b: nat, m: nat)
    requires And(b, m) == 0
    ensures And(Or(w, b), m) == And(w, m) && And(AndNot(w, b), m) == And(w, m)
  {}

  /** Clear a field, then insert a value into it. */
  lemma FieldInserted(w: nat, v: nat, m: nat)
    requires And(v, m) == v
    ensures And(Or(AndNot(w, m), v), m) == v
  {}

  lemma FlagSet(w: nat, k: nat, i: nat)
    ensures Bit(Or(w, Pow2(k)), i) <==> Bit(w, i) || i == k
    ensures Bit(AndNot(w, Pow2(k)), i) <==> Bit(w, i) && i != k
  {
    BitOr(w, Pow2(k), i);
    BitAndNot(w, Pow2(k), i);
    BitPow2(k, i);
  }

  /** Testing, setting and clearing one bit of a bitmap. */
  lemma OneBit(w: u32, i: nat)
    requires i < 32
    ensures Pow2(i) < U32 && Or(w, Pow2(i)) < U32 && AndNot(w, Pow2(i)) < U32
    ensures And(w, Pow2(i)) != 0 <==> i in BitSet(w)
    ensures BitSet(Or(w, Pow2(i))) == BitSet(w) + {i}
    ensures BitSet(AndNot(w, Pow2(i))) == BitSet(w) - {i}
  {
    SetOfPow2(i);
    OrSet(w, Pow2(i));
    AndNotSet(w, Pow2(i));
    AndSet(w, Pow2(i));
    EmptySetIsZero(And(w, Pow2(i)));
    assert BitSet(w) * {i} == {} <==> i !in BitSet(w);
  }

  lemma WholeWord()
    ensures BitSet(0xffff_ffff) == Block(0, 32)
  {
    SetOfBlock(32, 0);
    Pow2_32();
  }

  /** The mask of a block of n slots at base. */
  function BlockMask(n: nat, base: nat): (m: u32)
    requires n + base <= SLOTS
  {
    SetOfBlock(n, base);
    if n >= 32 then 0xffff_ffff else (Pow2(n) - 1) * Pow2(base)
  }

  lemma BlockMaskSet(w: u32, n: nat, base: nat)
    requires n + base <= SLOTS
    ensures And(w, BlockMask(n, base)) == 0 <==> Block(base, n) !! BitSet(w)
    ensures Or(w, BlockMask(n, base)) < U32
    ensures BitSet(Or(w, BlockMask(n, base))) == BitSet(w) + Block(base, n)
  {
    SetOfBlock(n, base);
    WholeWord();
    var m := BlockMask(n, base);
    assert BitSet(m) == Block(base, n);
    AndSet(w, m);
    OrSet(w, m);
    EmptySetIsZero(And(w, m));
    if BitSet(w) * Block(base, n) == {} {
      forall x | x in Block(base, n) ensures x !in BitSet(w) {
        assert x !in BitSet(w) * Block(base, n);
      }
    }
  }

  lemma ElemsAppend(s: seq<nat>, x: nat)
    ensures Elems(s + [x]) == Elems(s) + {x}
  {}

  /** What the any-slot search will have found when it stops. */
  ghost function Found(u: set<nat>, i: nat, n: nat, got: seq<nat>): seq<nat> {
    got + FirstFree(u, i, n)
  }

  /** One turn of the search, after `got` was taken below i. */
  lemma TakeNext(u: set<nat>, i: nat, n: nat, got: seq<nat>)
    requires i < SLOTS && n > 0 && forall x | x in got :: x < i
    ensures i in u + Elems(got) <==> i in u
    ensures Found(u, i, n, got) == if i in u then Found(u, i + 1, n, got) else Found(u, i + 1, n - 1, got + [i])
    ensures u + Elems(got) + {i} == u + Elems(got + [i])
  {}

  lemma SearchEnds(u: set<nat>, i: nat, n: nat)
    ensures i >= SLOTS || n == 0 ==> FirstFree(u, i, n) == []
    ensures Found(u, i, n, []) == FirstFree(u, i, n) && u + Elems([]) == u
  {}

  ghost predicate IsrOnly(es: seq<D.Event>) {
    forall e | e in es :: e.Arrive? || e.Clear? || e.Call?
  }

  class Controller {
    var used: u32                             // bitmap of reserved demux slots
    const servers: array<Option<Server>>      // server bound to each slot
    var maskReg: u32                          // MSI_INTR2 mask, as hardware holds it
    var latchReg: u32                         // MSI_INTR2 status
    var gic: map<nat, Server>                 // gic400: one server per line

    ghost predicate Valid() reads this { servers.Length == SLOTS }

    ghost function View(): (c: Ctrl)
      reads this, servers
      requires Valid()
      ensures CtrlOk(c)
    {
      Ctrl(BitSet(used), servers[..], BitSet(maskReg), BitSet(latchReg), gic)
    }

    constructor ()
      ensures Valid() && fresh(servers)
      ensures View().used == {} && View().masked == BitSet(0xffff_ffff) && View().latch == {} && gic == map[]
      ensures forall x | 0 <= x < SLOTS :: View().servers[x].None?
    {
      used := 0;
      servers := new Option<Server>[SLOTS](_ => None);
      maskReg := 0xffff_ffff;
      latchReg := 0;
      gic := map[];
      new;
      SetOfZero();
    }

    // ---- slot pool ----

    /** `if (!(used & (1u << i))) used |= 1u << i` */
    method TakeIfFree(i: nat) returns (taken: bool)
      requires i < SLOTS
      modifies this`used
      ensures taken <==> i !in old(BitSet(used))
      ensures BitSet(used) == old(BitSet(used)) + {i}
    {
      OneBit(used, i);
      taken := And(used, Pow2(i)) == 0;
      if taken { used := Or(used, Pow2(i)); }
    }

    /** The any-slot search has looked below i and taken k of n slots out of u0. */
    ghost predicate Searching(out: array<nat>, u0: set<nat>, n: nat, i: nat, k: nat)
      reads this, out
    {
      && out.Length == SLOTS && k <= i <= SLOTS && k <= n
      && Found(u0, i, n - k, out[..k]) == FirstFree(u0, 0, n)
      && (forall x | x in out[..k] :: x < i)
      && BitSet(used) == u0 + Elems(out[..k])
    }

    /** One turn of the search. */
    method SearchStep(out: array<nat>, ghost u0: set<nat>, ghost n: nat, i: nat, k: nat) returns (k': nat)
      requires Searching(out, u0, n, i, k) && i < SLOTS && k < n
      modifies this`used, out
      ensures Searching(out, u0, n, i + 1, k')
    {
      ghost var got := out[..k];
      TakeNext(u0, i, n - k, got);
      var taken := TakeIfFree(i);
      k' := k;
      if taken {
        out[k] := i;
        k' := k + 1;
        assert out[..k'] == got + [i];
      }
    }

    /** pci_irq_slots_alloc_any */
    method SlotsAllocAny(n: nat, out: array<nat>) returns (k: nat)
      requires Valid() && out.Length == SLOTS && n <= SLOTS
      modifies this`used, out
      ensures k <= SLOTS && out[..k] == FirstFree(old(BitSet(used)), 0, n)
      ensures BitSet(used) == old(BitSet(used)) + Elems(out[..k])
    {
      ghost var u0 := BitSet(used);
      SearchEnds(u0, 0, n);
      k := 0;
      var i := 0;
      while i < SLOTS && k < n
        invariant Searching(out, u0, n, i, k)
      {
        k := SearchStep(out, u0, n, i, k);
        i := i + 1;
      }
      SearchEnds(u0, i, n - k);
    }

    /** pci_irq_slots_alloc_aligned; -1 is None */
    method SlotsAllocAligned(n: nat) returns (r: Option<nat>)
      requires Valid() && 0 < n <= SLOTS
      modifies this`used
      ensures r == LowestBlock(old(BitSet(used)), n, 0)
      ensures BitSet(used) == old(BitSet(used)) + (if r.Some? then Block(r.value, n) else {})
      ensures r.None? ==> used == old(used)
    {
      var base := 0;
      while base + n <= SLOTS
        invariant LowestBlock(BitSet(used), n, base) == LowestBlock(BitSet(used), n, 0)
        invariant used == old(used)
        decreases SLOTS - base
      {
        var mask := BlockMask(n, base);
        BlockMaskSet(used, n, base);
        if And(used, mask) == 0 {
          used := Or(used, mask);
          return Some(base);
        }
        base := base + n;
      }
      return None;
    }

    /** The halving loop of pci_msi_alloc */
    method LargestAligned(top: nat, min: nat) returns (r: Option<(nat, nat)>)
      requires Valid() && IsPow2(top) && top <= SLOTS && min > 0
      modifies this`used
      ensures r == LargestBlock(old(BitSet(used)), top, min)
      ensures BitSet(used) == old(BitSet(used)) + (if r.Some? then Block(r.value.1, r.value.0) else {})
      ensures r.None? ==> used == old(used)
    {
      var n: nat := top;
      while n >= min
        invariant n == 0 || IsPow2(n)
        invariant n <= SLOTS && used == old(used)
        invariant LargestBlock(BitSet(used), top, min) ==
          if n > 0 then LargestBlock(BitSet(used), n, min) else None
        decreases n
      {
        var base := SlotsAllocAligned(n);
        if base.Some? { return Some((n, base.value)); }
        n := n / 2;
      }
      return None;
    }

    /** pci_irq_slots_free */
    method SlotsFree(slots: array<nat>, n: nat)
      requires Valid() && n <= slots.Length && forall i | 0 <= i < n :: slots[i] < SLOTS
      modifies this`used
      ensures BitSet(used) == old(BitSet(used)) - Elems(slots[..n])
    {
      var i := 0;
      while i < n
        invariant 0 <= i <= n
        invariant BitSet(used) == old(BitSet(used)) - Elems(slots[..i])
      {
        OneBit(used, slots[i]);
        used := AndNot(used, Pow2(slots[i]));
        assert slots[..i + 1] == slots[..i] + [slots[i]];
        ElemsAppend(slots[..i], slots[i]);
        i := i + 1;
      }
    }

    // ---- the demux ISR ----

    /** The registers and table hold what the step machine's state holds. */
    ghost predicate Tracks(s: D.State)
      reads this, servers
    {
      && Valid() && D.Inv(s)
      && s.servers == servers[..] && BitSet(latchReg) == D.Latch(s) && BitSet(maskReg) == s.masked
    }

    /** Hardware: messages for the slots xs arrive. */
    method Arrivals(xs: seq<nat>, ghost s: D.State, ghost es: seq<D.Event>) returns (ghost es': seq<D.Event>)
      requires D.Inv(s) && Tracks(D.Run(s, es)) && (forall x | x in xs :: x < SLOTS) && IsrOnly(es)
      modifies this`latchReg
      ensures IsrOnly(es')
      ensures var t, t' := D.Run(s, es), D.Run(s, es');
        Tracks(t') && t'.phase == t.phase && t'.calls == t.calls
    {
      es' := es;
      var i := 0;
      while i < |xs|
        invariant 0 <= i <= |xs| && IsrOnly(es')
        invariant var t, t' := D.Run(s, es), D.Run(s, es');
          Tracks(t') && t'.phase == t.phase && t'.calls == t.calls
      {
        assert xs[i] in xs;
        OneBit(latchReg, xs[i]);
        latchReg := Or(latchReg, Pow2(xs[i]));
        D.ArriveEffect(D.Run(s, es'), xs[i]);
        D.RunLast(s, es', D.Arrive(xs[i]));
        es' := es' + [D.Arrive(xs[i])];
        i := i + 1;
      }
    }

    /** One turn of the ISR's loop: clear the slot, look up its server, call it;
        messages for `first` and `then_` arrive before the clear and before the
        look-up. */
    method DemuxTurn(slot: nat, first: seq<nat>, then_: seq<nat>, ghost s: D.State, ghost es: seq<D.Event>)
      returns (server: Option<Server>, ghost es': seq<D.Event>)
      requires D.Inv(s) && Tracks(D.Run(s, es)) && IsrOnly(es) && slot < SLOTS
      requires D.Run(s, es).phase.Scan? && D.Lowest(slot, D.Run(s, es).phase.status)
      requires (forall x | x in first :: x < SLOTS) && (forall x | x in then_ :: x < SLOTS)
      modifies this`latchReg
      ensures server == servers[slot] && IsrOnly(es')
      ensures var t, t' := D.Run(s, es), D.Run(s, es');
        && Tracks(t') && t'.phase == D.Resume(t.phase.status - {slot})
        && t'.calls == t.calls + (if server.Some? then [(slot, server.value)] else [])
    {
      es' := Arrivals(first, s, es);
      OneBit(latchReg, slot);
      latchReg := AndNot(latchReg, Pow2(slot));
      D.ClearEffect(D.Run(s, es'), slot);
      D.RunLast(s, es', D.Clear);
      es' := es' + [D.Clear];

      es' := Arrivals(then_, s, es');
      server := servers[slot];
      D.CallEffect(D.Run(s, es'));
      D.RunLast(s, es', D.Call);
      es' := es' + [D.Call];
    }

    /** `slot = ctz(status); status &= status - 1` */
    static method TakeLowest(status: u32) returns (slot: nat, rest: u32)
      requires status != 0
      ensures slot < SLOTS && D.Lowest(slot, BitSet(status)) && BitSet(status) != {}
      ensures BitSet(rest) == BitSet(status) - {slot} && rest < status
    {
      EmptySetIsZero(status);
      DropLowestSet(status);
      AndBound(status, status - 1);
      slot := Ctz(status);
      rest := And(status, status - 1);
    }

    /** Midway through a pass entered in state s: the events so far, the calls made,
        and those the snapshot still owes out of `all`. */
    ghost predicate Midway(s: D.State, es: seq<D.Event>, status: u32,
                           calls: seq<(nat, Server)>, all: seq<(nat, Server)>)
      requires D.Inv(s)
      reads this, servers
    {
      var t := D.Run(s, es);
      && IsrOnly(es) && Tracks(t)
      && t.phase == D.Resume(BitSet(status))
      && t.calls == s.calls + calls
      && calls + D.Calls(BitSet(status), servers[..], 0) == all
    }

    method DemuxStep(status: u32, calls: seq<(nat, Server)>, first: seq<nat>, then_: seq<nat>,
                     ghost s: D.State, ghost es: seq<D.Event>, ghost all: seq<(nat, Server)>)
      returns (rest: u32, calls': seq<(nat, Server)>, ghost es': seq<D.Event>)
      requires D.Inv(s) && Midway(s, es, status, calls, all) && status != 0
      requires (forall x | x in first :: x < SLOTS) && (forall x | x in then_ :: x < SLOTS)
      modifies this`latchReg
      ensures rest < status && Midway(s, es', rest, calls', all)
    {
      var slot, server;
      slot, rest := TakeLowest(status);
      D.CallsTaken(calls, BitSet(status), servers[..], slot);
      server, es' := DemuxTurn(slot, first, then_, s, es);
      calls' := if server.Some? then calls + [(slot, server.value)] else calls;
    }

    /** brcm_msi_demux_isr.  hw(j) are the slots of the messages that arrive just
        before the j-th access after STATUS was read.  The accesses made and the
        messages in between are a run of the step machine that starts with its
        Enter and ends with the ISR returned. */
    method DemuxIsr(hw: nat -> seq<nat>, ghost s: D.State)
      returns (handled: bool, calls: seq<(nat, Server)>, ghost es: seq<D.Event>)
      requires Tracks(s) && s.phase.Asleep? && forall j, x | x in hw(j) :: x < SLOTS
      modifies this`latchReg
      ensures handled <==> old(BitSet(latchReg)) != {}
      ensures calls == D.Calls(old(BitSet(latchReg)), servers[..], 0)
      ensures IsrOnly(es)
      ensures var t := D.Run(D.Next(s, D.Enter), es);
        Tracks(t) && t.phase.Asleep? && t.calls == s.calls + calls
    {
      ghost var s1 := D.Next(s, D.Enter);
      D.EnterEffect(s);
      calls, es := [], [];
      assert D.Run(s1, es) == s1;
      var status: u32 := latchReg;
      ghost var all := D.Calls(BitSet(status), servers[..], 0);
      EmptySetIsZero(status);
      D.CallsNone(servers[..], 0);
      if status == 0 { return false, [], []; }
      var j := 0;
      while status != 0
        invariant Midway(s1, es, status, calls, all)
        decreases status
      {
        status, calls, es := DemuxStep(status, calls, hw(j), hw(j + 1), s1, es, all);
        j := j + 2;
      }
      EmptySetIsZero(status);
      return true, calls, es;
    }

    // ---- one slot ----

    /** brcm_msi_slot_bind */
    method SlotBind(slot: nat, isr: Server)
      requires Valid() && slot < SLOTS
      modifies this`maskReg, this`latchReg, servers
      ensures View() == Bind(old(View()), slot, isr)
    {
      OneBit(latchReg, slot);
      OneBit(maskReg, slot);
      servers[slot] := Some(isr);
      latchReg := AndNot(latchReg, Pow2(slot));
      maskReg := AndNot(maskReg, Pow2(slot));
    }

    /** brcm_msi_slot_unbind */
    method SlotUnbind(slot: nat)
      requires Valid() && slot < SLOTS
      modifies this`maskReg, servers
      ensures View() == Unbind(old(View()), slot)
    {
      SlotSetMask(slot, true);
      servers[slot] := None;
    }

    /** brcm_msi_slot_mask / brcm_msi_slot_unmask */
    method SlotSetMask(slot: nat, hold: bool)
      requires Valid() && slot < SLOTS
      modifies this`maskReg
      ensures View() == old(View()).(masked :=
                if hold then old(View()).masked + {slot} else old(View()).masked - {slot})
    {
      OneBit(maskReg, slot);
      if hold { maskReg := Or(maskReg, Pow2(slot)); } else { maskReg := AndNot(maskReg, Pow2(slot)); }
    }

    /** brcm_gic_add_server on gic400's one-server-per-line table */
    method GicAddServer(irq: nat, isr: Server, fault: bool) returns (r: Ret)
      modifies this`gic
      ensures r == if irq in old(gic) then Err(EBUSY) else if fault then Err(EIO) else Ok(0)
      ensures gic == if r == Ok(0) then old(gic)[irq := isr] else old(gic)
    {
      if irq in gic { return Err(EBUSY); }
      if fault { return Err(EIO); }
      gic := gic[irq := isr];
      return Ok(0);
    }

    method GicRemServer(irq: nat, isr: Server)
      modifies this`gic
      ensures gic == GicRemove(old(gic), irq, isr)
    {
      if irq in gic && gic[irq] == isr { gic := gic - {irq}; }
    }
  }

  // ---- the device ----

  // Bits of the capability registers.
  const MSI_ENABLE: nat := 0        // Message Control, MSI
  const MSI_QSIZE: nat := 0x70
  const MSIX_MASKALL: nat := 14     // Message Control, MSI-X
  const MSIX_ENABLE: nat := 15
  const INTX_DISABLE: nat := 10     // Command
  const ENTRY_MASKED: nat := 0      // Vector Control of a table entry

  // The values of active.mode.
  const IRQ_NONE: nat := 0
  const IRQ_INTX: nat := 1
  const IRQ_MSI: nat := 2
  const IRQ_MSIX: nat := 4

  ghost function ModeOf(m: nat): Mode {
    if m == IRQ_MSIX then Msix else if m == IRQ_MSI then Msi else if m == IRQ_INTX then Intx else Idle
  }

  /** One MSI-X table entry as it lies in the BAR. */
  datatype RawEntry = RawEntry(lo: nat, hi: nat, data: nat, ctrl: nat)

  ghost function EntryOf(e: RawEntry): Entry {
    Entry(e.lo, e.hi, e.data, Bit(e.ctrl, ENTRY_MASKED))
  }

  ghost function TableOf(t: seq<RawEntry>): (r: seq<Entry>)
    ensures |r| == |t|
  {
    seq(|t|, i requires 0 <= i < |t| => EntryOf(t[i]))
  }

  /** mask_extract(w, PCI_MSI_FLAGS_QSIZE) */
  function Mme(flags: nat): nat { And(flags, MSI_QSIZE) / 16 }

  lemma MmeExact(w: nat)
    ensures Mme(w) == w / 16 % 8
  {
    Powers();
    FieldExact(w, 3, 8, 4, 16, MSI_QSIZE);
  }

  lemma MmeKept(w: nat)
    ensures Mme(Or(w, Pow2(MSI_ENABLE))) == Mme(w) && Mme(AndNot(w, Pow2(MSI_ENABLE))) == Mme(w)
  {
    assert And(1, 0x70) == 0 by { assert And(0, 0x38) == 0; }
    FieldKept(w, 1, MSI_QSIZE);
  }

  lemma AndDouble(x: nat, m: nat, y: nat, z: nat)
    requires y == 2 * x && z == 2 * m
    ensures And(y, z) == 2 * And(x, m)
  {}

  lemma AndTimes16(x: nat, m: nat, y: nat, z: nat)
    requires y == 16 * x && z == 16 * m
    ensures And(y, z) == 16 * And(x, m)
  {
    AndDouble(x, m, 2 * x, 2 * m);
    AndDouble(2 * x, 2 * m, 4 * x, 4 * m);
    AndDouble(4 * x, 4 * m, 8 * x, 8 * m);
    AndDouble(8 * x, 8 * m, y, z);
  }

  lemma MmeFits(v: nat, w: nat)
    requires v < 8 && w == v * 16
    ensures And(w, MSI_QSIZE) == w
  {
    assert Pow2(3) == 8;
    AndLowMask(v, 3, 8);
    AndTimes16(v, 7, w, MSI_QSIZE);
  }

  /** mask_insert of a message count leaves the enable bit alone. */
  lemma MmeInserted(w: nat, v: nat)
    requires v < 8
    ensures Mme(Or(AndNot(w, MSI_QSIZE), v * 16)) == v
    ensures Bit(Or(AndNot(w, MSI_QSIZE), v * 16), MSI_ENABLE) <==> Bit(w, MSI_ENABLE)
  {
    MmeFits(v, v * 16);
    FieldInserted(w, v * 16, MSI_QSIZE);
    BitOr(AndNot(w, MSI_QSIZE), v * 16, 0);
    BitAndNot(w, MSI_QSIZE, 0);
  }

  class Device {
    const caps: Caps                    // decoded at probe
    var mode: nat                       // active.mode
    var nvec: nat                       // active.nvec
    const slots: array<nat>             // active.slots
    var intxServer: Option<Server>      // active.intx_server
    var msiShadow: u32                  // msi.mask
    var preferMsi: bool                 // intx.prefer_msi

    // Registers of the device itself.
    var command: nat
    var msiFlags: nat
    var msiAddrLo: nat
    var msiAddrHi: nat
    var msiData: nat
    var msiMaskReg: u32
    var msixFlags: nat
    const table: array<RawEntry>

    ghost predicate Valid() reads this {
      && slots.Length == SLOTS
      && nvec <= SLOTS
      && mode in {IRQ_NONE, IRQ_INTX, IRQ_MSI, IRQ_MSIX}
      && (caps.msix ==> table.Length == caps.tableSize && caps.tableSize > 0)
      && slots as object != table
    }

    ghost function RegsView(): Regs reads this, table {
      Regs(Bit(msiFlags, MSI_ENABLE), Mme(msiFlags), msiAddrLo, msiAddrHi, msiData, BitSet(msiMaskReg),
           Bit(msixFlags, MSIX_ENABLE), Bit(msixFlags, MSIX_MASKALL), TableOf(table[..]),
           Bit(command, INTX_DISABLE))
    }

    /** Which bits of the registers the view is, by section 6.2.2 and 6.8 of PCI Local Bus
        Specification 3.0. */
    lemma RegisterBits()
      ensures var r := RegsView();
        && (r.msiEnable <==> msiFlags % 2 == 1) && r.mme == msiFlags / 16 % 8
        && (r.msixEnable <==> msixFlags / 0x8000 % 2 == 1) && (r.maskAll <==> msixFlags / 0x4000 % 2 == 1)
        && (r.intxOff <==> command / 0x400 % 2 == 1)
        && (forall x: nat :: x in r.msiMask <==> x < 32 && Bit(msiMaskReg, x))
        && |r.table| == table.Length
        && forall i | 0 <= i < table.Length ::
             r.table[i] == Entry(table[i].lo, table[i].hi, table[i].data, table[i].ctrl % 2 == 1)
    {
      Powers();
      MmeExact(msiFlags);
      BitExact(msixFlags, 15, 0x8000);
      BitExact(msixFlags, 14, 0x4000);
      BitExact(command, 10, 0x400);
    }

    /** The device as it will be once mode and count are recorded. */
    ghost function ViewAs(m: Mode, n: nat): Dev
      reads this, slots, table
      requires Valid() && n <= SLOTS
    {
      Dev(caps, m, n, if m == Msi || m == Msix then slots[..n] else [], intxServer, BitSet(msiShadow), RegsView())
    }

    ghost function View(): Dev
      reads this, slots, table
      requires Valid()
    {
      ViewAs(ModeOf(mode), nvec)
    }

    ghost predicate Ready(ctrl: Controller)
      reads this, slots, table, ctrl
    {
      && ctrl.Valid() && Valid() && DevOk(View())
      && ctrl.servers as object != slots && ctrl.servers as object != table
    }

    // ---- INTx ----

    /** pci_intx */
    method SetIntx(enable: bool)
      requires Valid()
      modifies this`command
      ensures RegsView() == old(RegsView()).(intxOff := !enable)
    {
      FlagSet(command, INTX_DISABLE, INTX_DISABLE);
      var next := if enable then AndNot(command, Pow2(INTX_DISABLE)) else Or(command, Pow2(INTX_DISABLE));
      if next == command { return; }
      command := next;
    }

    /** pci_intx_alloc */
    method IntxAlloc(min: nat) returns (r: Ret)
      requires Valid()
      ensures r == if min > 1 then Err(ERANGE) else if caps.gicIrq == 0 then Err(ENODEV) else Ok(1)
    {
      if min > 1 { return Err(ERANGE); }
      if caps.gicIrq == 0 { return Err(ENODEV); }
      return Ok(1);
    }

    // ---- MSI ----

    /** pci_msi_update_mask */
    method MsiUpdateMask(clear: u32, set_: u32)
      requires Valid()
      modifies this`msiShadow, this`msiMaskReg
      ensures BitSet(msiShadow) ==
        if caps.maskable then old(BitSet(msiShadow)) - BitSet(clear) + BitSet(set_) else old(BitSet(msiShadow))
      ensures RegsView() == if caps.maskable then old(RegsView()).(msiMask := BitSet(msiShadow)) else old(RegsView())
    {
      if !caps.maskable { return; }
      AndNotSet(msiShadow, clear);
      OrSet(AndNot(msiShadow, clear), set_);
      msiShadow := Or(AndNot(msiShadow, clear), set_);
      msiMaskReg := msiShadow;
    }

    /** pci_msi_set_enable */
    method MsiSetEnable(enable: bool)
      requires Valid()
      modifies this`msiFlags
      ensures RegsView() == old(RegsView()).(msiEnable := enable)
    {
      FlagSet(msiFlags, MSI_ENABLE, MSI_ENABLE);
      MmeKept(msiFlags);
      var control := AndNot(msiFlags, Pow2(MSI_ENABLE));
      FlagSet(control, MSI_ENABLE, MSI_ENABLE);
      MmeKept(control);
      if enable { control := Or(control, Pow2(MSI_ENABLE)); }
      msiFlags := control;
    }

    /** pci_msi_write_msg for n vectors, a power of two, from slot slots[0] */
    method MsiWriteMsg(n: nat)
      requires Valid() && IsPow2(n) && n <= SLOTS
      modifies this`msiFlags, this`msiAddrLo, this`msiAddrHi, this`msiData
      ensures RegsView() == old(RegsView()).(mme := Log2(n), addrLo := TARGET,
                              addrHi := if caps.addr64 then 0 else old(RegsView()).addrHi,
                              data := MsgData(slots[0]))
    {
      var mme := Ctz(n);
      CtzLog2(n);
      MmeInserted(msiFlags, mme);
      msiFlags := Or(AndNot(msiFlags, MSI_QSIZE), mme * 16);
      msiAddrLo := TARGET;
      if caps.addr64 { msiAddrHi := 0; }
      msiData := MsgData(slots[0]);
    }

    /** MSI off and every vector the device may have masked. */
    method MsiQuiet()
      requires Valid()
      modifies this`msiFlags, this`msiShadow, this`msiMaskReg
      ensures ViewAs(Idle, 0) ==
        var u := UpdateMask(old(ViewAs(Idle, 0)), {}, MultiMask(caps.log2Max));
        u.(regs := u.regs.(msiEnable := false))
    {
      MsiSetEnable(false);
      SetOfMulti(caps.log2Max);
      MsiUpdateMask(0, MultiWord(caps.log2Max));
    }

    /** pci_msi_program */
    method MsiProgram(n: nat, ghost base: nat)
      requires Valid() && IsPow2(n) && n <= SLOTS && slots[0] == base && slots[..n] == BlockSeq(base, n)
      modifies this`msiFlags, this`msiAddrLo, this`msiAddrHi, this`msiData,
               this`msiShadow, this`msiMaskReg, this`command
      ensures ViewAs(Msi, n) == MsiConfigured(old(ViewAs(Idle, 0)), n, base)
    {
      MsiQuiet();
      MsiWriteMsg(n);
      SetIntx(false);
      MsiSetEnable(true);
    }

    /** The largest power of two the device and the caller allow. */
    method MsiMost(max: nat) returns (n: nat)
      requires Valid() && 1 <= max <= SLOTS
      ensures MsiLimit(View(), max) > 0 && n == RoundDownPow2(MsiLimit(View(), max)) && IsPow2(n) && n <= max
    {
      n := max;
      if caps.log2Max < 5 && n > Pow2(caps.log2Max) { n := Pow2(caps.log2Max); }
      MsiLimitPositive(View(), max);
      RoundDownPow2Exact(n);
      n := RoundDownPow2(n);
    }

    /** pci_msi_alloc */
    method MsiAlloc(ctrl: Controller, min: nat, max: nat) returns (r: Ret)
      requires Ready(ctrl) && mode == IRQ_NONE && 1 <= min <= max <= SLOTS
      modifies ctrl`used, slots,
               this`msiFlags, this`msiAddrLo, this`msiAddrHi, this`msiData,
               this`msiShadow, this`msiMaskReg, this`command
      ensures var s := Vectors.MsiAlloc(old(ctrl.View()), old(View()), min, max);
        && r == s.2 && ctrl.View() == s.0
        && (r.Ok? ==> 1 <= r.n <= SLOTS && ViewAs(Msi, r.n) == s.1)
        && (r.Err? ==> View() == old(View()))
    {
      if !caps.msi { return Err(ENODEV); }
      var n := MsiMost(max);
      LargestBlockExact(BitSet(ctrl.used), n, min);
      var block := ctrl.LargestAligned(n, min);
      if block.None? { return Err(ENOSPC); }
      var (size, base) := block.value;
      FillBlock(base, size);
      MsiProgram(size, base);
      return Ok(size);
    }

    /** slots[i] = base + i */
    method FillBlock(base: nat, n: nat)
      requires Valid() && 0 < n <= SLOTS
      modifies slots
      ensures slots[0] == base && slots[..n] == BlockSeq(base, n)
    {
      var i := 0;
      while i < n
        invariant 0 <= i <= n
        invariant forall j | 0 <= j < i :: slots[j] == base + j
      {
        slots[i] := base + i;
        i := i + 1;
      }
    }

    /** pci_msi_shutdown */
    method MsiShutdown()
      requires Valid()
      modifies this`msiFlags, this`msiShadow, this`msiMaskReg
      ensures ViewAs(Idle, 0) ==
        var u := UpdateMask(old(ViewAs(Idle, 0)), MultiMask(caps.log2Max), {});
        u.(regs := u.regs.(msiEnable := false))
    {
      MsiSetEnable(false);
      SetOfMulti(caps.log2Max);
      MsiUpdateMask(MultiWord(caps.log2Max), 0);
    }

    // ---- MSI-X ----

    /** pci_msix_set_ctrl on the two control bits */
    method MsixSetCtrl(clear: nat, set_: nat)
      requires Valid()
      modifies this`msixFlags
      ensures Bit(msixFlags, MSIX_ENABLE) <==>
        (old(Bit(msixFlags, MSIX_ENABLE)) && !Bit(clear, MSIX_ENABLE)) || Bit(set_, MSIX_ENABLE)
      ensures Bit(msixFlags, MSIX_MASKALL) <==>
        (old(Bit(msixFlags, MSIX_MASKALL)) && !Bit(clear, MSIX_MASKALL)) || Bit(set_, MSIX_MASKALL)
    {
      TwoFlags(msixFlags, clear, set_, MSIX_ENABLE);
      TwoFlags(msixFlags, clear, set_, MSIX_MASKALL);
      msixFlags := Or(AndNot(msixFlags, clear), set_);
    }

    /** pci_msix_entry_mask / pci_msix_entry_unmask */
    method EntrySetMask(v: nat, masked: bool)
      requires Valid() && v < table.Length
      modifies table
      ensures RegsView() == old(RegsView()).(table :=
                old(RegsView()).table[v := old(RegsView()).table[v].(masked := masked)])
    {
      BitOfZero(ENTRY_MASKED);
      table[v] := table[v].(ctrl := if masked then 1 else 0);
      assert TableOf(table[..]) == old(TableOf(table[..]))[v := old(EntryOf(table[v])).(masked := masked)];
    }

    /** pci_msix_program */
    method MsixProgram(n: nat)
      requires Valid() && caps.msix && n <= SLOTS && n <= table.Length
      modifies table, this`msixFlags, this`command
      ensures ViewAs(Msix, n) == MsixConfigured(old(ViewAs(Idle, 0)), slots[..n])
    {
      CtrlWords(MSIX_ENABLE);
      CtrlWords(MSIX_MASKALL);
      MsixSetCtrl(0, Or(ENABLE_WORD, MASKALL_WORD));
      FillTable(n);
      SetIntx(false);
      MsixSetCtrl(MASKALL_WORD, 0);
    }

    /** Entries 0..n-1 carry the messages of their slots, masked. */
    method FillTable(n: nat)
      requires Valid() && n <= SLOTS && n <= table.Length
      modifies table
      ensures TableOf(table[..]) == Programmed(old(TableOf(table[..])), slots[..n])
    {
      ghost var t0 := TableOf(table[..]);
      var i := 0;
      while i < n
        invariant 0 <= i <= n
        invariant forall j | 0 <= j < table.Length ::
          EntryOf(table[j]) == if j < i then MsixEntry(slots[j]) else t0[j]
      {
        table[i] := RawEntry(TARGET, 0, MsgData(slots[i]), 1);
        i := i + 1;
      }
      assert TableOf(table[..]) == Programmed(t0, slots[..n]);
    }

    /** pci_msix_alloc */
    method MsixAlloc(ctrl: Controller, min: nat, max: nat) returns (r: Ret)
      requires Ready(ctrl) && mode == IRQ_NONE && 1 <= min <= max <= SLOTS
      modifies ctrl`used, slots, table, this`msixFlags, this`command
      ensures var s := Vectors.MsixAlloc(old(ctrl.View()), old(View()), min, max);
        && r == s.2 && ctrl.View() == s.0
        && (r.Ok? ==> 1 <= r.n <= SLOTS && ViewAs(Msix, r.n) == s.1)
        && (r.Err? ==> View() == old(View()))
    {
      if !caps.msix { return Err(ENODEV); }
      var n := max;
      if n > caps.tableSize { n := caps.tableSize; }
      ghost var u0 := BitSet(ctrl.used);
      FirstFreeExact(u0, 0, n);
      n := ctrl.SlotsAllocAny(n, slots);
      forall i | 0 <= i < n ensures slots[i] < SLOTS && slots[i] !in u0 {
        assert slots[i] == slots[..n][i];
      }
      if n < min {
        ctrl.SlotsFree(slots, n);
        assert BitSet(ctrl.used) == u0;
        return Err(ENOSPC);
      }
      MsixProgram(n);
      return Ok(n);
    }

    /** pci_msix_shutdown */
    method MsixShutdown()
      requires Valid()
      modifies this`msixFlags
      ensures RegsView() == old(RegsView()).(msixEnable := false, maskAll := true)
    {
      CtrlWords(MSIX_ENABLE);
      CtrlWords(MSIX_MASKALL);
      MsixSetCtrl(ENABLE_WORD, MASKALL_WORD);
    }

    // ---- the vector layer ----

    /** The three attempts of pci_irq_vectors_alloc. */
    method Choose(ctrl: Controller, lo: nat, hi: nat, flags: nat) returns (r: Ret, m: nat)
      requires Ready(ctrl) && mode == IRQ_NONE && 1 <= lo <= hi <= SLOTS
      modifies ctrl`used, slots, table, this`command, this`msixFlags,
               this`msiFlags, this`msiAddrLo, this`msiAddrHi, this`msiData, this`msiShadow, this`msiMaskReg
      ensures m in {IRQ_INTX, IRQ_MSI, IRQ_MSIX}
      ensures var s := Vectors.Choose(old(ctrl.View()), old(View()), lo, hi, flags);
        && r == s.2 && ctrl.View() == s.0
        && (r.Ok? ==> 1 <= r.n <= SLOTS && ViewAs(ModeOf(m), r.n) == s.1)
        && (r.Err? ==> View() == s.1)
    {
      r, m := ChooseMessages(ctrl, lo, hi, flags);
      if r.Err? && Bit(flags, INTX_BIT) {
        m := IRQ_INTX;
        r := IntxAlloc(lo);
      }
    }

    /** MSI-X, then MSI. */
    method ChooseMessages(ctrl: Controller, lo: nat, hi: nat, flags: nat) returns (r: Ret, m: nat)
      requires Ready(ctrl) && mode == IRQ_NONE && 1 <= lo <= hi <= SLOTS
      modifies ctrl`used, slots, table, this`command, this`msixFlags,
               this`msiFlags, this`msiAddrLo, this`msiAddrHi, this`msiData, this`msiShadow, this`msiMaskReg
      ensures m in {IRQ_INTX, IRQ_MSI, IRQ_MSIX}
      ensures var s := Vectors.ChooseMessages(old(ctrl.View()), old(View()), lo, hi, flags);
        && r == s.2 && ctrl.View() == s.0
        && (r.Ok? ==> 1 <= r.n <= SLOTS && ViewAs(ModeOf(m), r.n) == s.1)
        && (r.Err? ==> ctrl.View() == old(ctrl.View()) && View() == old(View()))
    {
      r, m := Err(ENODEV), IRQ_INTX;
      if Bit(flags, MSIX_BIT) {
        r := MsixAlloc(ctrl, lo, hi);
        if r.Ok? { m := IRQ_MSIX; return; }
      }
      assert ctrl.View() == old(ctrl.View()) && View() == old(View());
      if Bit(flags, MSI_BIT) {
        r := MsiAlloc(ctrl, lo, hi);
        if r.Ok? { m := IRQ_MSI; return; }
      }
    }

    /** pci_irq_vectors_alloc */
    method VectorsAlloc(ctrl: Controller, min: nat, max: nat, flags: nat) returns (r: Ret)
      requires Ready(ctrl)
      modifies ctrl`used, slots, table, this
      ensures Ready(ctrl)
      ensures (ctrl.View(), View(), r) == Alloc(old(ctrl.View()), old(View()), min, max, flags)
      ensures preferMsi == old(preferMsi)
    {
      AllocOk(ctrl.View(), View(), min, max, flags);
      if mode != IRQ_NONE { return Err(EBUSY); }
      var lo := if min < 1 then 1 else min;
      var hi := if max > SLOTS then SLOTS else max;
      if hi < lo { return Err(ERANGE); }
      r := AllocIn(ctrl, lo, hi, flags);
    }

    /** The attempts, and what came of them recorded. */
    method AllocIn(ctrl: Controller, lo: nat, hi: nat, flags: nat) returns (r: Ret)
      requires Ready(ctrl) && mode == IRQ_NONE && 1 <= lo <= hi <= SLOTS
      modifies ctrl`used, slots, table, this
      ensures ctrl.Valid() && Valid() && preferMsi == old(preferMsi)
      ensures (ctrl.View(), View(), r) == Vectors.Choose(old(ctrl.View()), old(View()), lo, hi, flags)
    {
      var m;
      r, m := Choose(ctrl, lo, hi, flags);
      if r.Ok? { RecordMode(m, r.n); }
    }

    method RecordMode(m: nat, n: nat)
      requires Valid() && n <= SLOTS && m in {IRQ_INTX, IRQ_MSI, IRQ_MSIX}
      modifies this`mode, this`nvec
      ensures Valid() && View() == old(ViewAs(ModeOf(m), n))
    {
      mode, nvec := m, n;
    }

    /** pci_irq_vec_server */
    method ServerOf(ctrl: Controller, v: nat) returns (s: Option<Server>)
      requires Ready(ctrl) && v < nvec
      ensures s == VecServer(ctrl.View(), View(), v)
    {
      if mode == IRQ_INTX { return intxServer; }
      assert slots[v] == View().slots[v];
      return ctrl.servers[slots[v]];
    }

    /** pci_irq_vec_open (masked == false) / pci_irq_vec_close */
    method SetGate(v: nat, masked: bool)
      requires Valid() && DevOk(View()) && v < nvec
      modifies table, this`msiShadow, this`msiMaskReg
      ensures View() == if masked then CloseGate(old(View()), v) else OpenGate(old(View()), v)
    {
      if mode == IRQ_MSIX {
        EntrySetMask(v, masked);
      } else {
        SetOfPow2(v);
        SetOfZero();
        if masked { MsiUpdateMask(0, Pow2(v)); } else { MsiUpdateMask(Pow2(v), 0); }
      }
    }

    /** pci_irq_add_server */
    method AddServer(ctrl: Controller, v: nat, isr: Server, fault: bool) returns (r: Ret)
      requires Ready(ctrl)
      modifies ctrl, ctrl.servers, table, this`msiShadow, this`msiMaskReg, this`intxServer, this`command
      ensures Ready(ctrl)
      ensures (ctrl.View(), View(), r) == Add(old(ctrl.View()), old(View()), v, isr, fault)
    {
      if v >= nvec { return Err(EINVAL); }
      var held := ServerOf(ctrl, v);
      if held.Some? { return Err(EBUSY); }
      if mode == IRQ_INTX {
        r := ctrl.GicAddServer(caps.gicIrq, isr, fault);
        if r.Err? { return; }
        intxServer := Some(isr);
        SetIntx(true);
        return Ok(0);
      }
      assert slots[v] == View().slots[v];
      ctrl.SlotBind(slots[v], isr);
      SetGate(v, false);
      return Ok(0);
    }

    /** pci_irq_rem_server */
    method RemServer(ctrl: Controller, v: nat, isr: Server)
      requires Ready(ctrl)
      modifies ctrl, ctrl.servers, table, this`msiShadow, this`msiMaskReg, this`intxServer, this`command
      ensures Ready(ctrl)
      ensures (ctrl.View(), View()) == Rem(old(ctrl.View()), old(View()), v, isr)
    {
      if v >= nvec { return; }
      var held := ServerOf(ctrl, v);
      if held != Some(isr) { return; }
      if mode == IRQ_INTX {
        SetIntx(false);
        ctrl.GicRemServer(caps.gicIrq, isr);
        intxServer := None;
      } else {
        CloseSlot(ctrl, v);
      }
    }

    /** The gate of a message vector closed and its slot unbound. */
    method CloseSlot(ctrl: Controller, v: nat)
      requires Ready(ctrl) && Messaged(View()) && v < nvec
      modifies ctrl`maskReg, ctrl.servers, table, this`msiShadow, this`msiMaskReg
      ensures Ready(ctrl) && ctrl.View() == Unbind(old(ctrl.View()), old(View()).slots[v])
      ensures View() == CloseGate(old(View()), v)
    {
      assert slots[v] == View().slots[v];
      SetGate(v, true);
      ctrl.SlotUnbind(slots[v]);
    }

    /** pci_irq_vectors_free */
    method VectorsFree(ctrl: Controller)
      requires Ready(ctrl)
      modifies ctrl, ctrl.servers, table, this
      ensures Ready(ctrl)
      ensures (ctrl.View(), View()) == Free(old(ctrl.View()), old(View()))
      ensures preferMsi == old(preferMsi)
    {
      ghost var all := DetachFrom(ctrl.View(), View(), 0);
      var v := 0;
      while v < nvec
        modifies ctrl, ctrl.servers, table, this`msiShadow, this`msiMaskReg, this`intxServer, this`command
        invariant 0 <= v <= nvec && Ready(ctrl)
        invariant DetachFrom(ctrl.View(), View(), v) == all
      {
        DetachOne(ctrl, v);
        v := v + 1;
      }
      assert (ctrl.View(), View()) == all;
      Finish(ctrl);
    }

    /** One turn of the loop. */
    method DetachOne(ctrl: Controller, v: nat)
      requires Ready(ctrl) && v < nvec
      modifies ctrl, ctrl.servers, table, this`msiShadow, this`msiMaskReg, this`intxServer, this`command
      ensures Ready(ctrl)
      ensures (ctrl.View(), View()) == DetachTurn(old(ctrl.View()), old(View()), v)
    {
      var s := ServerOf(ctrl, v);
      if s.Some? { RemServer(ctrl, v, s.value); }
    }

    /** The type in use switched off at the device. */
    method ShutDown()
      requires Valid() && DevOk(View())
      modifies this`msiFlags, this`msiShadow, this`msiMaskReg, this`msixFlags
      ensures ViewAs(Idle, 0) == TurnedOff(old(View()))
    {
      if mode == IRQ_MSIX { MsixShutdown(); } else if mode == IRQ_MSI { MsiShutdown(); }
    }

    /** The slots of a device back in the pool. */
    method GiveBack(ctrl: Controller)
      requires Valid() && ctrl.Valid() && (mode != IRQ_INTX ==> forall i | 0 <= i < nvec :: slots[i] < SLOTS)
      modifies ctrl`used
      ensures ctrl.View() == old(ctrl.View()).(used := old(ctrl.View()).used -
                               Elems(if mode != IRQ_INTX then slots[..nvec] else []))
    {
      if mode != IRQ_INTX {
        ctrl.SlotsFree(slots, nvec);
      } else {
        assert BitSet(ctrl.used) - Elems([]) == BitSet(ctrl.used);
      }
    }

    /** The rest of pci_irq_vectors_free: the type off, the slots back. */
    method Finish(ctrl: Controller)
      requires Ready(ctrl)
      modifies ctrl`used, this`mode, this`nvec, this`msiFlags, this`msiShadow, this`msiMaskReg, this`msixFlags
      ensures Ready(ctrl)
      ensures (ctrl.View(), View()) == Release(old(ctrl.View()), old(View()))
    {
      ghost var d := View();
      assert mode != IRQ_INTX ==> slots[..nvec] == d.slots;
      forall i | 0 <= i < nvec && mode != IRQ_INTX ensures slots[i] < SLOTS { assert slots[i] == d.slots[i]; }
      ShutDown();
      GiveBack(ctrl);
      mode, nvec := IRQ_NONE, 0;
    }

    /** pci_irq_vec_mask / pci_irq_vec_unmask */
    method VecSetMask(ctrl: Controller, v: nat, hold: bool) returns (ok: bool)
      requires Ready(ctrl)
      modifies ctrl`maskReg, this`command
      ensures Ready(ctrl)
      ensures (ctrl.View(), View(), ok) == SetMask(old(ctrl.View()), old(View()), v, hold)
    {
      if v >= nvec { return false; }
      if mode == IRQ_INTX {
        SetIntx(!hold);
      } else {
        assert slots[v] == View().slots[v];
        ctrl.SlotSetMask(slots[v], hold);
      }
      return true;
    }

    /** LibCheckSetINTxMask */
    method CheckSetIntxMask(mask: bool)
      requires Valid()
      modifies this`command
      ensures View() == IntxMasked(old(View()), mask)
      ensures View() == old(View()).(regs := old(View()).regs.(intxOff := mask))
    {
      SetIntx(!mask);
    }

    // ---- the obsolete single-vector calls ----

    /** LibAddIntServer */
    method AddIntServer(ctrl: Controller, isr: Server, fault: bool) returns (ok: bool)
      requires Ready(ctrl)
      modifies ctrl, ctrl.servers, slots, table, this
      ensures Ready(ctrl)
      ensures (ctrl.View(), View(), ok) == LibAdd(old(ctrl.View()), old(View()), isr, old(preferMsi), fault)
    {
      ok := false;
      var n := VectorsAlloc(ctrl, 1, 1, if preferMsi then 3 else 1);
      if n == Ok(1) {
        var r := AddServer(ctrl, 0, isr, fault);
        if r == Ok(0) { ok := true; } else { VectorsFree(ctrl); }
      }
    }

    /** LibRemIntServer */
    method RemIntServer(ctrl: Controller, isr: Server)
      requires Ready(ctrl)
      modifies ctrl, ctrl.servers, table, this
      ensures Ready(ctrl)
      ensures (ctrl.View(), View()) == LibRem(old(ctrl.View()), old(View()), isr)
    {
      RemServer(ctrl, 0, isr);
      VectorsFree(ctrl);
    }
  }

  const ENABLE_WORD: nat := Pow2(MSIX_ENABLE)
  const MASKALL_WORD: nat := Pow2(MSIX_MASKALL)

  lemma CtrlWords(i: nat)
    ensures Bit(ENABLE_WORD, i) <==> i == MSIX_ENABLE
    ensures Bit(MASKALL_WORD, i) <==> i == MSIX_MASKALL
    ensures Bit(Or(ENABLE_WORD, MASKALL_WORD), i) <==> i == MSIX_ENABLE || i == MSIX_MASKALL
    ensures !Bit(0, i)
  {
    BitPow2(MSIX_ENABLE, i);
    BitPow2(MSIX_MASKALL, i);
    BitOr(ENABLE_WORD, MASKALL_WORD, i);
    BitOfZero(i);
  }

  lemma TwoFlags(w: nat, clear: nat, set_: nat, i: nat)
    ensures Bit(Or(AndNot(w, clear), set_), i) <==> (Bit(w, i) && !Bit(clear, i)) || Bit(set_, i)
  {
    BitOr(AndNot(w, clear), set_, i);
    BitAndNot(w, clear, i);
  }

  /** msi_multi_mask */
  function MultiWord(log2Max: nat): u32 {
    if log2Max >= 5 then 0xffff_ffff
    else
      SmallCounts(log2Max);
      BlockBound(Pow2(log2Max), 0);
      Pow2(Pow2(log2Max)) - 1
  }

  lemma SmallCounts(k: nat)
    requires k < 5
    ensures Pow2(k) <= 16 && Pow2(0) == 1
  {
    Pow2Monotone(k, 4);
    assert Pow2(4) == 16;
  }

  lemma SetOfMulti(log2Max: nat)
    ensures BitSet(MultiWord(log2Max)) == MultiMask(log2Max) && BitSet(0) == {}
  {
    SetOfZero();
    if log2Max >= 5 { WholeWord(); }
    else {
      SmallCounts(log2Max);
      SetOfBlock(Pow2(log2Max), 0);
    }
  }

  lemma {:induction false} CtzLog2(n: nat)
    requires IsPow2(n) && n <= 32
    ensures Ctz(n) == Log2(n) && Log2(n) < 8
    decreases n
  {
    if n > 2 { CtzLog2(n / 2); }
    BlockSizes(n);
  }
}
