// What one call of the interrupt-vector core does to one controller and one
// device: allocation, servers, runtime mask and teardown as functions on values
// (pci_irq.c, pcie_msi.c, pcie_msix.c, pci_int.c and the slot half of
// pcie_brcmstb_msi.c).  The classes in IrqDriver.dfy are proved to compute them.

module Vectors {
  import opened Words
  import opened SlotPool

  /** An Exec Interrupt server, by identity. */
  type Server = nat

  datatype Errno = EBUSY | EINVAL | ENODEV | ENOSPC | ERANGE | EIO
  datatype Ret = Ok(n: nat) | Err(e: Errno)

  datatype Mode = Idle | Intx | Msi | Msix

  // PCI_IRQ_INTX, PCI_IRQ_MSI and PCI_IRQ_MSIX are these bits of a flag word.
  const INTX_BIT: nat := 0
  const MSI_BIT: nat := 1
  const MSIX_BIT: nat := 2

  /** The root complex: the slot pool and server table in memory, the MSI_INTR2
      mask and status registers, and gic400's one server per line. */
  datatype Ctrl = Ctrl(
    used: set<nat>,
    servers: seq<Option<Server>>,
    masked: set<nat>,
    latch: set<nat>,
    gic: map<nat, Server>)

  /** What probe decoded and never changes afterwards. */
  datatype Caps = Caps(
    msi: bool, addr64: bool, maskable: bool, log2Max: nat,
    msix: bool, tableSize: nat,
    gicIrq: nat)

  datatype Entry = Entry(addrLo: nat, addrHi: nat, data: nat, masked: bool)

  /** The device's own interrupt registers, decoded. */
  datatype Regs = Regs(
    msiEnable: bool, mme: nat, addrLo: nat, addrHi: nat, data: nat, msiMask: set<nat>,
    msixEnable: bool, maskAll: bool, table: seq<Entry>,
    intxOff: bool)

  datatype Dev = Dev(
    caps: Caps,
    mode: Mode, nvec: nat, slots: seq<nat>, intxServer: Option<Server>,
    shadow: set<nat>,
    regs: Regs)

  // ---- messages ----

  const TARGET: u32 := 0xffff_fffc        // BRCM_MSI_TARGET_ADDR_LT_4GB
  const DATA_CONFIG: u32 := 0xffe0_6540   // PCIE_MISC_MSI_DATA_CONFIG_VAL_32

  function MsgData(slot: nat): nat { Or(0x6540, slot) }

  /** The demux: a write to the doorbell whose upper data bits match selects the
      slot in its low five bits. */
  function Decode(addrLo: nat, addrHi: nat, data: nat): Option<nat> {
    if addrLo == TARGET && addrHi == 0
       && And(data, DATA_CONFIG / 0x1_0000) == And(0x6540, DATA_CONFIG / 0x1_0000)
    then Some(And(data, 0x1f))
    else None
  }

  /** Where the message a device sends for vector v lands.  MSI ORs the vector
      number into the data register; MSI-X uses the vector's table entry. */
  function Target(d: Dev, v: nat): Option<nat>
    requires d.mode == Msix ==> v < |d.regs.table|
  {
    if d.mode == Msi && d.regs.msiEnable then
      Decode(d.regs.addrLo, if d.caps.addr64 then d.regs.addrHi else 0, Or(d.regs.data, v))
    else if d.mode == Msix && d.regs.msixEnable && !d.regs.maskAll then
      Decode(d.regs.table[v].addrLo, d.regs.table[v].addrHi, d.regs.table[v].data)
    else None
  }

  // ---- well-formed values ----

  ghost predicate CtrlOk(c: Ctrl) {
    && Pool(c.used)
    && |c.servers| == SLOTS
  }

  ghost predicate Messaged(d: Dev) { d.mode == Msi || d.mode == Msix }

  /** The shape every device keeps: counts, slot numbers, register widths. */
  ghost predicate DevOk(d: Dev) {
    && (d.mode == Idle <==> d.nvec == 0)
    && (d.mode == Intx ==> d.nvec == 1)
    && d.nvec <= SLOTS
    && |d.slots| == (if Messaged(d) then d.nvec else 0)
    && (forall i | 0 <= i < |d.slots| :: d.slots[i] < SLOTS)
    && (d.caps.msix ==> |d.regs.table| == d.caps.tableSize && d.caps.tableSize > 0)
    && (d.mode == Msix ==> d.caps.msix && d.nvec <= d.caps.tableSize)
  }

  ghost function MultiMask(log2Max: nat): set<nat> {
    if log2Max >= 5 then Block(0, 32) else Block(0, Pow2(log2Max))
  }

  /** pci_msi_update_mask: nothing on a device without mask bits. */
  ghost function UpdateMask(d: Dev, clear: set<nat>, add: set<nat>): Dev {
    if !d.caps.maskable then d
    else
      var m := d.shadow - clear + add;
      d.(shadow := m, regs := d.regs.(msiMask := m))
  }

  // ---- allocation ----

  function Min(a: nat, b: nat): nat { if a < b then a else b }
  function Max(a: nat, b: nat): nat { if a > b then a else b }

  ghost function MsixEntry(slot: nat): Entry { Entry(TARGET, 0, MsgData(slot), true) }

  /** The table with entries 0..n-1 programmed for the given slots, masked. */
  ghost function Programmed(table: seq<Entry>, slots: seq<nat>): (r: seq<Entry>)
    requires |slots| <= |table|
    ensures |r| == |table|
  {
    seq(|table|, i requires 0 <= i < |table| =>
      if i < |slots| then MsixEntry(slots[i]) else table[i])
  }

  ghost function MsixAlloc(c: Ctrl, d: Dev, min: nat, max: nat): (Ctrl, Dev, Ret)
    requires CtrlOk(c) && DevOk(d) && 1 <= min <= max <= SLOTS
  {
    if !d.caps.msix then (c, d, Err(ENODEV))
    else
      var n := Min(max, d.caps.tableSize);
      var s := FirstFree(c.used, 0, n);
      FirstFreeExact(c.used, 0, n);
      if |s| < min then (c, d, Err(ENOSPC))
      else
        (c.(used := c.used + Elems(s)), MsixConfigured(d, s), Ok(|s|))
  }

  /** pci_msix_program: one masked entry per slot, MSI-X on. */
  ghost function MsixConfigured(d: Dev, s: seq<nat>): Dev
    requires |s| <= |d.regs.table|
  {
    d.(mode := Msix, nvec := |s|, slots := s,
       regs := d.regs.(msixEnable := true, maskAll := false,
                       table := Programmed(d.regs.table, s), intxOff := true))
  }

  function MsiLimit(d: Dev, max: nat): nat {
    if d.caps.log2Max < 5 then Min(max, Pow2(d.caps.log2Max)) else max
  }

  lemma MsiLimitPositive(d: Dev, max: nat)
    requires max > 0
    ensures MsiLimit(d, max) > 0
  {
    Pow2Positive(d.caps.log2Max);
  }

  ghost function BlockSeq(base: nat, n: nat): (r: seq<nat>)
    ensures |r| == n
  {
    seq(n, i requires 0 <= i < n => base + i)
  }

  lemma BlockElems(base: nat, n: nat)
    ensures Elems(BlockSeq(base, n)) == Block(base, n)
  {
    var q := BlockSeq(base, n);
    forall x: nat ensures x in q <==> x in Block(base, n) {
      if BlockHas(base, n, x) { assert q[x - base] == x; }
      if x in q { var i :| 0 <= i < |q| && q[i] == x; assert BlockHas(base, n, x); }
    }
  }

  ghost function MsiAlloc(c: Ctrl, d: Dev, min: nat, max: nat): (Ctrl, Dev, Ret)
    requires CtrlOk(c) && DevOk(d) && 1 <= min <= max <= SLOTS
  {
    if !d.caps.msi then (c, d, Err(ENODEV))
    else
      MsiLimitPositive(d, max);
      var top := RoundDownPow2(MsiLimit(d, max));
      RoundDownPow2Exact(MsiLimit(d, max));
      var r := LargestBlock(c.used, top, min);
      LargestBlockExact(c.used, top, min);
      if r.None? then (c, d, Err(ENOSPC))
      else
        var (n, base) := r.value;
        (c.(used := c.used + Block(base, n)), MsiConfigured(d, n, base), Ok(n))
  }

  /** pci_msi_program for the block of n slots at base: every vector masked, the
      message written, MSI on. */
  ghost function MsiConfigured(d: Dev, n: nat, base: nat): Dev
    requires IsPow2(n)
  {
    var quiet := UpdateMask(d, {}, MultiMask(d.caps.log2Max));
    quiet.(mode := Msi, nvec := n, slots := BlockSeq(base, n),
           regs := quiet.regs.(msiEnable := true, mme := Log2(n),
                               addrLo := TARGET,
                               addrHi := if d.caps.addr64 then 0 else d.regs.addrHi,
                               data := MsgData(base), intxOff := true))
  }

  ghost function IntxAlloc(c: Ctrl, d: Dev, min: nat): (Ctrl, Dev, Ret) {
    if min > 1 then (c, d, Err(ERANGE))
    else if d.caps.gicIrq == 0 then (c, d, Err(ENODEV))
    else (c, d.(mode := Intx, nvec := 1, slots := []), Ok(1))
  }

  /** pci_irq_vectors_alloc.  Each allowed type is tried in turn; the last
      failure is the one reported. */
  ghost function Alloc(c: Ctrl, d: Dev, min: nat, max: nat, flags: nat): (Ctrl, Dev, Ret)
    requires CtrlOk(c) && DevOk(d)
  {
    var lo, hi := Max(min, 1), Min(max, SLOTS);
    if d.mode != Idle then (c, d, Err(EBUSY))
    else if hi < lo then (c, d, Err(ERANGE))
    else Choose(c, d, lo, hi, flags)
  }

  ghost function Choose(c: Ctrl, d: Dev, lo: nat, hi: nat, flags: nat): (Ctrl, Dev, Ret)
    requires CtrlOk(c) && DevOk(d) && 1 <= lo <= hi <= SLOTS
  {
    var m := ChooseMessages(c, d, lo, hi, flags);
    if m.2.Ok? then m
    else if Bit(flags, INTX_BIT) then IntxAlloc(c, d, lo)
    else (c, d, m.2)
  }

  /** The two message types, MSI-X first. */
  ghost function ChooseMessages(c: Ctrl, d: Dev, lo: nat, hi: nat, flags: nat): (Ctrl, Dev, Ret)
    requires CtrlOk(c) && DevOk(d) && 1 <= lo <= hi <= SLOTS
  {
    var x := if Bit(flags, MSIX_BIT) then MsixAlloc(c, d, lo, hi) else (c, d, Err(ENODEV));
    if x.2.Ok? then x
    else if Bit(flags, MSI_BIT) then MsiAlloc(c, d, lo, hi)
    else (c, d, x.2)
  }

  // ---- servers ----

  ghost function VecServer(c: Ctrl, d: Dev, v: nat): Option<Server>
    requires CtrlOk(c) && DevOk(d) && v < d.nvec
  {
    if d.mode == Intx then d.intxServer else c.servers[d.slots[v]]
  }

  ghost function OpenGate(d: Dev, v: nat): Dev
    requires DevOk(d) && v < d.nvec
  {
    if d.mode == Msix then
      d.(regs := d.regs.(table := d.regs.table[v := d.regs.table[v].(masked := false)]))
    else UpdateMask(d, {v}, {})
  }

  ghost function CloseGate(d: Dev, v: nat): Dev
    requires DevOk(d) && v < d.nvec
  {
    if d.mode == Msix then
      d.(regs := d.regs.(table := d.regs.table[v := d.regs.table[v].(masked := true)]))
    else UpdateMask(d, {}, {v})
  }

  ghost function Bind(c: Ctrl, slot: nat, isr: Server): Ctrl
    requires CtrlOk(c) && slot < SLOTS
  {
    c.(servers := c.servers[slot := Some(isr)], latch := c.latch - {slot}, masked := c.masked - {slot})
  }

  ghost function Unbind(c: Ctrl, slot: nat): Ctrl
    requires CtrlOk(c) && slot < SLOTS
  {
    c.(servers := c.servers[slot := None], masked := c.masked + {slot})
  }

  /** pci_irq_add_server; `fault` is gic400 failing for a reason of its own. */
  ghost function Add(c: Ctrl, d: Dev, v: nat, isr: Server, fault: bool): (Ctrl, Dev, Ret)
    requires CtrlOk(c) && DevOk(d)
  {
    if v >= d.nvec then (c, d, Err(EINVAL))
    else if VecServer(c, d, v).Some? then (c, d, Err(EBUSY))
    else if d.mode == Intx then
      if d.caps.gicIrq in c.gic then (c, d, Err(EBUSY))
      else if fault then (c, d, Err(EIO))
      else (c.(gic := c.gic[d.caps.gicIrq := isr]),
            d.(intxServer := Some(isr), regs := d.regs.(intxOff := false)), Ok(0))
    else (Bind(c, d.slots[v], isr), OpenGate(d, v), Ok(0))
  }

  /** RemIntServerEx takes a server off its own line only. */
  ghost function GicRemove(gic: map<nat, Server>, irq: nat, isr: Server): map<nat, Server> {
    if irq in gic && gic[irq] == isr then gic - {irq} else gic
  }

  /** pci_irq_rem_server: nothing unless isr is the vector's server. */
  ghost function Rem(c: Ctrl, d: Dev, v: nat, isr: Server): (Ctrl, Dev)
    requires CtrlOk(c) && DevOk(d)
  {
    if v >= d.nvec || VecServer(c, d, v) != Some(isr) then (c, d)
    else if d.mode == Intx then
      (c.(gic := GicRemove(c.gic, d.caps.gicIrq, isr)),
       d.(intxServer := None, regs := d.regs.(intxOff := true)))
    else (Unbind(c, d.slots[v]), CloseGate(d, v))
  }

  // ---- teardown ----

  /** One turn of the detaching loop. */
  ghost function DetachTurn(c: Ctrl, d: Dev, v: nat): (r: (Ctrl, Dev))
    requires CtrlOk(c) && DevOk(d) && v < d.nvec
    ensures CtrlOk(r.0) && DevOk(r.1) && r.1.nvec == d.nvec && r.1.mode == d.mode && r.1.caps == d.caps
    ensures r.1.slots == d.slots && r.0.used == c.used
  {
    var s := VecServer(c, d, v);
    if s.Some? then Rem(c, d, v, s.value) else (c, d)
  }

  /** The loop of pci_irq_vectors_free from vector v on. */
  ghost function DetachFrom(c: Ctrl, d: Dev, v: nat): (r: (Ctrl, Dev))
    requires CtrlOk(c) && DevOk(d)
    ensures CtrlOk(r.0) && DevOk(r.1) && r.1.nvec == d.nvec && r.1.mode == d.mode && r.1.caps == d.caps
    ensures r.1.slots == d.slots && r.0.used == c.used
    decreases d.nvec - v
  {
    if v >= d.nvec then (c, d)
    else var x := DetachTurn(c, d, v); DetachFrom(x.0, x.1, v + 1)
  }

  /** The device with its type switched off. */
  ghost function TurnedOff(d: Dev): Dev {
    var off := match d.mode
      case Msix => d.(regs := d.regs.(msixEnable := false, maskAll := true))
      case Msi => var u := UpdateMask(d, MultiMask(d.caps.log2Max), {});
                  u.(regs := u.regs.(msiEnable := false))
      case _ => d;
    off.(mode := Idle, nvec := 0, slots := [])
  }

  /** Switch the type off at the device, give the slots back. */
  ghost function Release(c: Ctrl, d: Dev): (Ctrl, Dev)
    requires CtrlOk(c) && DevOk(d)
  {
    (c.(used := c.used - Elems(d.slots)), TurnedOff(d))
  }

  /** pci_irq_vectors_free */
  ghost function Free(c: Ctrl, d: Dev): (Ctrl, Dev)
    requires CtrlOk(c) && DevOk(d)
  {
    var x := DetachFrom(c, d, 0);
    Release(x.0, x.1)
  }

  // ---- runtime mask ----

  /** pci_irq_vec_mask / pci_irq_vec_unmask */
  ghost function SetMask(c: Ctrl, d: Dev, v: nat, hold: bool): (Ctrl, Dev, bool)
    requires CtrlOk(c) && DevOk(d)
  {
    if v >= d.nvec then (c, d, false)
    else if d.mode == Intx then (c, d.(regs := d.regs.(intxOff := hold)), true)
    else
      var s := d.slots[v];
      (c.(masked := if hold then c.masked + {s} else c.masked - {s}), d, true)
  }

  /** LibCheckSetINTxMask: the INTx disable bit, whatever the device is in use for. */
  ghost function IntxMasked(d: Dev, mask: bool): Dev { d.(regs := d.regs.(intxOff := mask)) }

  // ---- the obsolete single-vector calls ----

  /** LibAddIntServer: MSI if preferred and possible, else INTx; all or nothing. */
  ghost function LibAdd(c: Ctrl, d: Dev, isr: Server, preferMsi: bool, fault: bool): (Ctrl, Dev, bool)
    requires CtrlOk(c) && DevOk(d)
  {
    var a := Alloc(c, d, 1, 1, if preferMsi then 3 else 1);
    AllocOk(c, d, 1, 1, if preferMsi then 3 else 1);
    if a.2 != Ok(1) then (a.0, a.1, false)
    else
      var s := Add(a.0, a.1, 0, isr, fault);
      if s.2 == Ok(0) then (s.0, s.1, true)
      else
        var f := Free(s.0, s.1);
        (f.0, f.1, false)
  }

  /** LibRemIntServer: the server if it is the one attached, then everything. */
  ghost function LibRem(c: Ctrl, d: Dev, isr: Server): (Ctrl, Dev)
    requires CtrlOk(c) && DevOk(d)
  {
    var r := Rem(c, d, 0, isr);
    Free(r.0, r.1)
  }

  lemma MsixAllocOk(c: Ctrl, d: Dev, min: nat, max: nat)
    requires CtrlOk(c) && DevOk(d) && 1 <= min <= max <= SLOTS && d.mode == Idle
    ensures var r := MsixAlloc(c, d, min, max); CtrlOk(r.0) && DevOk(r.1)
  {
    var n := Min(max, d.caps.tableSize);
    FirstFreeExact(c.used, 0, n);
    var s := FirstFree(c.used, 0, n);
    assert FreeAbove(c.used, 0) <= AllSlots();
  }

  lemma MsiAllocOk(c: Ctrl, d: Dev, min: nat, max: nat)
    requires CtrlOk(c) && DevOk(d) && 1 <= min <= max <= SLOTS && d.mode == Idle
    ensures var r := MsiAlloc(c, d, min, max); CtrlOk(r.0) && DevOk(r.1)
  {
    MsiLimitPositive(d, max);
    RoundDownPow2Exact(MsiLimit(d, max));
    LargestBlockExact(c.used, RoundDownPow2(MsiLimit(d, max)), min);
  }

  lemma AllocOk(c: Ctrl, d: Dev, min: nat, max: nat, flags: nat)
    requires CtrlOk(c) && DevOk(d)
    ensures CtrlOk(Alloc(c, d, min, max, flags).0) && DevOk(Alloc(c, d, min, max, flags).1)
  {
    var lo, hi := Max(min, 1), Min(max, SLOTS);
    if d.mode == Idle && lo <= hi {
      MsixAllocOk(c, d, lo, hi);
      MsiAllocOk(c, d, lo, hi);
    }
  }
}
