// Runs of the interrupt-vector core: any number of devices on one controller,
// any sequence of calls, with device messages and demux interrupts in between.

module VectorRuns {
  import opened Words
  import opened SlotPool
  import opened Vectors

  /** The whole system.  `log` is what the drivers know: for each (device,
      vector) the server they attached, kept from return values alone. */
  datatype Sys = Sys(c: Ctrl, devs: seq<Dev>, log: map<(nat, nat), Server>)

  datatype Op =
    | OpAlloc(k: nat, min: nat, max: nat, flags: nat)
    | OpAdd(k: nat, v: nat, isr: Server, fault: bool)
    | OpRem(k: nat, v: nat, isr: Server)
    | OpFree(k: nat)
    | OpMask(k: nat, v: nat)
    | OpUnmask(k: nat, v: nat)
    | OpLibAdd(k: nat, isr: Server, preferMsi: bool, fault: bool)
    | OpLibRem(k: nat, isr: Server)
    | OpIntxMask(k: nat, mask: bool)   // LibCheckSetINTxMask, which asks for no mode
    | OpSend(k: nat, v: nat)      // the device sends vector v's message, its gate permitting
    | OpInterrupt                 // the demux ISR runs

  // ---- what every reachable state satisfies ----

  /** An MSI allocation is one aligned power-of-two block, and the capability
      registers name it. */
  ghost predicate MsiProgrammed(d: Dev) {
    && d.caps.msi
    && IsPow2(d.nvec) && |d.slots| == d.nvec
    && d.nvec <= MsiLimit(d, SLOTS)
    && d.slots == BlockSeq(d.slots[0], d.nvec)
    && d.slots[0] % d.nvec == 0 && d.slots[0] + d.nvec <= SLOTS
    && d.regs.mme == Log2(d.nvec)
    && d.regs.addrLo == TARGET && (d.caps.addr64 ==> d.regs.addrHi == 0)
    && d.regs.data == MsgData(d.slots[0])
  }

  ghost predicate MsixProgrammed(d: Dev) {
    && DevOk(d)
    && !d.regs.maskAll
    && |d.slots| <= |d.regs.table|
    && forall i | 0 <= i < |d.slots| :: d.regs.table[i].(masked := true) == MsixEntry(d.slots[i])
  }

  /** The device-level gate of vector v. */
  ghost predicate GateOpen(d: Dev, v: nat)
    requires DevOk(d) && v < d.nvec && Messaged(d)
  {
    if d.mode == Msix then !d.regs.table[v].masked
    else !d.caps.maskable || v !in d.regs.msiMask
  }

  ghost predicate Gates(c: Ctrl, d: Dev)
    requires CtrlOk(c) && DevOk(d)
  {
    && ((d.mode == Msix || (d.mode == Msi && d.caps.maskable)) ==>
          forall v | 0 <= v < d.nvec :: GateOpen(d, v) <==> c.servers[d.slots[v]].Some?)
    && (d.caps.msix ==>
          forall i | 0 <= i < |d.regs.table| ::
            (d.mode == Msix && i < d.nvec) || d.regs.table[i].masked)
    && (d.caps.maskable ==> d.shadow == d.regs.msiMask)
  }

  ghost predicate IntxOk(c: Ctrl, d: Dev) {
    && (d.mode == Intx ==> d.caps.gicIrq != 0)
    && (d.intxServer.Some? ==>
          && d.mode == Intx
          && d.caps.gicIrq in c.gic && c.gic[d.caps.gicIrq] == d.intxServer.value)
  }

  ghost predicate Distinct(s: seq<nat>) {
    forall i, j | 0 <= i < |s| && 0 <= j < |s| && s[i] == s[j] :: i == j
  }

  ghost predicate DevInv(c: Ctrl, d: Dev)
    requires CtrlOk(c)
  {
    && DevOk(d)
    && (d.regs.msiEnable <==> d.mode == Msi)
    && (d.regs.msixEnable <==> d.mode == Msix)
    && (d.mode == Msi ==> MsiProgrammed(d))
    && (d.mode == Msix ==> MsixProgrammed(d))
    && Distinct(d.slots)
    && (forall i | 0 <= i < |d.slots| :: d.slots[i] in c.used)
    && Gates(c, d)
    && IntxOk(c, d)
  }

  ghost predicate LogOk(log: map<(nat, nat), Server>, c: Ctrl, k: nat, d: Dev)
    requires CtrlOk(c) && DevOk(d)
  {
    forall v: nat ::
      && ((k, v) in log <==> v < d.nvec && VecServer(c, d, v).Some?)
      && ((k, v) in log ==> VecServer(c, d, v) == Some(log[(k, v)]))
  }

  ghost predicate Owned(devs: seq<Dev>, s: nat) {
    exists k :: 0 <= k < |devs| && s in devs[k].slots
  }

  /** No slot belongs to two devices. */
  ghost predicate Disjoint(devs: seq<Dev>) {
    forall j, k, x | 0 <= j < |devs| && 0 <= k < |devs| && x in devs[j].slots && x in devs[k].slots :: j == k
  }

  /** No two devices have a server on the same gic400 line. */
  ghost predicate LinesExclusive(devs: seq<Dev>) {
    forall j, k | 0 <= j < |devs| && 0 <= k < |devs| && devs[j].intxServer.Some? && devs[k].intxServer.Some?
      && devs[j].caps.gicIrq == devs[k].caps.gicIrq :: j == k
  }

  ghost predicate BoundUsed(c: Ctrl)
    requires CtrlOk(c)
  {
    forall x | 0 <= x < SLOTS && c.servers[x].Some? :: x in c.used
  }

  ghost predicate AllDevs(s: Sys)
    requires CtrlOk(s.c)
  {
    && (forall k | 0 <= k < |s.devs| :: DevInv(s.c, s.devs[k]) && LogOk(s.log, s.c, k, s.devs[k]))
    && (forall p | p in s.log :: p.0 < |s.devs|)
  }

  ghost predicate Inv(s: Sys) {
    && CtrlOk(s.c)
    && AllDevs(s)
    && Disjoint(s.devs)
    && (forall x | x in s.c.used :: Owned(s.devs, x))
    && BoundUsed(s.c)
    && LinesExclusive(s.devs)
  }

  // ---- steps ----

  ghost function Forget(log: map<(nat, nat), Server>, k: nat): map<(nat, nat), Server> {
    map p | p in log && p.0 != k :: log[p]
  }

  ghost function ForgetOne(log: map<(nat, nat), Server>, k: nat, v: nat, isr: Server): map<(nat, nat), Server> {
    if (k, v) in log && log[(k, v)] == isr then log - {(k, v)} else log
  }

  ghost predicate Ready(s: Sys) {
    CtrlOk(s.c) && forall k | 0 <= k < |s.devs| :: DevOk(s.devs[k])
  }

  ghost function With(s: Sys, k: nat, c: Ctrl, d: Dev, log: map<(nat, nat), Server>): Sys
    requires k < |s.devs|
  {
    Sys(c, s.devs[k := d], log)
  }

  ghost function Step(s: Sys, op: Op): Sys
    requires Ready(s)
  {
    match op
    case OpAlloc(k, min, max, flags) =>
      if k >= |s.devs| then s
      else var r := Alloc(s.c, s.devs[k], min, max, flags); With(s, k, r.0, r.1, s.log)
    case OpAdd(k, v, isr, fault) =>
      if k >= |s.devs| then s
      else
        var r := Add(s.c, s.devs[k], v, isr, fault);
        With(s, k, r.0, r.1, if r.2 == Ok(0) then s.log[(k, v) := isr] else s.log)
    case OpRem(k, v, isr) =>
      if k >= |s.devs| then s
      else var r := Rem(s.c, s.devs[k], v, isr); With(s, k, r.0, r.1, ForgetOne(s.log, k, v, isr))
    case OpFree(k) =>
      if k >= |s.devs| then s
      else var r := Free(s.c, s.devs[k]); With(s, k, r.0, r.1, Forget(s.log, k))
    case OpMask(k, v) =>
      if k >= |s.devs| then s
      else var r := SetMask(s.c, s.devs[k], v, true); With(s, k, r.0, r.1, s.log)
    case OpUnmask(k, v) =>
      if k >= |s.devs| then s
      else var r := SetMask(s.c, s.devs[k], v, false); With(s, k, r.0, r.1, s.log)
    case OpLibAdd(k, isr, preferMsi, fault) =>
      if k >= |s.devs| then s
      else
        var r := LibAdd(s.c, s.devs[k], isr, preferMsi, fault);
        With(s, k, r.0, r.1, if r.2 then s.log[(k, 0) := isr] else s.log)
    case OpLibRem(k, isr) =>
      if k >= |s.devs| then s
      else var r := LibRem(s.c, s.devs[k], isr); With(s, k, r.0, r.1, Forget(s.log, k))
    case OpIntxMask(k, mask) =>
      if k >= |s.devs| then s else With(s, k, s.c, IntxMasked(s.devs[k], mask), s.log)
    case OpSend(k, v) =>
      if k < |s.devs| && v < s.devs[k].nvec && Messaged(s.devs[k]) && GateOpen(s.devs[k], v)
         && Target(s.devs[k], v).Some?
      then s.(c := s.c.(latch := s.c.latch + {Target(s.devs[k], v).value}))
      else s
    case OpInterrupt => s.(c := s.c.(latch := {}))
  }

  // ---- one device changes ----

  /** What a call on device k must leave alone, and what it must establish. */
  ghost predicate LocalChange(c0: Ctrl, d0: Dev, log0: map<(nat, nat), Server>, k: nat,
                              c: Ctrl, d: Dev, log: map<(nat, nat), Server>)
    requires CtrlOk(c0)
  {
    && CtrlOk(c) && DevInv(c, d)
    && (forall x | 0 <= x < SLOTS && x !in d0.slots && x !in d.slots ::
          c.servers[x] == c0.servers[x] && (x in c.used <==> x in c0.used))
    && (forall x | x in d0.slots && x !in d.slots :: x < SLOTS && x !in c.used && c.servers[x].None?)
    && (forall x | x in d.slots && x !in d0.slots :: x !in c0.used)
    && d.caps.gicIrq == d0.caps.gicIrq
    && (forall q | q != d0.caps.gicIrq :: (q in c.gic <==> q in c0.gic) && (q in c.gic ==> c.gic[q] == c0.gic[q]))
    && (c.gic == c0.gic || d0.caps.gicIrq !in c0.gic || d0.intxServer.Some?)
    && (d.intxServer.Some? ==> d0.intxServer.Some? || d0.caps.gicIrq !in c0.gic)
    && LogOk(log, c, k, d)
    && (forall p: (nat, nat) | p.0 != k :: (p in log <==> p in log0) && (p in log ==> log[p] == log0[p]))
  }

  lemma OtherDevice(s: Sys, k: nat, c: Ctrl, d: Dev, log: map<(nat, nat), Server>, j: nat)
    requires Inv(s) && k < |s.devs| && LocalChange(s.c, s.devs[k], s.log, k, c, d, log) && j < |s.devs| && j != k
    ensures DevInv(c, s.devs[j]) && LogOk(log, c, j, s.devs[j])
    ensures forall x | x in s.devs[j].slots :: x !in d.slots
    ensures !(s.devs[j].intxServer.Some? && d.intxServer.Some? && s.devs[j].caps.gicIrq == d.caps.gicIrq)
  {}

  lemma ReplaceAll(s: Sys, k: nat, c: Ctrl, d: Dev, log: map<(nat, nat), Server>)
    requires Inv(s) && k < |s.devs| && LocalChange(s.c, s.devs[k], s.log, k, c, d, log)
    ensures AllDevs(With(s, k, c, d, log))
    ensures Disjoint(s.devs[k := d]) && LinesExclusive(s.devs[k := d])
  {
    var devs := s.devs[k := d];
    forall j | 0 <= j < |devs|
      ensures DevInv(c, devs[j]) && LogOk(log, c, j, devs[j])
      ensures j != k ==> forall x | x in devs[j].slots :: x !in d.slots
      ensures j != k ==> !(devs[j].intxServer.Some? && d.intxServer.Some? && devs[j].caps.gicIrq == d.caps.gicIrq)
    {
      if j != k { OtherDevice(s, k, c, d, log, j); }
    }
    forall p | p in log ensures p.0 < |devs| {
      if p.0 != k { assert p in s.log; }
    }
  }

  lemma ReplaceOwned(s: Sys, k: nat, c: Ctrl, d: Dev, log: map<(nat, nat), Server>, x: nat)
    requires Inv(s) && k < |s.devs| && LocalChange(s.c, s.devs[k], s.log, k, c, d, log)
    requires x in c.used
    ensures Owned(s.devs[k := d], x)
  {
    var devs := s.devs[k := d];
    if x in d.slots {
      assert devs[k] == d;
    } else {
      assert x in s.c.used && x !in s.devs[k].slots;
      var j :| 0 <= j < |s.devs| && x in s.devs[j].slots;
      assert devs[j] == s.devs[j];
    }
  }

  /** The invariant needs to be looked at for the changed device only. */
  lemma Replace(s: Sys, k: nat, c: Ctrl, d: Dev, log: map<(nat, nat), Server>)
    requires Inv(s) && k < |s.devs| && LocalChange(s.c, s.devs[k], s.log, k, c, d, log)
    ensures Inv(With(s, k, c, d, log))
  {
    ReplaceAll(s, k, c, d, log);
    forall x | x in c.used ensures Owned(s.devs[k := d], x) { ReplaceOwned(s, k, c, d, log, x); }
    forall x | 0 <= x < SLOTS && c.servers[x].Some? ensures x in c.used {
      if x in d.slots {
        var i :| 0 <= i < |d.slots| && d.slots[i] == x;
      }
    }
  }

  // ---- every step keeps the invariant ----

  /** The part of the invariant that concerns one device. */
  ghost predicate DevView(c: Ctrl, d: Dev, log: map<(nat, nat), Server>, k: nat) {
    && CtrlOk(c) && BoundUsed(c) && DevInv(c, d) && LogOk(log, c, k, d)
  }

  /** The device after pci_msix_program for the given slots. */
  lemma MsixConfiguredShape(d: Dev, q: seq<nat>)
    requires DevOk(d) && d.caps.msix && 0 < |q| <= d.caps.tableSize && |q| <= SLOTS
    requires forall i | 0 <= i < |q| :: q[i] < SLOTS
    ensures var r := MsixConfigured(d, q);
      && DevOk(r) && MsixProgrammed(r)
      && (forall i | 0 <= i < |q| :: r.regs.table[i].masked)
      && (forall i | |q| <= i < |r.regs.table| :: r.regs.table[i] == d.regs.table[i])
  {}

  lemma MsixLocal(c: Ctrl, d: Dev, log: map<(nat, nat), Server>, k: nat, min: nat, max: nat)
    requires DevView(c, d, log, k) && d.mode == Idle && 1 <= min <= max <= SLOTS
    requires MsixAlloc(c, d, min, max).2.Ok?
    ensures var r := MsixAlloc(c, d, min, max); LocalChange(c, d, log, k, r.0, r.1, log)
  {
    var n := Min(max, d.caps.tableSize);
    FirstFreeExact(c.used, 0, n);
    var q := FirstFree(c.used, 0, n);
    AscendingDistinct(q);
    var r := MsixAlloc(c, d, min, max);
    forall i | 0 <= i < |q|
      ensures q[i] < SLOTS && q[i] !in c.used && q[i] in r.0.used && c.servers[q[i]].None?
    {
      assert q[i] in FreeAbove(c.used, 0);
      assert q[i] in Elems(q);
    }
    assert forall x | x in q :: x in Elems(q);
    MsixConfiguredShape(d, q);
  }

  lemma InMultiMask(d: Dev, max: nat, v: nat)
    requires max <= SLOTS && v < MsiLimit(d, max)
    ensures v in MultiMask(d.caps.log2Max)
  {}

  /** The device after pci_msi_program. */
  lemma MsiConfiguredShape(d: Dev, n: nat, base: nat, max: nat)
    requires DevOk(d) && d.caps.msi && IsPow2(n) && n <= MsiLimit(d, max) && max <= SLOTS
    requires base % n == 0 && base + n <= SLOTS
    ensures var r := MsiConfigured(d, n, base);
      && DevOk(r) && MsiProgrammed(r) && Distinct(r.slots)
      && Elems(r.slots) == Block(base, n)
      && (d.caps.maskable ==> r.shadow == r.regs.msiMask)
      && (d.caps.maskable ==> forall v | 0 <= v < n :: v in r.regs.msiMask)
  {
    var r := MsiConfigured(d, n, base);
    assert r.slots[0] == base;
    BlockElems(base, n);
    if d.caps.maskable {
      forall v | 0 <= v < n ensures v in r.regs.msiMask { InMultiMask(d, max, v); }
    }
  }

  lemma MsiLocal(c: Ctrl, d: Dev, log: map<(nat, nat), Server>, k: nat, min: nat, max: nat)
    requires DevView(c, d, log, k) && d.mode == Idle && 1 <= min <= max <= SLOTS
    requires MsiAlloc(c, d, min, max).2.Ok?
    ensures var r := MsiAlloc(c, d, min, max); LocalChange(c, d, log, k, r.0, r.1, log)
  {
    var r := MsiAlloc(c, d, min, max);
    MsiLimitPositive(d, max);
    var top := RoundDownPow2(MsiLimit(d, max));
    RoundDownPow2Exact(MsiLimit(d, max));
    LargestBlockExact(c.used, top, min);
    var (n, base) := LargestBlock(c.used, top, min).value;
    MsiConfiguredShape(d, n, base, max);
    assert r.1 == MsiConfigured(d, n, base);
    forall v | 0 <= v < n
      ensures r.1.slots[v] !in c.used && c.servers[r.1.slots[v]].None? && r.1.slots[v] in r.0.used
    {
      assert r.1.slots[v] in Elems(r.1.slots);
    }
    assert forall x | x in r.1.slots :: x in Elems(r.1.slots);
  }

  lemma IntxLocal(c: Ctrl, d: Dev, log: map<(nat, nat), Server>, k: nat, min: nat)
    requires DevView(c, d, log, k) && d.mode == Idle
    requires IntxAlloc(c, d, min).2.Ok?
    ensures var r := IntxAlloc(c, d, min); LocalChange(c, d, log, k, r.0, r.1, log)
  {}

  lemma AllocLocal(c: Ctrl, d: Dev, log: map<(nat, nat), Server>, k: nat, min: nat, max: nat, flags: nat)
    requires DevView(c, d, log, k)
    requires Alloc(c, d, min, max, flags).2.Ok?
    ensures var r := Alloc(c, d, min, max, flags); LocalChange(c, d, log, k, r.0, r.1, log)
  {
    var r := Alloc(c, d, min, max, flags);
    var lo, hi := Max(min, 1), Min(max, SLOTS);
    if Bit(flags, MSIX_BIT) && MsixAlloc(c, d, lo, hi).2.Ok? {
      MsixLocal(c, d, log, k, lo, hi);
    } else if Bit(flags, MSI_BIT) && MsiAlloc(c, d, lo, hi).2.Ok? {
      MsiLocal(c, d, log, k, lo, hi);
    } else {
      IntxLocal(c, d, log, k, lo);
    }
  }

  /** The count granted lies in the requested range and is the one recorded. */
  lemma AllocRange(c: Ctrl, d: Dev, min: nat, max: nat, flags: nat)
    requires CtrlOk(c) && DevOk(d)
    ensures var r := Alloc(c, d, min, max, flags);
      r.2.Ok? ==> min <= r.2.n <= Max(max, 1) && 1 <= r.2.n && r.1.nvec == r.2.n && r.1.mode != Idle
  {
    var lo, hi := Max(min, 1), Min(max, SLOTS);
    if d.mode == Idle && lo <= hi {
      FirstFreeExact(c.used, 0, Min(hi, d.caps.tableSize));
      MsiLimitPositive(d, hi);
      RoundDownPow2Exact(MsiLimit(d, hi));
      LargestBlockExact(c.used, RoundDownPow2(MsiLimit(d, hi)), lo);
    }
  }

  lemma AllocKeeps(s: Sys, k: nat, min: nat, max: nat, flags: nat)
    requires Inv(s) && k < |s.devs|
    ensures var r := Alloc(s.c, s.devs[k], min, max, flags); Inv(With(s, k, r.0, r.1, s.log))
  {
    var r := Alloc(s.c, s.devs[k], min, max, flags);
    if r.2.Err? {
      assert With(s, k, r.0, r.1, s.log) == s;
    } else {
      AllocLocal(s.c, s.devs[k], s.log, k, min, max, flags);
      Replace(s, k, r.0, r.1, s.log);
    }
  }

  /** Slot v of the device gains (open) or loses its server; nothing else moves. */
  ghost predicate SlotChange(c: Ctrl, d: Dev, v: nat, c': Ctrl, open: bool)
    requires CtrlOk(c) && CtrlOk(c') && DevInv(c, d) && Messaged(d) && v < d.nvec
  {
    && c'.used == c.used && c'.gic == c.gic
    && (forall x | 0 <= x < SLOTS && x != d.slots[v] :: c'.servers[x] == c.servers[x])
    && (c'.servers[d.slots[v]].Some? <==> open)
  }

  /** The device with the gate of vector v moved. */
  ghost function Gated(d: Dev, v: nat, open: bool): Dev
    requires DevOk(d) && v < d.nvec
  {
    if open then OpenGate(d, v) else CloseGate(d, v)
  }

  lemma GatedShape(d: Dev, v: nat, open: bool)
    requires DevOk(d) && Messaged(d) && v < d.nvec
    requires (d.mode == Msi ==> MsiProgrammed(d)) && (d.mode == Msix ==> MsixProgrammed(d))
    ensures var e := Gated(d, v, open);
      && DevOk(e) && (d.mode == Msi ==> MsiProgrammed(e)) && (d.mode == Msix ==> MsixProgrammed(e))
      && e.mode == d.mode && e.nvec == d.nvec && e.slots == d.slots && e.caps == d.caps
      && e.regs.msiEnable == d.regs.msiEnable && e.regs.msixEnable == d.regs.msixEnable
      && e.intxServer == d.intxServer
  {}

  lemma GatedGates(c: Ctrl, d: Dev, v: nat, c': Ctrl, open: bool)
    requires CtrlOk(c) && CtrlOk(c') && DevInv(c, d) && Messaged(d) && v < d.nvec
    requires SlotChange(c, d, v, c', open) && DevOk(Gated(d, v, open))
    ensures Gates(c', Gated(d, v, open))
  {
    var e := Gated(d, v, open);
    forall w: nat | w < d.nvec && (d.mode == Msix || d.caps.maskable)
      ensures GateOpen(e, w) <==> c'.servers[d.slots[w]].Some?
    {
      if w != v { assert d.slots[w] != d.slots[v] && (GateOpen(e, w) <==> GateOpen(d, w)); }
    }
  }

  /** Opening or closing one gate together with its slot keeps the device in step. */
  lemma GateStep(c: Ctrl, d: Dev, v: nat, c': Ctrl, open: bool)
    requires CtrlOk(c) && CtrlOk(c') && DevInv(c, d) && Messaged(d) && v < d.nvec
    requires SlotChange(c, d, v, c', open)
    ensures DevInv(c', Gated(d, v, open))
  {
    GatedShape(d, v, open);
    GatedGates(c, d, v, c', open);
  }

  /** The log after slot v of a messaging device gained (Some) or lost its server. */
  lemma LogStep(c: Ctrl, d: Dev, log: map<(nat, nat), Server>, k: nat, v: nat,
                c': Ctrl, d': Dev, isr: Option<Server>)
    requires DevView(c, d, log, k) && Messaged(d) && v < d.nvec
    requires CtrlOk(c') && DevOk(d') && SlotChange(c, d, v, c', isr.Some?) && c'.servers[d.slots[v]] == isr
    requires d'.mode == d.mode && d'.nvec == d.nvec && d'.slots == d.slots
    ensures LogOk(if isr.Some? then log[(k, v) := isr.value] else log - {(k, v)}, c', k, d')
  {}

  /** A messaging device's slot given a server or relieved of it, and its gate moved. */
  lemma SlotLocal(c: Ctrl, d: Dev, log: map<(nat, nat), Server>, k: nat, v: nat, c': Ctrl, isr: Option<Server>)
    requires DevView(c, d, log, k) && Messaged(d) && v < d.nvec
    requires CtrlOk(c') && SlotChange(c, d, v, c', isr.Some?) && c'.servers[d.slots[v]] == isr
    ensures LocalChange(c, d, log, k, c', Gated(d, v, isr.Some?),
                        if isr.Some? then log[(k, v) := isr.value] else log - {(k, v)})
  {
    GatedShape(d, v, isr.Some?);
    GateStep(c, d, v, c', isr.Some?);
    assert d.slots[v] in d.slots;
    LogStep(c, d, log, k, v, c', Gated(d, v, isr.Some?), isr);
  }

  lemma AddLocalIntx(c: Ctrl, d: Dev, log: map<(nat, nat), Server>, k: nat, v: nat, isr: Server, fault: bool)
    requires DevView(c, d, log, k) && d.mode == Intx && Add(c, d, v, isr, fault).2.Ok?
    ensures var r := Add(c, d, v, isr, fault); LocalChange(c, d, log, k, r.0, r.1, log[(k, v) := isr])
  {}

  lemma AddLocal(c: Ctrl, d: Dev, log: map<(nat, nat), Server>, k: nat, v: nat, isr: Server, fault: bool)
    requires DevView(c, d, log, k) && Add(c, d, v, isr, fault).2.Ok?
    ensures var r := Add(c, d, v, isr, fault); LocalChange(c, d, log, k, r.0, r.1, log[(k, v) := isr])
  {
    if d.mode == Intx {
      AddLocalIntx(c, d, log, k, v, isr, fault);
    } else {
      SlotLocal(c, d, log, k, v, Bind(c, d.slots[v], isr), Some(isr));
    }
  }

  lemma AddKeeps(s: Sys, k: nat, v: nat, isr: Server, fault: bool)
    requires Inv(s) && k < |s.devs|
    ensures var r := Add(s.c, s.devs[k], v, isr, fault);
      Inv(With(s, k, r.0, r.1, if r.2 == Ok(0) then s.log[(k, v) := isr] else s.log))
  {
    var r := Add(s.c, s.devs[k], v, isr, fault);
    if r.2 != Ok(0) {
      assert With(s, k, r.0, r.1, s.log) == s;
    } else {
      AddLocal(s.c, s.devs[k], s.log, k, v, isr, fault);
      Replace(s, k, r.0, r.1, s.log[(k, v) := isr]);
    }
  }

  lemma RemLocalIntx(c: Ctrl, d: Dev, log: map<(nat, nat), Server>, k: nat, v: nat, isr: Server)
    requires DevView(c, d, log, k) && d.mode == Intx && v < d.nvec && VecServer(c, d, v) == Some(isr)
    ensures var r := Rem(c, d, v, isr); LocalChange(c, d, log, k, r.0, r.1, log - {(k, v)})
  {}

  lemma RemLocal(c: Ctrl, d: Dev, log: map<(nat, nat), Server>, k: nat, v: nat, isr: Server)
    requires DevView(c, d, log, k) && v < d.nvec && VecServer(c, d, v) == Some(isr)
    ensures var r := Rem(c, d, v, isr); LocalChange(c, d, log, k, r.0, r.1, log - {(k, v)})
  {
    if d.mode == Intx {
      RemLocalIntx(c, d, log, k, v, isr);
    } else {
      SlotLocal(c, d, log, k, v, Unbind(c, d.slots[v]), None);
    }
  }

  lemma RemKeeps(s: Sys, k: nat, v: nat, isr: Server)
    requires Inv(s) && k < |s.devs|
    ensures var r := Rem(s.c, s.devs[k], v, isr); Inv(With(s, k, r.0, r.1, ForgetOne(s.log, k, v, isr)))
  {
    var d := s.devs[k];
    var r := Rem(s.c, d, v, isr);
    assert LogOk(s.log, s.c, k, d);
    if v >= d.nvec || VecServer(s.c, d, v) != Some(isr) {
      assert With(s, k, r.0, r.1, s.log) == s;
    } else {
      RemLocal(s.c, d, s.log, k, v, isr);
      Replace(s, k, r.0, r.1, s.log - {(k, v)});
    }
  }

  ghost predicate Serverless(c: Ctrl, d: Dev, upTo: nat)
    requires CtrlOk(c) && DevOk(d)
  {
    forall v | 0 <= v < upTo && v < d.nvec :: VecServer(c, d, v).None?
  }

  lemma RemServerless(c: Ctrl, d: Dev, v: nat, isr: Server)
    requires CtrlOk(c) && DevInv(c, d) && v < d.nvec && Serverless(c, d, v)
    requires VecServer(c, d, v) == Some(isr)
    ensures var r := Rem(c, d, v, isr); Serverless(r.0, r.1, v + 1) && r.1.nvec == d.nvec
  {
    var r := Rem(c, d, v, isr);
    forall w: nat | w < v ensures VecServer(r.0, r.1, w).None? {
      assert VecServer(c, d, w).None?;
      if d.mode != Intx { assert d.slots[w] != d.slots[v]; }
    }
  }

  /** A change that takes no slots keeps the device's view whole. */
  lemma LocalView(c0: Ctrl, d0: Dev, log0: map<(nat, nat), Server>, k: nat,
                  c: Ctrl, d: Dev, log: map<(nat, nat), Server>)
    requires DevView(c0, d0, log0, k) && LocalChange(c0, d0, log0, k, c, d, log)
    ensures DevView(c, d, log, k)
  {}

  /** Changes compose when the first one moves no slots. */
  lemma LocalThen(c0: Ctrl, d0: Dev, log0: map<(nat, nat), Server>, k: nat,
                  c1: Ctrl, d1: Dev, log1: map<(nat, nat), Server>,
                  c2: Ctrl, d2: Dev, log2: map<(nat, nat), Server>)
    requires CtrlOk(c0) && LocalChange(c0, d0, log0, k, c1, d1, log1) && LocalChange(c1, d1, log1, k, c2, d2, log2)
    requires d1.slots == d0.slots && c1.used == c0.used
    requires c0.gic == c1.gic || c1.gic == c2.gic
    requires d1.intxServer.Some? ==> d0.intxServer.Some?
    requires d2.intxServer.Some? ==> d1.intxServer.Some?
    ensures LocalChange(c0, d0, log0, k, c2, d2, log2)
  {}

  /** One turn of the detaching loop. */
  lemma DetachStep(c: Ctrl, d: Dev, log: map<(nat, nat), Server>, k: nat, v: nat, isr: Server)
    requires DevView(c, d, log, k) && Serverless(c, d, v) && v < d.nvec && VecServer(c, d, v) == Some(isr)
    ensures var x := DetachTurn(c, d, v);
      && LocalChange(c, d, log, k, x.0, x.1, log - {(k, v)})
      && DevView(x.0, x.1, log - {(k, v)}, k) && Serverless(x.0, x.1, v + 1)
      && x.1.slots == d.slots && x.1.nvec == d.nvec && x.1.mode == d.mode && x.0.used == c.used
      && (x.1.intxServer.Some? ==> d.intxServer.Some?)
      && (d.mode != Intx ==> x.0.gic == c.gic)
  {
    RemLocal(c, d, log, k, v, isr);
    RemServerless(c, d, v, isr);
    var x := Rem(c, d, v, isr);
    LocalView(c, d, log, k, x.0, x.1, log - {(k, v)});
  }

  /** ... and what follows it. */
  lemma TurnThen(c: Ctrl, d: Dev, log: map<(nat, nat), Server>, k: nat, v: nat, isr: Server,
                 c2: Ctrl, d2: Dev, log2: map<(nat, nat), Server>)
    requires DevView(c, d, log, k) && Serverless(c, d, v) && v < d.nvec && VecServer(c, d, v) == Some(isr)
    requires var x := DetachTurn(c, d, v);
      && LocalChange(x.0, x.1, log - {(k, v)}, k, c2, d2, log2)
      && (d2.intxServer.Some? ==> x.1.intxServer.Some?) && c2.gic == x.0.gic
    ensures LocalChange(c, d, log, k, c2, d2, log2)
    ensures (d2.intxServer.Some? ==> d.intxServer.Some?) && (d.mode != Intx ==> c2.gic == c.gic)
  {
    DetachStep(c, d, log, k, v, isr);
    var x := DetachTurn(c, d, v);
    LocalThen(c, d, log, k, x.0, x.1, log - {(k, v)}, c2, d2, log2);
  }

  /** The detaching loop removes every server and touches no other device. */
  lemma {:induction false} DetachLocal(c: Ctrl, d: Dev, log: map<(nat, nat), Server>, k: nat, v: nat)
    returns (log': map<(nat, nat), Server>)
    requires DevView(c, d, log, k) && Serverless(c, d, v)
    ensures var r := DetachFrom(c, d, v);
      && LocalChange(c, d, log, k, r.0, r.1, log') && Serverless(r.0, r.1, r.1.nvec)
      && (r.1.intxServer.Some? ==> d.intxServer.Some?)
      && (d.mode != Intx ==> r.0.gic == c.gic)
    decreases d.nvec - v
  {
    log' := log;
    if v < d.nvec {
      var isr := VecServer(c, d, v);
      if isr.Some? {
        var x := DetachTurn(c, d, v);
        var log1 := log - {(k, v)};
        DetachStep(c, d, log, k, v, isr.value);
        log' := DetachLocal(x.0, x.1, log1, k, v + 1);
        var r := DetachFrom(x.0, x.1, v + 1);
        assert d.mode == Intx ==> r == x;
        TurnThen(c, d, log, k, v, isr.value, r.0, r.1, log');
      } else {
        log' := DetachLocal(c, d, log, k, v + 1);
      }
    }
  }

  /** Giving back the slots of a device none of whose vectors has a server. */
  lemma ReleaseLocal(c: Ctrl, d: Dev, log: map<(nat, nat), Server>, k: nat)
    requires DevView(c, d, log, k) && Serverless(c, d, d.nvec)
    ensures var r := Release(c, d); LocalChange(c, d, log, k, r.0, r.1, log)
    ensures Forget(log, k) == log
  {
    var r := Release(c, d);
    assert Forget(log, k) == log by {
      forall p | p in log ensures p.0 != k {
        assert p == (p.0, p.1);
      }
    }
    forall x | x in d.slots ensures x < SLOTS && c.servers[x].None? && x !in r.0.used {
      var i :| 0 <= i < |d.slots| && d.slots[i] == x;
      assert VecServer(c, d, i).None?;
      assert x in Elems(d.slots);
    }
    if d.mode == Msix {
      forall i | 0 <= i < |d.regs.table| ensures r.1.regs.table[i].masked {
        if i < d.nvec { assert VecServer(c, d, i).None?; assert !GateOpen(d, i); }
      }
    }
    if d.mode == Intx { assert VecServer(c, d, 0).None?; }
  }

  /** The slots given back after the loop has left the device at (c1, d1). */
  lemma FreeEnds(c: Ctrl, d: Dev, log: map<(nat, nat), Server>, k: nat,
                 c1: Ctrl, d1: Dev, log1: map<(nat, nat), Server>)
    requires DevView(c, d, log, k) && LocalChange(c, d, log, k, c1, d1, log1)
    requires Serverless(c1, d1, d1.nvec) && d1.slots == d.slots && c1.used == c.used
    requires (d1.intxServer.Some? ==> d.intxServer.Some?)
    ensures var r := Release(c1, d1); LocalChange(c, d, log, k, r.0, r.1, log1)
    ensures Forget(log1, k) == log1
  {
    LocalView(c, d, log, k, c1, d1, log1);
    ReleaseLocal(c1, d1, log1, k);
    var r := Release(c1, d1);
    LocalThen(c, d, log, k, c1, d1, log1, r.0, r.1, log1);
  }

  lemma SameForgotten(a: map<(nat, nat), Server>, b: map<(nat, nat), Server>, k: nat)
    requires forall p: (nat, nat) | p.0 != k :: (p in b <==> p in a) && (p in b ==> b[p] == a[p])
    ensures Forget(a, k) == Forget(b, k)
  {}

  lemma FreeLocal(c: Ctrl, d: Dev, log: map<(nat, nat), Server>, k: nat)
    requires DevView(c, d, log, k)
    ensures var r := Free(c, d); LocalChange(c, d, log, k, r.0, r.1, Forget(log, k))
  {
    var x := DetachFrom(c, d, 0);
    var log1 := DetachLocal(c, d, log, k, 0);
    FreeEnds(c, d, log, k, x.0, x.1, log1);
    SameForgotten(log, log1, k);
  }

  lemma FreeKeeps(s: Sys, k: nat)
    requires Inv(s) && k < |s.devs|
    ensures var r := Free(s.c, s.devs[k]); Inv(With(s, k, r.0, r.1, Forget(s.log, k)))
  {
    var r := Free(s.c, s.devs[k]);
    FreeLocal(s.c, s.devs[k], s.log, k);
    Replace(s, k, r.0, r.1, Forget(s.log, k));
  }

  lemma MaskLocal(c: Ctrl, d: Dev, log: map<(nat, nat), Server>, k: nat, v: nat, hold: bool)
    requires DevView(c, d, log, k)
    ensures var r := SetMask(c, d, v, hold); LocalChange(c, d, log, k, r.0, r.1, log)
  {
    var r := SetMask(c, d, v, hold);
    assert r.1.slots == d.slots && r.1.mode == d.mode && r.1.nvec == d.nvec && r.1.regs.table == d.regs.table;
    assert DevInv(r.0, r.1) by {
      if d.mode == Msix || (d.mode == Msi && d.caps.maskable) {
        forall w: nat | w < d.nvec ensures GateOpen(r.1, w) <==> GateOpen(d, w) {}
      }
    }
    assert LogOk(log, r.0, k, r.1) by {
      forall w: nat | w < d.nvec ensures VecServer(r.0, r.1, w) == VecServer(c, d, w) {}
    }
  }

  lemma MaskKeeps(s: Sys, k: nat, v: nat, hold: bool)
    requires Inv(s) && k < |s.devs|
    ensures var r := SetMask(s.c, s.devs[k], v, hold); Inv(With(s, k, r.0, r.1, s.log))
  {
    var r := SetMask(s.c, s.devs[k], v, hold);
    MaskLocal(s.c, s.devs[k], s.log, k, v, hold);
    Replace(s, k, r.0, r.1, s.log);
  }

  lemma IntxMaskKeeps(s: Sys, k: nat, mask: bool)
    requires Inv(s) && k < |s.devs|
    ensures Inv(With(s, k, s.c, IntxMasked(s.devs[k], mask), s.log))
  {
    var d := s.devs[k];
    var e := IntxMasked(d, mask);
    assert LogOk(s.log, s.c, k, d);
    assert DevInv(s.c, e) by {
      assert DevInv(s.c, d);
      forall v: nat | v < d.nvec && Messaged(d) ensures GateOpen(e, v) <==> GateOpen(d, v) {}
    }
    forall v: nat | v < d.nvec ensures VecServer(s.c, e, v) == VecServer(s.c, d, v) {}
    Replace(s, k, s.c, e, s.log);
  }

  lemma LatchKeeps(s: Sys, latch: set<nat>)
    requires Inv(s)
    ensures Inv(s.(c := s.c.(latch := latch)))
  {}

  lemma LibAddKeeps(s: Sys, k: nat, isr: Server, preferMsi: bool, fault: bool)
    requires Inv(s) && k < |s.devs|
    ensures var r := LibAdd(s.c, s.devs[k], isr, preferMsi, fault);
      Inv(With(s, k, r.0, r.1, if r.2 then s.log[(k, 0) := isr] else s.log))
  {
    var r := LibAdd(s.c, s.devs[k], isr, preferMsi, fault);
    if !r.2 {
      LibAddRollback(s.c, s.devs[k], isr, preferMsi, fault);
      assert With(s, k, r.0, r.1, s.log) == s;
    } else {
      var flags := if preferMsi then 3 else 1;
      var a := Alloc(s.c, s.devs[k], 1, 1, flags);
      AllocKeeps(s, k, 1, 1, flags);
      var t := With(s, k, a.0, a.1, s.log);
      AddKeeps(t, k, 0, isr, fault);
      assert t.devs[k := r.1] == s.devs[k := r.1];
    }
  }

  /** A fresh allocation has no servers. */
  lemma AllocServerless(c: Ctrl, d: Dev, min: nat, max: nat, flags: nat, v: nat)
    requires CtrlOk(c) && BoundUsed(c) && DevOk(d) && d.intxServer.None?
    requires Alloc(c, d, min, max, flags).2.Ok?
    ensures var r := Alloc(c, d, min, max, flags);
      CtrlOk(r.0) && DevOk(r.1) && (v < r.1.nvec ==> VecServer(r.0, r.1, v).None?)
  {
    var r := Alloc(c, d, min, max, flags);
    AllocOk(c, d, min, max, flags);
    if v < r.1.nvec && r.1.mode != Intx {
      var lo, hi := Max(min, 1), Min(max, SLOTS);
      FirstFreeExact(c.used, 0, Min(hi, d.caps.tableSize));
      MsiLimitPositive(d, hi);
      RoundDownPow2Exact(MsiLimit(d, hi));
      LargestBlockExact(c.used, RoundDownPow2(MsiLimit(d, hi)), lo);
      if r.1.mode == Msi { assert BlockHas(r.1.slots[0], r.1.nvec, r.1.slots[v]); }
      assert r.1.slots[v] !in c.used;
    }
  }

  /** A failed LibAddIntServer leaves the controller and the device as they were. */
  lemma LibAddRollback(c: Ctrl, d: Dev, isr: Server, preferMsi: bool, fault: bool)
    requires CtrlOk(c) && BoundUsed(c) && DevOk(d) && IntxOk(c, d)
    ensures var r := LibAdd(c, d, isr, preferMsi, fault); !r.2 ==> r.0 == c && r.1 == d
  {
    var flags := if preferMsi then 3 else 1;
    var a := Alloc(c, d, 1, 1, flags);
    if a.2.Ok? {
      AllocServerless(c, d, 1, 1, flags, 0);
      AllocRange(c, d, 1, 1, flags);
      if a.1.mode == Intx {
        assert DetachFrom(a.0, a.1, 1) == (a.0, a.1);
        assert DetachFrom(a.0, a.1, 0) == (a.0, a.1);
        assert Elems([]) == {};
        assert c.used - {} == c.used;
      }
    }
  }

  lemma LibRemKeeps(s: Sys, k: nat, isr: Server)
    requires Inv(s) && k < |s.devs|
    ensures var r := LibRem(s.c, s.devs[k], isr); Inv(With(s, k, r.0, r.1, Forget(s.log, k)))
  {
    var r := Rem(s.c, s.devs[k], 0, isr);
    var log := ForgetOne(s.log, k, 0, isr);
    RemKeeps(s, k, 0, isr);
    var t := With(s, k, r.0, r.1, log);
    FreeKeeps(t, k);
    var f := LibRem(s.c, s.devs[k], isr);
    assert t.devs[k := f.1] == s.devs[k := f.1];
    assert Forget(log, k) == Forget(s.log, k);
  }

  lemma CallKeeps(s: Sys, op: Op)
    requires Inv(s) && (op.OpAlloc? || op.OpAdd? || op.OpRem? || op.OpFree?) && op.k < |s.devs|
    ensures Inv(Step(s, op))
  {
    match op
    case OpAlloc(k, min, max, flags) => AllocKeeps(s, k, min, max, flags);
    case OpAdd(k, v, isr, fault) => AddKeeps(s, k, v, isr, fault);
    case OpRem(k, v, isr) => RemKeeps(s, k, v, isr);
    case OpFree(k) => FreeKeeps(s, k);
  }

  lemma LibKeeps(s: Sys, op: Op)
    requires Inv(s) && (op.OpLibAdd? || op.OpLibRem?) && op.k < |s.devs|
    ensures Inv(Step(s, op))
  {
    match op
    case OpLibAdd(k, isr, preferMsi, fault) => LibAddKeeps(s, k, isr, preferMsi, fault);
    case OpLibRem(k, isr) => LibRemKeeps(s, k, isr);
  }

  lemma MaskStep(s: Sys, op: Op)
    requires Inv(s) && (op.OpMask? || op.OpUnmask?) && op.k < |s.devs|
    ensures var r := SetMask(s.c, s.devs[op.k], op.v, op.OpMask?); Step(s, op) == With(s, op.k, r.0, r.1, s.log)
  {}

  lemma HoldKeeps(s: Sys, op: Op)
    requires Inv(s) && (op.OpMask? || op.OpUnmask? || op.OpIntxMask?) && op.k < |s.devs|
    ensures Inv(Step(s, op))
  {
    if op.OpIntxMask? {
      IntxMaskKeeps(s, op.k, op.mask);
    } else {
      MaskStep(s, op);
      MaskKeeps(s, op.k, op.v, op.OpMask?);
    }
  }

  lemma SendKeeps(s: Sys, k: nat, v: nat)
    requires Inv(s) && k < |s.devs|
    ensures Inv(Step(s, OpSend(k, v)))
  {
    if v < s.devs[k].nvec && Messaged(s.devs[k]) && Target(s.devs[k], v).Some? {
      LatchKeeps(s, s.c.latch + {Target(s.devs[k], v).value});
    }
  }

  /** Nothing is called on a device there is none of. */
  lemma NoDevice(s: Sys, op: Op)
    requires Inv(s) && !op.OpInterrupt? && op.k >= |s.devs|
    ensures Step(s, op) == s
  {}

  lemma InterruptKeeps(s: Sys)
    requires Inv(s)
    ensures Inv(Step(s, OpInterrupt))
  {
    LatchKeeps(s, {});
  }

  /** Every call, message and interrupt keeps the invariant. */
  lemma StepKeeps(s: Sys, op: Op)
    requires Inv(s)
    ensures Inv(Step(s, op))
  {
    if op.OpInterrupt? { InterruptKeeps(s); }
    else if op.k >= |s.devs| { NoDevice(s, op); }
    else if op.OpSend? { SendKeeps(s, op.k, op.v); }
    else if op.OpLibAdd? || op.OpLibRem? { LibKeeps(s, op); }
    else if op.OpMask? || op.OpUnmask? || op.OpIntxMask? { HoldKeeps(s, op); }
    else { CallKeeps(s, op); }
  }

  // ---- runs ----

  /** The state probe leaves: empty pool, every slot masked, every device off. */
  ghost predicate Start(s: Sys) {
    && s.c.used == {} && |s.c.servers| == SLOTS && (forall x | 0 <= x < SLOTS :: s.c.servers[x].None?)
    && s.c.masked == AllSlots() && s.c.latch == {} && s.log == map[]
    && forall k | 0 <= k < |s.devs| ::
         var d := s.devs[k];
         && d.mode == Idle && d.nvec == 0 && d.slots == [] && d.intxServer.None?
         && !d.regs.msiEnable && !d.regs.msixEnable
         && (d.caps.maskable ==> d.shadow == d.regs.msiMask)
         && (d.caps.msix ==> d.caps.tableSize > 0 && |d.regs.table| == d.caps.tableSize
                             && forall i | 0 <= i < |d.regs.table| :: d.regs.table[i].masked)
  }

  lemma StartInv(s: Sys)
    requires Start(s)
    ensures Inv(s)
  {}

  ghost function Run(s: Sys, ops: seq<Op>): (r: Sys)
    requires Inv(s)
    ensures Inv(r)
    decreases |ops|
  {
    if ops == [] then s
    else StepKeeps(s, ops[0]); Run(Step(s, ops[0]), ops[1..])
  }

  /** In every reachable state the pool is exactly the disjoint union of what
      the devices hold, and only held slots have servers. */
  lemma PoolIsUnion(s: Sys, ops: seq<Op>)
    requires Start(s)
    ensures Inv(s)
    ensures var r := Run(s, ops);
      && (forall x :: x in r.c.used <==>
            exists k, i :: 0 <= k < |r.devs| && 0 <= i < |r.devs[k].slots| && r.devs[k].slots[i] == x)
      && (forall j, k, a, b | 0 <= j < |r.devs| && 0 <= k < |r.devs|
            && 0 <= a < |r.devs[j].slots| && 0 <= b < |r.devs[k].slots|
            && r.devs[j].slots[a] == r.devs[k].slots[b] :: j == k && a == b)
      && (forall x | 0 <= x < SLOTS && x !in r.c.used :: r.c.servers[x].None?)
  {}
}
