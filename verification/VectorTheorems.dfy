// What the interrupt-vector core promises, over all runs.

module VectorTheorems {
  import opened Words
  import opened SlotPool
  import opened Vectors
  import opened VectorRuns
  import D = Demux

  // ---- messages reach their slots ----

  lemma MsgDataSum(slot: nat)
    requires slot < 32
    ensures MsgData(slot) == 0x6540 + slot
  {
    OrDisjoint(0x32A, slot, 5);
    assert Pow2(5) == 32;
  }

  /** Its high bits, and its low five. */
  lemma DataHigh(w: nat)
    requires 0x6540 <= w < 0x6560
    ensures And(w, DATA_CONFIG / 0x1_0000) == 0x6540
  {
    assert Pow2(5) == 32;
    Pow2Add(8, 8);
    assert Pow2(8) == 256;
    AndHighMask(w, 16, 5, 32);
    DivUnique(w, 32, 0x32a, w - 0x6540);
  }

  lemma DataLow(w: nat)
    requires 0x6540 <= w < 0x6560
    ensures And(w, 0x1f) == w - 0x6540
  {
    assert Pow2(5) == 32;
    AndLowMask(w, 5, 32);
    DivUnique(w, 32, 0x32a, w - 0x6540);
  }

  lemma DecodeSlot(slot: nat)
    requires slot < 32
    ensures Decode(TARGET, 0, 0x6540 + slot) == Some(slot)
  {
    DataHigh(0x6540 + slot);
    DataHigh(0x6540);
    DataLow(0x6540 + slot);
  }

  lemma SmallPowers()
    ensures Pow2(0) == 1 && Pow2(1) == 2 && Pow2(2) == 4 && Pow2(3) == 8 && Pow2(4) == 16 && Pow2(5) == 32
  {}

  lemma OrBlock(q: nat, v: nat, k: nat, n: nat, x: nat)
    requires n == Pow2(k) && v < n && x == q * n
    ensures Or(x, v) == x + v
  {
    OrDisjoint(q, v, k);
  }

  lemma OrAligned(x: nat, n: nat, v: nat)
    requires IsPow2(n) && n <= 32 && v < n && x % n == 0
    ensures Or(x, v) == x + v
  {
    BlockSizes(n);
    SmallPowers();
    if n == 1 { OrBlock(x, v, 0, 1, x); }
    else if n == 2 { OrBlock(x / 2, v, 1, 2, x); }
    else if n == 4 { OrBlock(x / 4, v, 2, 4, x); }
    else if n == 8 { OrBlock(x / 8, v, 3, 8, x); }
    else if n == 16 { OrBlock(x / 16, v, 4, 16, x); }
    else { OrBlock(x / 32, v, 5, 32, x); }
  }

  /** A device that ORs vector v into the message of an aligned block selects
      slot base + v. */
  lemma OrVector(base: nat, n: nat, v: nat)
    requires IsPow2(n) && v < n && base % n == 0 && base + n <= 32
    ensures Or(MsgData(base), v) == 0x6540 + base + v
  {
    MsgDataSum(base);
    assert (0x6540 + base) % n == 0 by { BlockSizes(n); }
    OrAligned(0x6540 + base, n, v);
  }

  /** Every vector's message decodes to the vector's own slot. */
  lemma MessageTarget(c: Ctrl, d: Dev, v: nat)
    requires CtrlOk(c) && DevInv(c, d) && Messaged(d) && v < d.nvec
    ensures Target(d, v) == Some(d.slots[v])
  {
    if d.mode == Msi {
      OrVector(d.slots[0], d.nvec, v);
      DecodeSlot(d.slots[0] + v);
    } else {
      assert d.regs.table[v].(masked := true) == MsixEntry(d.slots[v]);
      MsgDataSum(d.slots[v]);
      DecodeSlot(d.slots[v]);
    }
  }

  /** A vector with a server sends through an open gate to its own slot, and the
      interrupt that follows calls for that slot exactly that server. */
  ghost predicate Delivers(r: Sys, k: nat, v: nat)
    requires Inv(r) && k < |r.devs|
  {
    var d := r.devs[k];
    && v < d.nvec && Messaged(d) && (k, v) in r.log
    && GateOpen(d, v) && Target(d, v) == Some(d.slots[v])
    && (var t := Step(r, OpSend(k, v));
        && CtrlOk(t.c) && d.slots[v] in t.c.latch
        && forall isr :: (d.slots[v], isr) in D.Calls(t.c.latch, t.c.servers, 0) <==> isr == r.log[(k, v)])
  }

  lemma DeliversNow(r: Sys, k: nat, v: nat)
    requires Inv(r) && k < |r.devs| && (k, v) in r.log && Messaged(r.devs[k])
    ensures Delivers(r, k, v)
  {
    var d := r.devs[k];
    assert LogOk(r.log, r.c, k, d);
    assert VecServer(r.c, d, v) == Some(r.log[(k, v)]);
    MessageTarget(r.c, d, v);
    assert Gates(r.c, d);
    var t := Step(r, OpSend(k, v));
    D.CallsExact(t.c.latch, t.c.servers, 0);
  }

  /** End-to-end delivery, in every reachable state. */
  lemma Delivery(s: Sys, ops: seq<Op>, k: nat, v: nat)
    requires Start(s)
    ensures Inv(s)
    ensures var r := Run(s, ops); (k, v) in r.log && k < |r.devs| && Messaged(r.devs[k]) ==> Delivers(r, k, v)
  {
    StartInv(s);
    var r := Run(s, ops);
    if (k, v) in r.log && k < |r.devs| && Messaged(r.devs[k]) { DeliversNow(r, k, v); }
  }

  /** No stray calls.  Whatever is latched, every call the ISR makes is for a slot
      that exactly one device's vector holds, and calls the server added to it. */
  lemma NoStrayCall(s: Sys, ops: seq<Op>, status: set<nat>, x: nat, isr: Server)
    requires Start(s)
    ensures Inv(s)
    ensures var r := Run(s, ops);
      (x, isr) in D.Calls(status, r.c.servers, 0) ==>
        exists k, v :: 0 <= k < |r.devs| && 0 <= v < |r.devs[k].slots| && r.devs[k].slots[v] == x
          && (k, v) in r.log && r.log[(k, v)] == isr
  {
    StartInv(s);
    var r := Run(s, ops);
    if (x, isr) in D.Calls(status, r.c.servers, 0) {
      D.CallsExact(status, r.c.servers, 0);
      assert x in r.c.used;
      assert Owned(r.devs, x);
      var k :| 0 <= k < |r.devs| && x in r.devs[k].slots;
      var d := r.devs[k];
      var v :| 0 <= v < |d.slots| && d.slots[v] == x;
      assert LogOk(r.log, r.c, k, d);
      assert VecServer(r.c, d, v) == Some(isr);
    }
  }

  // ---- root-complex masks ----

  /** A slot is unmasked only while bound. */
  ghost predicate Disciplined(c: Ctrl) {
    forall x | 0 <= x < |c.servers| && x !in c.masked :: c.servers[x].Some?
  }

  /** The call is no unmask of a message vector without a server. */
  ghost predicate Guarded(s: Sys, op: Op)
    requires Inv(s)
  {
    op.OpUnmask? && op.k < |s.devs| && Messaged(s.devs[op.k]) && op.v < s.devs[op.k].nvec ==>
      (op.k, op.v) in s.log
  }

  lemma {:induction false} DetachDiscipline(c: Ctrl, d: Dev, v: nat)
    requires CtrlOk(c) && DevOk(d) && Disciplined(c)
    ensures Disciplined(DetachFrom(c, d, v).0)
    decreases d.nvec - v
  {
    if v < d.nvec {
      var isr := VecServer(c, d, v);
      var x := if isr.Some? then Rem(c, d, v, isr.value) else (c, d);
      DetachDiscipline(x.0, x.1, v + 1);
    }
  }

  lemma AllocDiscipline(c: Ctrl, d: Dev, min: nat, max: nat, flags: nat)
    requires CtrlOk(c) && DevOk(d) && Disciplined(c)
    ensures Disciplined(Alloc(c, d, min, max, flags).0)
  {}

  lemma LibAddDiscipline(c: Ctrl, d: Dev, isr: Server, p: bool, fault: bool)
    requires CtrlOk(c) && DevOk(d) && Disciplined(c)
    ensures Disciplined(LibAdd(c, d, isr, p, fault).0)
  {
    var flags := if p then 3 else 1;
    var a := Alloc(c, d, 1, 1, flags);
    AllocOk(c, d, 1, 1, flags);
    AllocDiscipline(c, d, 1, 1, flags);
    var t := Add(a.0, a.1, 0, isr, fault);
    if t.2 != Ok(0) { DetachDiscipline(t.0, t.1, 0); }
  }

  lemma LibRemDiscipline(c: Ctrl, d: Dev, isr: Server)
    requires CtrlOk(c) && DevOk(d) && Disciplined(c)
    ensures Disciplined(LibRem(c, d, isr).0)
  {
    var r := Rem(c, d, 0, isr);
    DetachDiscipline(r.0, r.1, 0);
  }

  lemma UnmaskDiscipline(s: Sys, k: nat, v: nat)
    requires Inv(s) && Disciplined(s.c) && k < |s.devs|
    ensures Disciplined(SetMask(s.c, s.devs[k], v, false).0) <==> Guarded(s, OpUnmask(k, v))
  {}

  lemma CallDiscipline(s: Sys, op: Op)
    requires Ready(s) && Disciplined(s.c) && !op.OpUnmask?
    ensures Disciplined(Step(s, op).c)
  {
    match op
    case OpAlloc(k, min, max, flags) => if k < |s.devs| { AllocDiscipline(s.c, s.devs[k], min, max, flags); }
    case OpFree(k) => if k < |s.devs| { DetachDiscipline(s.c, s.devs[k], 0); }
    case OpLibRem(k, isr) => if k < |s.devs| { LibRemDiscipline(s.c, s.devs[k], isr); }
    case OpLibAdd(k, isr, p, fault) => if k < |s.devs| { LibAddDiscipline(s.c, s.devs[k], isr, p, fault); }
    case _ =>
  }

  lemma StepDiscipline(s: Sys, op: Op)
    requires Inv(s) && Disciplined(s.c)
    ensures Disciplined(Step(s, op).c) <==> Guarded(s, op)
  {
    if op.OpUnmask? {
      if op.k < |s.devs| { UnmaskDiscipline(s, op.k, op.v); }
    } else {
      CallDiscipline(s, op);
    }
  }

  ghost predicate AllGuarded(s: Sys, ops: seq<Op>)
    requires Inv(s)
    decreases |ops|
  {
    ops == [] || (Guarded(s, ops[0]) && (StepKeeps(s, ops[0]); AllGuarded(Step(s, ops[0]), ops[1..])))
  }

  ghost predicate AlwaysDisciplined(s: Sys, ops: seq<Op>)
    requires Inv(s)
    decreases |ops|
  {
    && Disciplined(s.c)
    && (ops == [] || (StepKeeps(s, ops[0]); AlwaysDisciplined(Step(s, ops[0]), ops[1..])))
  }

  lemma {:induction false} DisciplineExact(s: Sys, ops: seq<Op>)
    requires Inv(s) && Disciplined(s.c)
    ensures AlwaysDisciplined(s, ops) <==> AllGuarded(s, ops)
    decreases |ops|
  {
    if ops != [] {
      StepDiscipline(s, ops[0]);
      StepKeeps(s, ops[0]);
      if Guarded(s, ops[0]) { DisciplineExact(Step(s, ops[0]), ops[1..]); }
    }
  }

  /** Root-complex mask discipline, exactly: starting from probe, slots are
      unmasked only while bound throughout a run if and only if no call of the run
      unmasks a message vector that has no server. */
  lemma MaskDiscipline(s: Sys, ops: seq<Op>)
    requires Start(s)
    ensures Inv(s)
    ensures AlwaysDisciplined(s, ops) <==> AllGuarded(s, ops)
  {
    StartInv(s);
    assert Disciplined(s.c) by {
      forall x | 0 <= x < SLOTS ensures x in s.c.masked { assert BlockHas(0, SLOTS, x); }
    }
    DisciplineExact(s, ops);
  }

  /** Without the guard it fails: allocate, unmask, free leaves a free slot open. */
  lemma UnguardedUnmask(c: Ctrl, d: Dev)
    requires CtrlOk(c) && DevOk(d) && c.used == {} && (forall x | 0 <= x < SLOTS :: c.servers[x].None?)
    requires d.mode == Idle && d.caps.msix
    ensures var a := Alloc(c, d, 1, 1, 4); CtrlOk(a.0) && DevOk(a.1)
    ensures var a := Alloc(c, d, 1, 1, 4);
      var u := SetMask(a.0, a.1, 0, false);
      var f := Free(u.0, u.1);
      f.0.used == {} && 0 !in f.0.masked && f.0.servers[0].None? && !Disciplined(f.0)
  {
    assert FirstFree({}, 0, 1) == [0] by { assert FirstFree({}, 1, 0) == []; }
    assert Bit(4, 2) by { assert Bit(4, 2) == Bit(2, 1); assert Bit(2, 1) == Bit(1, 0); }
    var a := Alloc(c, d, 1, 1, 4);
    AllocOk(c, d, 1, 1, 4);
    assert a.1.slots == [0] && a.1.mode == Msix;
    var u := SetMask(a.0, a.1, 0, false);
    assert DetachFrom(u.0, u.1, 1) == (u.0, u.1);
    assert DetachFrom(u.0, u.1, 0) == (u.0, u.1);
    assert u.0.used == {0} && Elems([0]) == {0};
  }

  // ---- the INTx line of message devices ----

  /** No device in a message mode may assert its INTx line. */
  ghost predicate IntxQuiet(s: Sys) {
    forall k | 0 <= k < |s.devs| && Messaged(s.devs[k]) :: s.devs[k].regs.intxOff
  }

  /** The call is no LibCheckSetINTxMask(FALSE) on a device in a message mode. */
  ghost predicate LineGuarded(s: Sys, op: Op) {
    op.OpIntxMask? && op.k < |s.devs| && Messaged(s.devs[op.k]) ==> op.mask
  }

  ghost predicate Quiet(d: Dev) { Messaged(d) ==> d.regs.intxOff }

  lemma {:induction false} DetachQuiet(c: Ctrl, d: Dev, v: nat)
    requires CtrlOk(c) && DevOk(d) && Quiet(d)
    ensures Quiet(DetachFrom(c, d, v).1)
    decreases d.nvec - v
  {
    if v < d.nvec {
      var isr := VecServer(c, d, v);
      var x := if isr.Some? then Rem(c, d, v, isr.value) else (c, d);
      DetachQuiet(x.0, x.1, v + 1);
    }
  }

  lemma AllocQuiet(c: Ctrl, d: Dev, min: nat, max: nat, flags: nat)
    requires CtrlOk(c) && DevOk(d) && Quiet(d)
    ensures Quiet(Alloc(c, d, min, max, flags).1)
  {}

  lemma LibAddQuiet(c: Ctrl, d: Dev, isr: Server, p: bool, fault: bool)
    requires CtrlOk(c) && DevOk(d) && Quiet(d)
    ensures Quiet(LibAdd(c, d, isr, p, fault).1)
  {
    var flags := if p then 3 else 1;
    AllocOk(c, d, 1, 1, flags);
    AllocQuiet(c, d, 1, 1, flags);
  }

  lemma DeviceQuiet(s: Sys, op: Op, k: nat)
    requires Inv(s) && k < |s.devs| && Quiet(s.devs[k]) && (op.OpIntxMask? ==> LineGuarded(s, op))
    ensures |Step(s, op).devs| == |s.devs| && Quiet(Step(s, op).devs[k])
  {
    if Touches(op, k) {
      match op
      case OpAlloc(_, min, max, flags) => AllocQuiet(s.c, s.devs[k], min, max, flags);
      case OpLibAdd(_, isr, p, fault) => LibAddQuiet(s.c, s.devs[k], isr, p, fault);
      case _ => CallQuiet(s, op, k);
    } else {
      StepFrame(s, op, k);
    }
  }

  lemma CallQuiet(s: Sys, op: Op, k: nat)
    requires Inv(s) && k < |s.devs| && Quiet(s.devs[k]) && (op.OpIntxMask? ==> LineGuarded(s, op))
    requires Touches(op, k) && !op.OpAlloc? && !op.OpLibAdd?
    ensures |Step(s, op).devs| == |s.devs| && Quiet(Step(s, op).devs[k])
  {}

  lemma StepQuiet(s: Sys, op: Op)
    requires Inv(s) && IntxQuiet(s)
    ensures IntxQuiet(Step(s, op)) <==> LineGuarded(s, op)
  {
    if LineGuarded(s, op) {
      forall k | 0 <= k < |Step(s, op).devs| && Messaged(Step(s, op).devs[k]) ensures Step(s, op).devs[k].regs.intxOff {
        assert Quiet(s.devs[k]);
        DeviceQuiet(s, op, k);
      }
    } else {
      assert !Quiet(Step(s, op).devs[op.k]);
    }
  }

  ghost predicate AllLineGuarded(s: Sys, ops: seq<Op>)
    requires Inv(s)
    decreases |ops|
  {
    ops == [] || (LineGuarded(s, ops[0]) && (StepKeeps(s, ops[0]); AllLineGuarded(Step(s, ops[0]), ops[1..])))
  }

  ghost predicate AlwaysQuiet(s: Sys, ops: seq<Op>)
    requires Inv(s)
    decreases |ops|
  {
    && IntxQuiet(s)
    && (ops == [] || (StepKeeps(s, ops[0]); AlwaysQuiet(Step(s, ops[0]), ops[1..])))
  }

  lemma {:induction false} QuietExact(s: Sys, ops: seq<Op>)
    requires Inv(s) && IntxQuiet(s)
    ensures AlwaysQuiet(s, ops) <==> AllLineGuarded(s, ops)
    decreases |ops|
  {
    if ops != [] {
      StepQuiet(s, ops[0]);
      StepKeeps(s, ops[0]);
      if LineGuarded(s, ops[0]) { QuietExact(Step(s, ops[0]), ops[1..]); }
    }
  }

  /** The INTx line, exactly: from probe on, no device in a message mode may assert
      its line throughout a run if and only if the run never unmasks the line of one
      with LibCheckSetINTxMask. */
  lemma IntxDiscipline(s: Sys, ops: seq<Op>)
    requires Start(s)
    ensures Inv(s)
    ensures AlwaysQuiet(s, ops) <==> AllLineGuarded(s, ops)
  {
    StartInv(s);
    QuietExact(s, ops);
  }

  /** Over any run at most one device has a server on a gic400 line, the line holds
      that server, and taking it off frees that line alone. */
  lemma OneServerPerLine(s: Sys, ops: seq<Op>, j: nat, k: nat)
    requires Start(s)
    ensures Inv(s)
    ensures var r := Run(s, ops);
      j < |r.devs| && k < |r.devs| && r.devs[j].intxServer.Some? ==>
        var d, e := r.devs[j], r.devs[k];
        && d.caps.gicIrq in r.c.gic && r.c.gic[d.caps.gicIrq] == d.intxServer.value
        && (e.intxServer.Some? && e.caps.gicIrq == d.caps.gicIrq ==> j == k)
        && (e.caps.gicIrq == d.caps.gicIrq && (k, 0) !in r.log && e.mode == Intx ==>
              forall isr, fault :: Add(r.c, e, 0, isr, fault).2 == Err(EBUSY))
        && var g := Rem(r.c, d, 0, d.intxServer.value).0.gic;
           d.caps.gicIrq !in g
           && forall q | q != d.caps.gicIrq :: (q in g <==> q in r.c.gic) && (q in g ==> g[q] == r.c.gic[q])
  {
    StartInv(s);
    var r := Run(s, ops);
    if j < |r.devs| && k < |r.devs| && r.devs[j].intxServer.Some? {
      assert IntxOk(r.c, r.devs[j]);
      assert LogOk(r.log, r.c, k, r.devs[k]);
    }
  }

  // ---- allocation ----

  ghost predicate CanMsix(c: Ctrl, d: Dev, lo: nat, hi: nat, flags: nat) {
    Bit(flags, MSIX_BIT) && d.caps.msix && lo <= Min(Min(hi, d.caps.tableSize), FreeCount(c.used))
  }

  /** 2^k vectors fit the device, the range and the pool. */
  ghost predicate MsiFits(c: Ctrl, d: Dev, lo: nat, hi: nat, k: nat) {
    && k <= d.caps.log2Max && 0 < Pow2(k) && lo <= Pow2(k) <= hi
    && exists b: nat :: FreeBlock(c.used, Pow2(k), b)
  }

  /** ... and no larger power of two does. */
  ghost predicate MsiBest(c: Ctrl, d: Dev, lo: nat, hi: nat, k: nat) {
    MsiFits(c, d, lo, hi, k) && forall j: nat | MsiFits(c, d, lo, hi, j) :: j <= k
  }

  ghost predicate CanMsi(c: Ctrl, d: Dev, lo: nat, hi: nat, flags: nat) {
    Bit(flags, MSI_BIT) && d.caps.msi && exists k: nat :: MsiFits(c, d, lo, hi, k)
  }

  ghost predicate CanIntx(d: Dev, lo: nat, flags: nat) {
    Bit(flags, INTX_BIT) && lo == 1 && d.caps.gicIrq != 0
  }

  /** Why the last type tried cannot serve the request. */
  ghost function LastFailure(d: Dev, lo: nat, flags: nat): Errno {
    if Bit(flags, INTX_BIT) then (if lo > 1 then ERANGE else ENODEV)
    else if Bit(flags, MSI_BIT) then (if d.caps.msi then ENOSPC else ENODEV)
    else if Bit(flags, MSIX_BIT) then (if d.caps.msix then ENOSPC else ENODEV)
    else ENODEV
  }

  lemma BestMsix(c: Ctrl, d: Dev, lo: nat, hi: nat)
    requires CtrlOk(c) && DevOk(d) && d.mode == Idle && 1 <= lo <= hi <= SLOTS && d.caps.msix
    ensures var n := Min(Min(hi, d.caps.tableSize), FreeCount(c.used));
      var r := MsixAlloc(c, d, lo, hi);
      if lo <= n then r.2 == Ok(n) && r.1.mode == Msix else r == (c, d, Err(ENOSPC))
  {
    FirstFreeExact(c.used, 0, Min(hi, d.caps.tableSize));
  }

  /** What the device and the range allow. */
  lemma LimitExact(d: Dev, hi: nat, k: nat)
    requires hi <= SLOTS
    ensures Pow2(k) <= MsiLimit(d, hi) <==> k <= d.caps.log2Max && Pow2(k) <= hi
  {
    Pow2Order(k, d.caps.log2Max);
    assert Pow2(5) == 32;
    Pow2Order(k, 5);
  }

  lemma MsiSome(c: Ctrl, d: Dev, lo: nat, hi: nat)
    requires CtrlOk(c) && DevOk(d) && d.mode == Idle && 1 <= lo <= hi <= SLOTS && d.caps.msi
    requires MsiAlloc(c, d, lo, hi).2.Ok?
    ensures var r := MsiAlloc(c, d, lo, hi);
      r.1.mode == Msi && IsPow2(r.2.n) && r.2.n == Pow2(Log2(r.2.n)) && MsiBest(c, d, lo, hi, Log2(r.2.n))
  {
    MsiLimitPositive(d, hi);
    RoundDownPow2Exact(MsiLimit(d, hi));
    var top := RoundDownPow2(MsiLimit(d, hi));
    LargestBlockExact(c.used, top, lo);
    var (n, base) := LargestBlock(c.used, top, lo).value;
    Log2Exact(n);
    LimitExact(d, hi, Log2(n));
    assert FreeBlock(c.used, n, base);
    forall j: nat | MsiFits(c, d, lo, hi, j) ensures j <= Log2(n) {
      LimitExact(d, hi, j);
      Pow2IsPow2(j);
      Pow2Order(j, Log2(n));
      var b: nat :| FreeBlock(c.used, Pow2(j), b);
    }
  }

  lemma MsiNone(c: Ctrl, d: Dev, lo: nat, hi: nat)
    requires CtrlOk(c) && DevOk(d) && d.mode == Idle && 1 <= lo <= hi <= SLOTS && d.caps.msi
    requires MsiAlloc(c, d, lo, hi).2.Err?
    ensures MsiAlloc(c, d, lo, hi) == (c, d, Err(ENOSPC)) && forall k: nat :: !MsiFits(c, d, lo, hi, k)
  {
    MsiLimitPositive(d, hi);
    RoundDownPow2Exact(MsiLimit(d, hi));
    LargestBlockExact(c.used, RoundDownPow2(MsiLimit(d, hi)), lo);
    forall k: nat ensures !MsiFits(c, d, lo, hi, k) {
      LimitExact(d, hi, k);
      Pow2IsPow2(k);
    }
  }

  /** MSI is granted if and only if some power of two within the range and the
      device's Multiple Message Capable count has a free aligned block, and then the
      largest such. */
  lemma BestMsi(c: Ctrl, d: Dev, lo: nat, hi: nat)
    requires CtrlOk(c) && DevOk(d) && d.mode == Idle && 1 <= lo <= hi <= SLOTS && d.caps.msi
    ensures var r := MsiAlloc(c, d, lo, hi);
      && (r.2.Ok? <==> exists k: nat :: MsiFits(c, d, lo, hi, k))
      && (r.2.Ok? ==> r.1.mode == Msi && exists k: nat :: MsiBest(c, d, lo, hi, k) && r.2.n == Pow2(k))
      && (r.2.Err? ==> r == (c, d, Err(ENOSPC)))
  {
    if MsiAlloc(c, d, lo, hi).2.Ok? { MsiSome(c, d, lo, hi); } else { MsiNone(c, d, lo, hi); }
  }

  /** Best allocation: the first allowed type of MSI-X, MSI, INTx that can meet the
      minimum is chosen and given as much as it can use; otherwise nothing moves
      and the reason is the last type's. */
  lemma BestAlloc(c: Ctrl, d: Dev, min: nat, max: nat, flags: nat)
    requires CtrlOk(c) && DevOk(d) && d.mode == Idle && Max(min, 1) <= Min(max, SLOTS)
    ensures var lo, hi := Max(min, 1), Min(max, SLOTS);
      var r := Alloc(c, d, min, max, flags);
      if CanMsix(c, d, lo, hi, flags) then
        r.1.mode == Msix && r.2 == Ok(Min(Min(hi, d.caps.tableSize), FreeCount(c.used)))
      else if CanMsi(c, d, lo, hi, flags) then
        r.1.mode == Msi && r.2.Ok? && exists k: nat :: MsiBest(c, d, lo, hi, k) && r.2.n == Pow2(k)
      else if CanIntx(d, lo, flags) then
        r.0 == c && r.1.mode == Intx && r.2 == Ok(1)
      else
        r == (c, d, Err(LastFailure(d, lo, flags)))
  {
    var lo, hi := Max(min, 1), Min(max, SLOTS);
    if d.caps.msix { BestMsix(c, d, lo, hi); }
    if d.caps.msi { BestMsi(c, d, lo, hi); }
  }

  /** Refusals: a device that has vectors, and an empty range. */
  lemma AllocRefused(c: Ctrl, d: Dev, min: nat, max: nat, flags: nat)
    requires CtrlOk(c) && DevOk(d)
    ensures var r := Alloc(c, d, min, max, flags);
      && (d.mode != Idle ==> r == (c, d, Err(EBUSY)))
      && (r.2.Err? ==> r.0 == c && r.1 == d)
      && (r.2 == Err(EBUSY) ==> d.mode != Idle)
      && (d.mode == Idle && (min > max || min > 32 || max == 0) ==> r.2 == Err(ERANGE))
  {}

  // ---- what an allocation leaves ----

  /** The slots were free, are distinct and in ascending order, and alone have been
      taken; nothing else at the root complex has moved. */
  ghost predicate SlotsTaken(c: Ctrl, e: Ctrl, slots: seq<nat>) {
    && e == c.(used := e.used) && Ascending(slots)
    && (forall i | 0 <= i < |slots| :: slots[i] < SLOTS && slots[i] !in c.used)
    && forall x: nat :: x in e.used <==> x in c.used || x in slots
  }

  /** MSI-X on with n vectors, INTx off: entry i carries the message of slots[i], masked,
      the other entries and registers are as they were. */
  ghost predicate MsixTaken(d: Dev, e: Dev, n: nat) {
    && e.(mode := d.mode, nvec := d.nvec, slots := d.slots, regs := d.regs) == d
    && e.mode == Msix && e.nvec == |e.slots| == n
    && e.regs.msixEnable && !e.regs.maskAll && e.regs.intxOff
    && e.regs.(msixEnable := d.regs.msixEnable, maskAll := d.regs.maskAll, intxOff := d.regs.intxOff,
               table := d.regs.table) == d.regs
    && n <= |e.regs.table| == |d.regs.table|
    && forall i | 0 <= i < |d.regs.table| ::
         e.regs.table[i] == if i < n then Entry(0xffff_fffc, 0, 0x6540 + e.slots[i], true) else d.regs.table[i]
  }

  /** MSI on with n = 2^mme vectors on an aligned run of slots, INTx off, the message of
      the first slot written, every vector the device is capable of masked where it has
      mask bits; the other registers are as they were. */
  ghost predicate MsiTaken(d: Dev, e: Dev, n: nat) {
    && e.(mode := d.mode, nvec := d.nvec, slots := d.slots, shadow := d.shadow, regs := d.regs) == d
    && e.mode == Msi && e.nvec == |e.slots| == n > 0 && e.slots[0] % n == 0
    && (forall i | 0 <= i < n :: e.slots[i] == e.slots[0] + i)
    && e.regs.msiEnable && e.regs.intxOff && Pow2(e.regs.mme) == n
    && e.regs.addrLo == 0xffff_fffc && e.regs.data == 0x6540 + e.slots[0]
    && e.regs.addrHi == (if d.caps.addr64 then 0 else d.regs.addrHi)
    && e.regs.(msiEnable := d.regs.msiEnable, intxOff := d.regs.intxOff, mme := d.regs.mme, addrLo := d.regs.addrLo,
               data := d.regs.data, addrHi := d.regs.addrHi, msiMask := d.regs.msiMask) == d.regs
    && forall x: nat :: x in e.regs.msiMask <==>
         x in d.regs.msiMask || (d.caps.maskable && x < 32 && x < Pow2(d.caps.log2Max))
  }

  lemma MsixLeaves(c: Ctrl, d: Dev, lo: nat, hi: nat)
    requires CtrlOk(c) && DevOk(d) && 1 <= lo <= hi <= SLOTS && MsixAlloc(c, d, lo, hi).2.Ok?
    ensures var r := MsixAlloc(c, d, lo, hi); SlotsTaken(c, r.0, r.1.slots) && MsixTaken(d, r.1, r.2.n)
  {
    var n := Min(hi, d.caps.tableSize);
    FirstFreeExact(c.used, 0, n);
    var q := FirstFree(c.used, 0, n);
    forall i | 0 <= i < |q| ensures q[i] < SLOTS && q[i] !in c.used && MsgData(q[i]) == 0x6540 + q[i] {
      assert q[i] in FreeAbove(c.used, 0);
      MsgDataSum(q[i]);
    }
  }

  lemma MsiBlock(c: Ctrl, d: Dev, lo: nat, hi: nat)
    requires CtrlOk(c) && DevOk(d) && 1 <= lo <= hi <= SLOTS && MsiAlloc(c, d, lo, hi).2.Ok?
    ensures var r := MsiAlloc(c, d, lo, hi);
      && IsPow2(r.2.n) && r.1.slots == BlockSeq(r.1.slots[0], r.2.n) && FreeBlock(c.used, r.2.n, r.1.slots[0])
      && r == (c.(used := c.used + Block(r.1.slots[0], r.2.n)), MsiConfigured(d, r.2.n, r.1.slots[0]), Ok(r.2.n))
  {
    MsiLimitPositive(d, hi);
    RoundDownPow2Exact(MsiLimit(d, hi));
    LargestBlockExact(c.used, RoundDownPow2(MsiLimit(d, hi)), lo);
  }

  lemma BlockTaken(c: Ctrl, n: nat, b: nat)
    requires n > 0 && FreeBlock(c.used, n, b)
    ensures SlotsTaken(c, c.(used := c.used + Block(b, n)), BlockSeq(b, n))
  {
    BlockElems(b, n);
    var q := BlockSeq(b, n);
    forall x: nat ensures x in Block(b, n) <==> x in q { assert x in Elems(q) <==> x in q; }
    forall i | 0 <= i < n ensures q[i] !in c.used { assert q[i] in Block(b, n); }
  }

  lemma MsiConfiguredTaken(d: Dev, n: nat, b: nat)
    requires DevOk(d) && IsPow2(n) && n <= SLOTS && b % n == 0 && b + n <= SLOTS
    requires d.caps.maskable ==> d.shadow == d.regs.msiMask
    ensures MsiTaken(d, MsiConfigured(d, n, b), n)
  {
    Log2Exact(n);
    MsgDataSum(b);
    forall x: nat { MultiExact(d.caps.log2Max, x); }
  }

  lemma MsiLeaves(c: Ctrl, d: Dev, lo: nat, hi: nat)
    requires CtrlOk(c) && DevOk(d) && 1 <= lo <= hi <= SLOTS && MsiAlloc(c, d, lo, hi).2.Ok?
    requires d.caps.maskable ==> d.shadow == d.regs.msiMask
    ensures var r := MsiAlloc(c, d, lo, hi); SlotsTaken(c, r.0, r.1.slots) && MsiTaken(d, r.1, r.2.n)
  {
    MsiBlock(c, d, lo, hi);
    var r := MsiAlloc(c, d, lo, hi);
    BlockTaken(c, r.2.n, r.1.slots[0]);
    MsiConfiguredTaken(d, r.2.n, r.1.slots[0]);
  }

  /** A successful allocation is that of one of the three types. */
  lemma AllocIs(c: Ctrl, d: Dev, min: nat, max: nat, flags: nat)
    requires CtrlOk(c) && DevOk(d) && Alloc(c, d, min, max, flags).2.Ok?
    ensures var lo, hi, r := Max(min, 1), Min(max, SLOTS), Alloc(c, d, min, max, flags);
      && 1 <= lo <= hi <= SLOTS
      && (r == MsixAlloc(c, d, lo, hi) || r == MsiAlloc(c, d, lo, hi) || r == IntxAlloc(c, d, lo))
  {}

  /** An allocation, exactly: what it takes at the root complex and what it makes of the
      device's registers, by the mode it ends in; nothing at all when it fails. */
  lemma AllocExact(s: Sys, k: nat, min: nat, max: nat, flags: nat)
    requires Inv(s) && k < |s.devs|
    ensures var d := s.devs[k];
      var r := Alloc(s.c, d, min, max, flags);
      match r.2
      case Err(_) => r.0 == s.c && r.1 == d
      case Ok(n) =>
        match r.1.mode
        case Msix => SlotsTaken(s.c, r.0, r.1.slots) && MsixTaken(d, r.1, n)
        case Msi => SlotsTaken(s.c, r.0, r.1.slots) && MsiTaken(d, r.1, n)
        case Intx => n == 1 && r.0 == s.c && r.1 == d.(mode := Intx, nvec := 1)
        case Idle => false
  {
    var d := s.devs[k];
    var lo, hi := Max(min, 1), Min(max, SLOTS);
    assert DevInv(s.c, d);
    var r := Alloc(s.c, d, min, max, flags);
    if r.2.Ok? {
      AllocIs(s.c, d, min, max, flags);
      if r == MsixAlloc(s.c, d, lo, hi) { MsixLeaves(s.c, d, lo, hi); }
      else if r == MsiAlloc(s.c, d, lo, hi) { MsiLeaves(s.c, d, lo, hi); }
      else { IntxLeaves(s.c, d, lo, r); }
    } else {
      AllocRefused(s.c, d, min, max, flags);
    }
  }

  lemma IntxLeaves(c: Ctrl, d: Dev, lo: nat, r: (Ctrl, Dev, Ret))
    requires DevOk(d) && r == IntxAlloc(c, d, lo) && r.2.Ok? && d.slots == []
    ensures r.2 == Ok(1) && r.0 == c && r.1 == d.(mode := Intx, nvec := 1)
  {}

  // ---- rollback and teardown ----

  ghost predicate Touches(op: Op, k: nat) {
    !op.OpSend? && !op.OpInterrupt? && op.k == k
  }

  lemma StepFrame(s: Sys, op: Op, k: nat)
    requires Inv(s) && !Touches(op, k) && k < |s.devs|
    ensures |Step(s, op).devs| == |s.devs| && Step(s, op).devs[k] == s.devs[k]
  {}

  lemma {:induction false} RunFrame(s: Sys, ops: seq<Op>, k: nat)
    requires Inv(s) && k < |s.devs| && forall i | 0 <= i < |ops| :: !Touches(ops[i], k)
    ensures k < |Run(s, ops).devs| && Run(s, ops).devs[k] == s.devs[k]
    decreases |ops|
  {
    if ops != [] {
      StepFrame(s, ops[0], k);
      StepKeeps(s, ops[0]);
      RunFrame(Step(s, ops[0]), ops[1..], k);
    }
  }

  lemma AllocTakes(c: Ctrl, d: Dev, min: nat, max: nat, flags: nat)
    requires CtrlOk(c) && DevOk(d) && Alloc(c, d, min, max, flags).2.Ok?
    ensures var r := Alloc(c, d, min, max, flags);
      r.0.used == c.used + Elems(r.1.slots) && Elems(r.1.slots) !! c.used
  {
    var lo, hi := Max(min, 1), Min(max, SLOTS);
    var r := Alloc(c, d, min, max, flags);
    FirstFreeExact(c.used, 0, Min(hi, d.caps.tableSize));
    MsiLimitPositive(d, hi);
    RoundDownPow2Exact(MsiLimit(d, hi));
    LargestBlockExact(c.used, RoundDownPow2(MsiLimit(d, hi)), lo);
    if r.1.mode == Msi { BlockElems(r.1.slots[0], r.1.nvec); assert r.1.slots == BlockSeq(r.1.slots[0], r.1.nvec); }
  }

  lemma AllocTook(s: Sys, k: nat, min: nat, max: nat, flags: nat)
    requires Inv(s) && k < |s.devs| && Alloc(s.c, s.devs[k], min, max, flags).2.Ok?
    ensures var a := Step(s, OpAlloc(k, min, max, flags));
      |a.devs| == |s.devs| && a.c.used - s.c.used == Elems(a.devs[k].slots)
  {
    AllocTakes(s.c, s.devs[k], min, max, flags);
  }

  /** A free takes the device's slots, all of them in the pool, out of it. */
  lemma FreeGives(b: Sys, k: nat)
    requires Inv(b) && k < |b.devs|
    ensures var f := Step(b, OpFree(k));
      && Elems(b.devs[k].slots) <= b.c.used && f.c.used == b.c.used - Elems(b.devs[k].slots)
      && k < |f.devs| && f.devs[k].mode == Idle && f.devs[k].nvec == 0
  {
    var d := b.devs[k];
    assert DevInv(b.c, d);
    forall x | x in Elems(d.slots) ensures x in b.c.used {
      var i :| 0 <= i < |d.slots| && d.slots[i] == x;
    }
  }

  /** Alloc then free gives back precisely the bits taken, whatever other devices
      did in between, and leaves the device idle. */
  lemma AllocFree(s: Sys, k: nat, min: nat, max: nat, flags: nat, ops: seq<Op>)
    requires Inv(s) && k < |s.devs| && Alloc(s.c, s.devs[k], min, max, flags).2.Ok?
    requires forall i | 0 <= i < |ops| :: !Touches(ops[i], k)
    ensures Inv(Step(s, OpAlloc(k, min, max, flags)))
    ensures var a := Step(s, OpAlloc(k, min, max, flags));
      var b := Run(a, ops);
      var f := Step(b, OpFree(k));
      && a.c.used - s.c.used <= b.c.used
      && f.c.used == b.c.used - (a.c.used - s.c.used)
      && k < |f.devs| && f.devs[k].mode == Idle && f.devs[k].nvec == 0
  {
    var op := OpAlloc(k, min, max, flags);
    StepKeeps(s, op);
    var a := Step(s, op);
    AllocTook(s, k, min, max, flags);
    RunFrame(a, ops, k);
    FreeGives(Run(a, ops), k);
  }

  // ---- what teardown leaves at the device and on gic400 ----

  /** Every line but the device's is as it was, and so is that one if the device had no
      server there; otherwise it has none left. */
  ghost predicate LineFreed(d: Dev, g0: map<nat, Server>, g: map<nat, Server>) {
    forall q: nat ::
      if q == d.caps.gicIrq && d.intxServer.Some? then q !in g
      else (q in g <==> q in g0) && (q in g0 ==> q in g && g[q] == g0[q])
  }

  /** Vector by vector the loop only closes gates: registers and table entries keep
      their contents, the mask bits of vectors below `upTo` may be set. */
  ghost predicate OnlyCloses(d: Dev, e: Dev) {
    && e.caps == d.caps && e.mode == d.mode && e.nvec == d.nvec && e.slots == d.slots
    && |e.regs.table| == |d.regs.table|
    && (forall i | 0 <= i < |d.regs.table| :: e.regs.table[i].(masked := true) == d.regs.table[i].(masked := true))
    && e.regs.(intxOff := d.regs.intxOff, table := d.regs.table, msiMask := d.regs.msiMask) == d.regs
    && (forall x | x in d.regs.msiMask :: x in e.regs.msiMask)
    && (forall x | x in e.regs.msiMask :: x in d.regs.msiMask || x < d.nvec)
    && (d.mode != Msi || !d.caps.maskable ==> e.regs.msiMask == d.regs.msiMask)
  }

  lemma TurnFrees(c: Ctrl, d: Dev, v: nat)
    requires CtrlOk(c) && DevOk(d) && IntxOk(c, d) && v < d.nvec && (d.caps.maskable ==> d.shadow == d.regs.msiMask)
    ensures var x := DetachTurn(c, d, v);
      && LineFreed(d, c.gic, x.0.gic) && IntxOk(x.0, x.1) && OnlyCloses(d, x.1) && x.1.intxServer.None?
      && (x.1.regs.intxOff <==> d.regs.intxOff || d.intxServer.Some?)
      && (d.caps.maskable ==> x.1.shadow == x.1.regs.msiMask)
  {}

  lemma {:induction false} DetachFrees(c: Ctrl, d: Dev, v: nat)
    requires CtrlOk(c) && DevOk(d) && IntxOk(c, d) && (d.caps.maskable ==> d.shadow == d.regs.msiMask)
    requires v == 0 || d.intxServer.None?
    ensures var r := DetachFrom(c, d, v);
      && LineFreed(d, c.gic, r.0.gic) && OnlyCloses(d, r.1) && r.1.intxServer.None?
      && (r.1.regs.intxOff <==> d.regs.intxOff || d.intxServer.Some?)
      && (d.caps.maskable ==> r.1.shadow == r.1.regs.msiMask)
    decreases d.nvec - v
  {
    if v < d.nvec {
      var x := DetachTurn(c, d, v);
      TurnFrees(c, d, v);
      DetachFrees(x.0, x.1, v + 1);
    }
  }

  /** At the root complex: of the device's slots those that had a server lose it and are
      masked; nothing else moves. */
  ghost predicate RootFreed(slots: seq<nat>, c: Ctrl, e: Ctrl) {
    && |e.servers| == |c.servers| && e.latch == c.latch
    && (forall x | 0 <= x < |c.servers| :: e.servers[x] == if x in slots then None else c.servers[x])
    && (forall x: nat :: x in e.masked <==>
          x in c.masked || (x < |c.servers| && x in slots && c.servers[x].Some?))
  }

  lemma TurnRoot(c: Ctrl, d: Dev, v: nat)
    requires CtrlOk(c) && DevOk(d) && v < d.nvec
    ensures RootFreed(if Messaged(d) then [d.slots[v]] else [], c, DetachTurn(c, d, v).0)
  {}

  lemma RootThen(a: seq<nat>, b: seq<nat>, c: Ctrl, x: Ctrl, e: Ctrl)
    requires RootFreed(a, c, x) && RootFreed(b, x, e)
    ensures RootFreed(a + b, c, e)
  {}

  /** The slots of the vectors from v on. */
  ghost function SlotsFrom(d: Dev, v: nat): seq<nat>
    requires DevOk(d) && v <= d.nvec
  {
    if Messaged(d) then d.slots[v..] else []
  }

  lemma {:induction false} DetachRoot(c: Ctrl, d: Dev, v: nat)
    requires CtrlOk(c) && DevOk(d) && v <= d.nvec
    ensures RootFreed(SlotsFrom(d, v), c, DetachFrom(c, d, v).0)
    decreases d.nvec - v
  {
    if v < d.nvec {
      var x := DetachTurn(c, d, v);
      TurnRoot(c, d, v);
      DetachRoot(x.0, x.1, v + 1);
      RootThen(if Messaged(d) then [d.slots[v]] else [], SlotsFrom(d, v + 1), c, x.0, DetachFrom(c, d, v).0);
      assert SlotsFrom(d, v) == (if Messaged(d) then [d.slots[v]] else []) + SlotsFrom(d, v + 1);
    }
  }

  /** The mask bits of the vectors the device is capable of. */
  lemma MultiExact(log2Max: nat, x: nat)
    ensures x in MultiMask(log2Max) <==> x < 32 && x < Pow2(log2Max)
  {
    assert Pow2(5) == 32;
    Pow2Order(5, log2Max);
    if log2Max >= 5 { assert BlockHas(0, 32, x) <==> x < 32; }
    else { assert BlockHas(0, Pow2(log2Max), x) <==> x < Pow2(log2Max); Pow2Monotone(log2Max, 5); }
  }

  /** An idle device with everything a vector needed switched off, its registers
      otherwise as they were: MSI mask bits of the vectors it is capable of cleared if
      it was in MSI mode, every table entry masked, INTx off if it had a server. */
  ghost predicate Freed(d: Dev, e: Dev) {
    && e.caps == d.caps && e.mode == Idle && e.nvec == 0 && e.slots == [] && e.intxServer.None?
    && !e.regs.msiEnable && !e.regs.msixEnable
    && (e.regs.maskAll <==> d.regs.maskAll || d.mode == Msix)
    && (e.regs.intxOff <==> d.regs.intxOff || d.intxServer.Some?)
    && e.regs.mme == d.regs.mme && e.regs.addrLo == d.regs.addrLo && e.regs.addrHi == d.regs.addrHi
    && e.regs.data == d.regs.data && |e.regs.table| == |d.regs.table|
    && (d.caps.msix ==>
          forall i | 0 <= i < |d.regs.table| :: e.regs.table[i] == d.regs.table[i].(masked := true))
    && forall x: nat :: x in e.regs.msiMask <==>
         x in d.regs.msiMask && !(d.mode == Msi && d.caps.maskable && x < 32 && x < Pow2(d.caps.log2Max))
  }

  lemma ReleaseFrees(c: Ctrl, d: Dev, e: Dev)
    requires CtrlOk(c) && DevInv(c, d) && DevOk(e) && OnlyCloses(d, e) && e.intxServer.None?
    requires e.regs.intxOff <==> d.regs.intxOff || d.intxServer.Some?
    requires d.caps.maskable ==> e.shadow == e.regs.msiMask
    requires d.caps.msix ==> forall i | 0 <= i < |e.regs.table| :: e.regs.table[i].masked
    ensures Freed(d, TurnedOff(e))
  {
    forall x: nat ensures x in TurnedOff(e).regs.msiMask <==>
      x in d.regs.msiMask && !(d.mode == Msi && d.caps.maskable && x < 32 && x < Pow2(d.caps.log2Max))
    {
      MultiExact(d.caps.log2Max, x);
      if d.mode == Msi && x < d.nvec { InMultiMaskAll(d, x); }
    }
  }

  lemma InMultiMaskAll(d: Dev, x: nat)
    requires MsiProgrammed(d) && x < d.nvec
    ensures x < 32 && x < Pow2(d.caps.log2Max)
  {
    InMultiMask(d, SLOTS, x);
    MultiExact(d.caps.log2Max, x);
  }

  /** After free, both message types are off; every MSI-X entry is masked, and no
      mask bit of an MSI vector the device has is left set. */
  lemma FreeGates(s: Sys, k: nat)
    requires Inv(s) && k < |s.devs|
    ensures var d := s.devs[k];
      var e := Free(s.c, d).1;
      && !e.regs.msiEnable && !e.regs.msixEnable && e.intxServer.None?
      && (d.caps.msix ==>
            && |e.regs.table| == d.caps.tableSize
            && forall i | 0 <= i < |e.regs.table| :: e.regs.table[i].masked)
      && (d.mode == Msi && d.caps.maskable ==> e.regs.msiMask !! MultiMask(d.caps.log2Max))
  {
    FreeLocal(s.c, s.devs[k], s.log, k);
  }

  lemma FreeExact(s: Sys, k: nat)
    requires Inv(s) && k < |s.devs|
    ensures var d, r := s.devs[k], Free(s.c, s.devs[k]);
      && Freed(d, r.1) && LineFreed(d, s.c.gic, r.0.gic) && RootFreed(d.slots, s.c, r.0)
      && r.0.used == s.c.used - Elems(d.slots)
  {
    var d := s.devs[k];
    assert DevInv(s.c, d);
    DetachFrees(s.c, d, 0);
    FreeGates(s, k);
    ReleaseFrees(s.c, d, DetachFrom(s.c, d, 0).1);
    DetachRoot(s.c, d, 0);
    assert SlotsFrom(d, 0) == d.slots;
  }

  /** Detaching the first server beforehand, or naming another one, makes no
      difference to what is freed. */
  lemma LibRemIsFree(c: Ctrl, d: Dev, isr: Server)
    requires CtrlOk(c) && DevOk(d)
    ensures LibRem(c, d, isr) == Free(c, d)
  {
    if d.nvec > 0 && VecServer(c, d, 0) == Some(isr) {
      var x := DetachTurn(c, d, 0);
      assert Rem(c, d, 0, isr) == x;
      assert DetachTurn(x.0, x.1, 0) == x;
      assert DetachFrom(x.0, x.1, 0) == DetachFrom(x.0, x.1, 1);
    }
  }

  /** Over any run: a device that is freed, or whose LibRemIntServer is called with
      whichever server, leaves its gic400 line without the server it had there and
      every other line as it was, is quiet on INTx if it had a server, and keeps no
      vector; of its slots all come back, and those with a server lose it and are
      masked; all other devices and slots stay as they were. */
  lemma FreeLeaves(s: Sys, ops: seq<Op>, k: nat, isr: Server)
    requires Start(s)
    ensures Inv(s)
    ensures var r := Run(s, ops); k < |r.devs| ==>
      var f := Step(r, OpFree(k));
      && f == Step(r, OpLibRem(k, isr))
      && |f.devs| == |r.devs| && Freed(r.devs[k], f.devs[k]) && LineFreed(r.devs[k], r.c.gic, f.c.gic)
      && RootFreed(r.devs[k].slots, r.c, f.c)
      && (forall x: nat :: x in f.c.used <==> x in r.c.used && x !in r.devs[k].slots)
      && forall j | 0 <= j < |r.devs| && j != k :: f.devs[j] == r.devs[j]
  {
    StartInv(s);
    var r := Run(s, ops);
    if k < |r.devs| {
      FreeExact(r, k);
      LibRemIsFree(r.c, r.devs[k], isr);
    }
  }

  /** Device gates.  In every reachable state a message type is on at the device
      exactly when the device is in that mode, the mask shadow is the mask
      register, and a gate that exists is open exactly when its vector has a
      server. */
  lemma DeviceGates(s: Sys, ops: seq<Op>, k: nat)
    requires Start(s)
    ensures Inv(s)
    ensures var r := Run(s, ops);
      k < |r.devs| ==>
        var d := r.devs[k];
        && (d.regs.msiEnable <==> d.mode == Msi) && (d.regs.msixEnable <==> d.mode == Msix)
        && (d.mode == Idle <==> d.nvec == 0)
        && (d.intxServer.Some? ==> d.mode == Intx && d.caps.gicIrq in r.c.gic
                                   && r.c.gic[d.caps.gicIrq] == d.intxServer.value)
        && (d.caps.maskable ==> d.shadow == d.regs.msiMask)
        && ((d.mode == Msix || (d.mode == Msi && d.caps.maskable)) ==>
              forall v: nat | v < d.nvec :: GateOpen(d, v) <==> (k, v) in r.log)
  {}

  /** The runtime mask moves one gate and nothing else: the slot's bit in the root
      complex for a message vector, the INTx disable bit for INTx.  Servers, latched
      messages and device gates stay, and the other slots' bits. */
  lemma MaskExact(s: Sys, k: nat, v: nat, hold: bool)
    requires Inv(s) && k < |s.devs|
    ensures var d := s.devs[k];
      var r := SetMask(s.c, d, v, hold);
      && (r.2 <==> v < d.nvec)
      && (r.2 && Messaged(d) ==>
            && r.1 == d && (d.slots[v] in r.0.masked <==> hold)
            && forall x | x != d.slots[v] :: x in r.0.masked <==> x in s.c.masked)
      && (r.2 && d.mode == Intx ==>
            r.0 == s.c && (r.1.regs.intxOff <==> hold) && r.1.(regs := d.regs) == d
            && r.1.regs.(intxOff := d.regs.intxOff) == d.regs)
      && r.0.servers == s.c.servers && r.0.latch == s.c.latch && r.0.gic == s.c.gic && r.0.used == s.c.used
      && (!r.2 ==> r.0 == s.c && r.1 == d)
  {}

  /** Attaching: refused with the source's error in each of its cases, and otherwise
      the vector's server is the one given, its gate open, its slot clean and
      unmasked.  Removing the same server undoes it down to a masked, closed, free
      vector. */
  lemma AddExact(s: Sys, k: nat, v: nat, isr: Server, fault: bool)
    requires Inv(s) && k < |s.devs|
    ensures var d := s.devs[k];
      var r := Add(s.c, d, v, isr, fault);
      && (v >= d.nvec ==> r == (s.c, d, Err(EINVAL)))
      && (v < d.nvec ==>
            var taken := (k, v) in s.log || (d.mode == Intx && d.caps.gicIrq in s.c.gic);
            if taken then r == (s.c, d, Err(EBUSY))
            else if d.mode == Intx && fault then r == (s.c, d, Err(EIO))
            else
              && r.2 == Ok(0) && CtrlOk(r.0) && DevOk(r.1) && r.1.nvec == d.nvec
              && VecServer(r.0, r.1, v) == Some(isr)
              && (Messaged(d) ==>
                    && GateOpen(r.1, v) && d.slots[v] !in r.0.latch && d.slots[v] !in r.0.masked
                    && GateOnly(d, r.1, v) && SlotOnly(s.c, r.0, d.slots[v]))
              && (d.mode == Intx ==>
                    && r.0 == s.c.(gic := s.c.gic[d.caps.gicIrq := isr])
                    && r.1 == d.(intxServer := Some(isr), regs := d.regs.(intxOff := false))))
  {}

  /** Nothing at the device but the gate of vector v may have moved. */
  ghost predicate GateOnly(d: Dev, e: Dev, v: nat) {
    && e.(shadow := d.shadow, regs := d.regs) == d
    && e.regs.(msiMask := d.regs.msiMask, table := d.regs.table) == d.regs
    && (forall x: nat | x != v :: x in e.regs.msiMask <==> x in d.regs.msiMask)
    && |e.regs.table| == |d.regs.table|
    && forall i | 0 <= i < |d.regs.table| ::
         if i == v then e.regs.table[i].(masked := true) == d.regs.table[i].(masked := true)
         else e.regs.table[i] == d.regs.table[i]
  }

  /** Nothing at the root complex but slot x may have moved. */
  ghost predicate SlotOnly(c: Ctrl, e: Ctrl, x: nat) {
    && e.used == c.used && e.gic == c.gic && |e.servers| == |c.servers|
    && (forall y | 0 <= y < |c.servers| && y != x :: e.servers[y] == c.servers[y])
    && forall y: nat | y != x :: (y in e.masked <==> y in c.masked) && (y in e.latch <==> y in c.latch)
  }

  lemma RemUndoesAdd(s: Sys, k: nat, v: nat, isr: Server, fault: bool)
    requires Inv(s) && k < |s.devs| && Add(s.c, s.devs[k], v, isr, fault).2 == Ok(0)
    ensures var d := s.devs[k];
      var a := Add(s.c, d, v, isr, fault);
      CtrlOk(a.0) && DevOk(a.1) && v < d.nvec &&
        var r := Rem(a.0, a.1, v, isr);
        && r.0.servers == s.c.servers && r.0.used == s.c.used && r.0.gic == s.c.gic
        && (Messaged(d) ==>
              && d.slots[v] in r.0.masked && GateOnly(d, r.1, v) && SlotOnly(s.c, r.0, d.slots[v])
              && (d.mode == Msix || d.caps.maskable ==> !GateOpen(r.1, v)))
        && (d.mode == Intx ==> r.1.regs.intxOff && r.1.intxServer.None?)
  {
    AddExact(s, k, v, isr, fault);
    if Messaged(s.devs[k]) { RemUndoesSlot(s, k, v, isr, fault); } else { RemUndoesLine(s, k, v, isr, fault); }
  }

  lemma RemUndoesSlot(s: Sys, k: nat, v: nat, isr: Server, fault: bool)
    requires Inv(s) && k < |s.devs| && Messaged(s.devs[k]) && Add(s.c, s.devs[k], v, isr, fault).2 == Ok(0)
    ensures var d := s.devs[k];
      var a := Add(s.c, d, v, isr, fault);
      CtrlOk(a.0) && DevOk(a.1) && v < d.nvec &&
        var r := Rem(a.0, a.1, v, isr);
        && r.0.servers == s.c.servers && r.0.used == s.c.used && r.0.gic == s.c.gic
        && d.slots[v] in r.0.masked && GateOnly(d, r.1, v) && SlotOnly(s.c, r.0, d.slots[v])
        && DevOk(r.1) && r.1.mode == d.mode && r.1.nvec == d.nvec
        && (d.mode == Msix || d.caps.maskable ==> !GateOpen(r.1, v))
  {
    AddExact(s, k, v, isr, fault);
    var d := s.devs[k];
    assert LogOk(s.log, s.c, k, d);
    assert Rem(Add(s.c, d, v, isr, fault).0, Add(s.c, d, v, isr, fault).1, v, isr).0.servers == s.c.servers;
  }

  lemma RemUndoesLine(s: Sys, k: nat, v: nat, isr: Server, fault: bool)
    requires Inv(s) && k < |s.devs| && s.devs[k].mode == Intx && Add(s.c, s.devs[k], v, isr, fault).2 == Ok(0)
    ensures var d := s.devs[k];
      var a := Add(s.c, d, v, isr, fault);
      CtrlOk(a.0) && DevOk(a.1) && v < d.nvec &&
        var r := Rem(a.0, a.1, v, isr);
        r.0 == s.c && r.1.regs.intxOff && r.1.intxServer.None?
  {
    AddExact(s, k, v, isr, fault);
    var d := s.devs[k];
    assert Rem(Add(s.c, d, v, isr, fault).0, Add(s.c, d, v, isr, fault).1, v, isr).0.gic == s.c.gic;
  }

  // ---- the obsolete single-vector calls ----

  lemma OneBlock(used: set<nat>)
    ensures (exists b :: FreeBlock(used, 1, b)) <==> exists x: nat :: x < SLOTS && x !in used
  {
    if b :| FreeBlock(used, 1, b) {
      assert BlockHas(b, 1, b);
      assert b in Block(b, 1);
    }
    if x: nat :| x < SLOTS && x !in used {
      assert Block(x, 1) !! used by {
        forall y | y in Block(x, 1) ensures y == x {}
      }
      assert FreeBlock(used, 1, x);
    }
  }

  /** pci_add_intserver succeeds exactly when the device is idle and either MSI is
      preferred, offered and a slot is free, or its INTx line is routed, free and
      gic400 takes the server. */
  lemma LibAddExact(s: Sys, k: nat, isr: Server, preferMsi: bool, fault: bool)
    requires Inv(s) && k < |s.devs|
    ensures var d := s.devs[k];
      LibAdd(s.c, d, isr, preferMsi, fault).2 <==>
        && d.mode == Idle
        && (|| (preferMsi && d.caps.msi && exists x: nat :: x < SLOTS && x !in s.c.used)
            || (d.caps.gicIrq != 0 && d.caps.gicIrq !in s.c.gic && !fault
                && !(preferMsi && d.caps.msi && exists x: nat :: x < SLOTS && x !in s.c.used)))
  {
    var d := s.devs[k];
    var flags := if preferMsi then 3 else 1;
    var a := Alloc(s.c, d, 1, 1, flags);
    LibFlags();
    if d.mode == Idle {
      BestAlloc(s.c, d, 1, 1, flags);
      OneBlock(s.c.used);
      assert CanMsi(s.c, d, 1, 1, flags) <==>
        preferMsi && d.caps.msi && exists x: nat :: x < SLOTS && x !in s.c.used by {
        if d.caps.msi && preferMsi && exists x: nat :: x < SLOTS && x !in s.c.used {
          assert MsiFits(s.c, d, 1, 1, 0);
        }
      }
      if a.2.Ok? {
        assert IntxOk(s.c, d);
        AllocServerless(s.c, d, 1, 1, flags, 0);
      }
    }
  }

  lemma LibFlags()
    ensures Bit(1, 0) && !Bit(1, 1) && !Bit(1, 2) && Bit(3, 0) && Bit(3, 1) && !Bit(3, 2)
  {}

  lemma {:induction false} DetachClears(c: Ctrl, d: Dev, v: nat)
    requires CtrlOk(c) && DevOk(d)
    ensures var r := DetachFrom(c, d, v);
      && (forall x | 0 <= x < SLOTS && c.servers[x].None? :: r.0.servers[x].None?)
      && (forall w | v <= w < |d.slots| :: r.0.servers[d.slots[w]].None?)
      && (d.intxServer.None? || (d.mode == Intx && v == 0) ==> r.1.intxServer.None?)
    decreases d.nvec - v
  {
    if v < d.nvec {
      var x := DetachTurn(c, d, v);
      DetachClears(x.0, x.1, v + 1);
    }
  }

  /** pci_rem_intserver gives the whole allocation up even when the server named is
      not the one attached, and not only a one-vector allocation. */
  lemma LibRemTakesAll(s: Sys, k: nat, isr: Server)
    requires Inv(s) && k < |s.devs|
    ensures var r := LibRem(s.c, s.devs[k], isr);
      && r.1.mode == Idle && r.1.intxServer.None?
      && r.0.used == s.c.used - Elems(s.devs[k].slots)
      && Freed(s.devs[k], r.1) && LineFreed(s.devs[k], s.c.gic, r.0.gic) && RootFreed(s.devs[k].slots, s.c, r.0)
      && forall v | 0 <= v < |s.devs[k].slots| :: r.0.servers[s.devs[k].slots[v]].None?
  {
    LibRemIsFree(s.c, s.devs[k], isr);
    FreeExact(s, k);
    assert DevInv(s.c, s.devs[k]);
  }
}
