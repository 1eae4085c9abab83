// Every run of the call-level model is a run of the step machine, so what the step
// machine promises of a slot is promised of a device's vector.

module DemuxRefinement {
  import opened Words
  import opened SlotPool
  import opened Vectors
  import opened VectorRuns
  import VectorTheorems
  import D = Demux

  /** Between calls: the ISR asleep, no bind or unbind half done, table and registers
      the same. */
  ghost predicate Matches(c: Ctrl, t: D.State) {
    && D.Inv(t) && t.phase.Asleep?
    && t.servers == c.servers && t.masked == c.masked && D.Latch(t) == c.latch
    && forall x | 0 <= x < SLOTS :: t.stage[x] in {D.Free, D.Live}
  }

  /** A slot unbound by these events has no server afterwards. */
  ghost predicate ClosesOnly(es: seq<D.Event>, c: Ctrl)
    requires CtrlOk(c)
  {
    forall x: nat | D.Close(x) in es :: x < SLOTS && c.servers[x].None?
  }

  lemma MatchesOk(c: Ctrl, t: D.State)
    requires Matches(c, t)
    ensures |c.servers| == SLOTS && D.Run(t, []) == t
  {}

  // ---- one slot ----

  lemma BindRefined(c: Ctrl, t: D.State, x: nat, isr: Server) returns (es: seq<D.Event>)
    requires CtrlOk(c) && Matches(c, t) && x < SLOTS && c.servers[x].None?
    ensures CtrlOk(Bind(c, x, isr)) && Matches(Bind(c, x, isr), D.Run(t, es))
    ensures forall y :: D.Close(y) !in es
  {
    es := D.BindEvents(x, isr);
    D.RunKeeps(t, es);
    D.BindSteps(t, x, isr, c.used, c.gic);
  }

  lemma UnbindRefined(c: Ctrl, t: D.State, x: nat) returns (es: seq<D.Event>)
    requires CtrlOk(c) && Matches(c, t) && x < SLOTS && c.servers[x].Some?
    ensures CtrlOk(Unbind(c, x)) && Matches(Unbind(c, x), D.Run(t, es))
    ensures forall y :: D.Close(y) in es <==> y == x
  {
    es := D.UnbindEvents(x);
    D.RunKeeps(t, es);
    D.UnbindSteps(t, x, c.used, c.gic);
  }

  // ---- calls ----

  /** What the step machine sees of the controller has not changed. */
  ghost predicate SameSeen(a: Ctrl, b: Ctrl) {
    a.servers == b.servers && a.masked == b.masked && a.latch == b.latch
  }

  lemma AllocSeen(c: Ctrl, d: Dev, min: nat, max: nat, flags: nat)
    requires CtrlOk(c) && DevOk(d)
    ensures SameSeen(Alloc(c, d, min, max, flags).0, c)
  {}

  lemma AddRefined(c: Ctrl, d: Dev, v: nat, isr: Server, fault: bool, t: D.State) returns (es: seq<D.Event>)
    requires CtrlOk(c) && DevOk(d) && Matches(c, t)
    ensures var r := Add(c, d, v, isr, fault); Matches(r.0, D.Run(t, es))
    ensures forall y :: D.Close(y) !in es
  {
    MatchesOk(c, t);
    if v < d.nvec && Messaged(d) && VecServer(c, d, v).None? {
      es := BindRefined(c, t, d.slots[v], isr);
    } else {
      es := [];
    }
  }

  lemma RemRefined(c: Ctrl, d: Dev, v: nat, isr: Server, t: D.State) returns (es: seq<D.Event>)
    requires CtrlOk(c) && DevOk(d) && Matches(c, t)
    ensures var r := Rem(c, d, v, isr); CtrlOk(r.0) && DevOk(r.1) && Matches(r.0, D.Run(t, es)) && ClosesOnly(es, r.0)
  {
    MatchesOk(c, t);
    if v < d.nvec && Messaged(d) && VecServer(c, d, v) == Some(isr) {
      es := UnbindRefined(c, t, d.slots[v]);
    } else {
      es := [];
    }
  }

  lemma TurnRefined(c: Ctrl, d: Dev, v: nat, t: D.State) returns (es: seq<D.Event>)
    requires CtrlOk(c) && DevOk(d) && Matches(c, t) && v < d.nvec
    ensures var x := DetachTurn(c, d, v); Matches(x.0, D.Run(t, es)) && ClosesOnly(es, x.0)
  {
    var isr := VecServer(c, d, v);
    if isr.Some? {
      es := RemRefined(c, d, v, isr.value, t);
    } else {
      MatchesOk(c, t);
      es := [];
    }
  }

  /** The events of the turn at v, then those of the rest of the loop. */
  lemma DetachJoin(c: Ctrl, d: Dev, v: nat, t: D.State, a: seq<D.Event>, b: seq<D.Event>)
    requires CtrlOk(c) && DevOk(d) && D.Shape(t)
    requires ClosesOnly(a, c) && ClosesOnly(b, DetachFrom(c, d, v).0)
    ensures D.Run(t, a + b) == D.Run(D.Run(t, a), b) && ClosesOnly(a + b, DetachFrom(c, d, v).0)
  {
    D.RunAppend(t, a, b);
    VectorTheorems.DetachClears(c, d, v);
  }

  lemma {:induction false} DetachRefined(c: Ctrl, d: Dev, v: nat, t: D.State) returns (es: seq<D.Event>)
    requires CtrlOk(c) && DevOk(d) && Matches(c, t)
    ensures var r := DetachFrom(c, d, v); Matches(r.0, D.Run(t, es)) && ClosesOnly(es, r.0)
    decreases d.nvec - v
  {
    if v < d.nvec {
      var x := DetachTurn(c, d, v);
      var first := TurnRefined(c, d, v, t);
      var rest := DetachRefined(x.0, x.1, v + 1, D.Run(t, first));
      DetachJoin(x.0, x.1, v + 1, t, first, rest);
      es := first + rest;
    } else {
      MatchesOk(c, t);
      es := [];
    }
  }

  lemma FreeRefined(c: Ctrl, d: Dev, t: D.State) returns (es: seq<D.Event>)
    requires CtrlOk(c) && DevOk(d) && Matches(c, t)
    ensures var r := Free(c, d);
      CtrlOk(r.0) && Matches(r.0, D.Run(t, es)) && ClosesOnly(es, r.0)
      && forall x | 0 <= x < SLOTS && c.servers[x].None? :: r.0.servers[x].None?
  {
    es := DetachRefined(c, d, 0, t);
    VectorTheorems.DetachClears(c, d, 0);
  }

  /** A server attached to a fresh allocation, or else the allocation given back. */
  lemma AddOrFreeRefined(c: Ctrl, d: Dev, isr: Server, fault: bool, t: D.State) returns (es: seq<D.Event>)
    requires CtrlOk(c) && DevOk(d) && Matches(c, t)
    ensures var r := Add(c, d, 0, isr, fault); CtrlOk(r.0) && DevOk(r.1)
    ensures var r := Add(c, d, 0, isr, fault);
      var e := if r.2 == Ok(0) then r.0 else Free(r.0, r.1).0;
      CtrlOk(e) && Matches(e, D.Run(t, es)) && ClosesOnly(es, e)
  {
    var r := Add(c, d, 0, isr, fault);
    es := AddRefined(c, d, 0, isr, fault, t);
    if r.2 != Ok(0) {
      var rest := FreeRefined(r.0, r.1, D.Run(t, es));
      D.RunAppend(t, es, rest);
      es := es + rest;
    }
  }

  lemma LibAddRefined(c: Ctrl, d: Dev, isr: Server, p: bool, fault: bool, t: D.State) returns (es: seq<D.Event>)
    requires CtrlOk(c) && DevOk(d) && Matches(c, t)
    ensures var r := LibAdd(c, d, isr, p, fault); CtrlOk(r.0) && Matches(r.0, D.Run(t, es)) && ClosesOnly(es, r.0)
  {
    MatchesOk(c, t);
    var flags := if p then 3 else 1;
    var a := Alloc(c, d, 1, 1, flags);
    AllocOk(c, d, 1, 1, flags);
    AllocSeen(c, d, 1, 1, flags);
    es := [];
    if a.2 == Ok(1) { es := AddOrFreeRefined(a.0, a.1, isr, fault, t); }
  }

  lemma LibRemRefined(c: Ctrl, d: Dev, isr: Server, t: D.State) returns (es: seq<D.Event>)
    requires CtrlOk(c) && DevOk(d) && Matches(c, t)
    ensures var r := LibRem(c, d, isr); CtrlOk(r.0) && Matches(r.0, D.Run(t, es)) && ClosesOnly(es, r.0)
  {
    var r := Rem(c, d, 0, isr);
    var first := RemRefined(c, d, 0, isr, t);
    var rest := FreeRefined(r.0, r.1, D.Run(t, first));
    D.RunAppend(t, first, rest);
    es := first + rest;
  }

  lemma MaskRefined(c: Ctrl, d: Dev, v: nat, hold: bool, t: D.State) returns (es: seq<D.Event>)
    requires CtrlOk(c) && DevOk(d) && Matches(c, t)
    ensures var r := SetMask(c, d, v, hold); Matches(r.0, D.Run(t, es))
    ensures forall y :: D.Close(y) !in es
  {
    MatchesOk(c, t);
    es := [];
    if v < d.nvec && d.mode != Intx {
      var e := if hold then D.Mask(d.slots[v]) else D.Unmask(d.slots[v]);
      D.NextKeeps(t, e);
      D.RunOne(t, e);
      assert D.Latch(D.Next(t, e)) == D.Latch(t);
      es := [e];
    }
  }

  // ---- the interrupt ----

  lemma InterruptRefined(c: Ctrl, t: D.State) returns (es: seq<D.Event>)
    requires CtrlOk(c) && Matches(c, t)
    ensures Matches(c.(latch := {}), D.Run(t, es))
    ensures forall y :: D.Close(y) !in es
  {
    MatchesOk(c, t);
    D.EnterEffect(t);
    var t1 := D.Next(t, D.Enter);
    D.RunOne(t, D.Enter);
    es := [D.Enter];
    if t1.phase.Scan? {
      var rest := D.PassRuns(t1);
      D.RunAppend(t, es, rest);
      es := es + rest;
    }
  }

  lemma ArriveRefined(c: Ctrl, t: D.State, x: nat)
    requires CtrlOk(c) && Matches(c, t) && x < SLOTS
    ensures Matches(c.(latch := c.latch + {x}), D.Run(t, [D.Arrive(x)]))
  {
    D.ArriveEffect(t, x);
    D.RunOne(t, D.Arrive(x));
  }

  // ---- every step, every run ----

  lemma SendStep(s: Sys, k: nat, v: nat)
    requires Inv(s) && k < |s.devs| && v < s.devs[k].nvec && Messaged(s.devs[k]) && GateOpen(s.devs[k], v)
    ensures v < |s.devs[k].slots| && s.devs[k].slots[v] < SLOTS
    ensures Step(s, OpSend(k, v)) == s.(c := s.c.(latch := s.c.latch + {s.devs[k].slots[v]}))
  {
    VectorTheorems.MessageTarget(s.c, s.devs[k], v);
  }

  lemma SendRefined(s: Sys, k: nat, v: nat, t: D.State) returns (es: seq<D.Event>)
    requires Inv(s) && Matches(s.c, t)
    ensures Matches(Step(s, OpSend(k, v)).c, D.Run(t, es))
    ensures forall y :: D.Close(y) !in es
  {
    if k < |s.devs| && v < s.devs[k].nvec && Messaged(s.devs[k]) && GateOpen(s.devs[k], v) {
      SendStep(s, k, v);
      ArriveRefined(s.c, t, s.devs[k].slots[v]);
      es := [D.Arrive(s.devs[k].slots[v])];
    } else {
      MatchesOk(s.c, t);
      es := [];
    }
  }

  lemma CallRefined(s: Sys, op: Op, t: D.State) returns (es: seq<D.Event>)
    requires Inv(s) && Matches(s.c, t)
    requires (op.OpAlloc? || op.OpAdd? || op.OpRem? || op.OpFree?) && op.k < |s.devs|
    ensures var c := Step(s, op).c; CtrlOk(c) && Matches(c, D.Run(t, es)) && ClosesOnly(es, c)
  {
    StepKeeps(s, op);
    MatchesOk(s.c, t);
    es := [];
    match op
    case OpAlloc(k, min, max, flags) => AllocSeen(s.c, s.devs[k], min, max, flags);
    case OpAdd(k, v, isr, fault) => es := AddRefined(s.c, s.devs[k], v, isr, fault, t);
    case OpRem(k, v, isr) => es := RemRefined(s.c, s.devs[k], v, isr, t);
    case OpFree(k) => es := FreeRefined(s.c, s.devs[k], t);
  }

  lemma LibRefined(s: Sys, op: Op, t: D.State) returns (es: seq<D.Event>)
    requires Inv(s) && Matches(s.c, t) && (op.OpLibAdd? || op.OpLibRem?) && op.k < |s.devs|
    ensures var c := Step(s, op).c; CtrlOk(c) && Matches(c, D.Run(t, es)) && ClosesOnly(es, c)
  {
    match op
    case OpLibAdd(k, isr, p, fault) => es := LibAddRefined(s.c, s.devs[k], isr, p, fault, t);
    case OpLibRem(k, isr) => es := LibRemRefined(s.c, s.devs[k], isr, t);
  }

  lemma HoldRefined(s: Sys, op: Op, t: D.State) returns (es: seq<D.Event>)
    requires Inv(s) && Matches(s.c, t) && (op.OpMask? || op.OpUnmask? || op.OpIntxMask?) && op.k < |s.devs|
    ensures var c := Step(s, op).c; CtrlOk(c) && Matches(c, D.Run(t, es)) && ClosesOnly(es, c)
  {
    StepKeeps(s, op);
    if op.OpIntxMask? {
      MatchesOk(s.c, t);
      es := [];
    } else {
      MaskStep(s, op);
      es := MaskRefined(s.c, s.devs[op.k], op.v, op.OpMask?, t);
    }
  }

  /** One call, message or interrupt is a run of the step machine.  A bind occurs in
      it only where the slot has no server, since the call refuses otherwise. */
  lemma StepRefined(s: Sys, op: Op, t: D.State) returns (es: seq<D.Event>)
    requires Inv(s) && Matches(s.c, t)
    ensures Inv(Step(s, op)) && Matches(Step(s, op).c, D.Run(t, es)) && ClosesOnly(es, Step(s, op).c)
  {
    StepKeeps(s, op);
    if op.OpInterrupt? { es := InterruptRefined(s.c, t); }
    else if op.OpSend? { es := SendRefined(s, op.k, op.v, t); }
    else if op.k >= |s.devs| {
      NoDevice(s, op);
      MatchesOk(s.c, t);
      es := [];
    }
    else if op.OpLibAdd? || op.OpLibRem? { es := LibRefined(s, op, t); }
    else if op.OpMask? || op.OpUnmask? || op.OpIntxMask? { es := HoldRefined(s, op, t); }
    else { es := CallRefined(s, op, t); }
  }

  /** (k, v) keeps a server through the whole run. */
  ghost predicate StaysAttached(s: Sys, ops: seq<Op>, k: nat, v: nat)
    requires Inv(s)
    decreases |ops|
  {
    && (k, v) in s.log
    && (ops == [] || (StepKeeps(s, ops[0]); StaysAttached(Step(s, ops[0]), ops[1..], k, v)))
  }

  /** Whatever is called meanwhile, a vector that keeps its server keeps its slot. */
  lemma SlotStays(s: Sys, op: Op, k: nat, v: nat)
    requires Inv(s) && (k, v) in s.log && (k, v) in Step(s, op).log
    ensures k < |s.devs| == |Step(s, op).devs|
    ensures Step(s, op).devs[k].slots == s.devs[k].slots && Step(s, op).devs[k].mode == s.devs[k].mode
  {
    var d := s.devs[k];
    assert LogOk(s.log, s.c, k, d);
    if VectorTheorems.Touches(op, k) {
      match op
      case OpAlloc(_, min, max, flags) => VectorTheorems.AllocRefused(s.c, d, min, max, flags);
      case OpLibAdd(_, isr, p, fault) => LibAddBusy(s.c, d, isr, p, fault);
      case OpAdd(_, w, isr, fault) => AddSlots(s.c, d, w, isr, fault);
      case OpRem(_, w, isr) => RemSlots(s.c, d, w, isr);
      case OpMask(_, w) => VectorTheorems.MaskExact(s, k, w, true);
      case OpUnmask(_, w) => VectorTheorems.MaskExact(s, k, w, false);
      case _ =>
    } else {
      VectorTheorems.StepFrame(s, op, k);
    }
  }

  lemma LibAddBusy(c: Ctrl, d: Dev, isr: Server, p: bool, fault: bool)
    requires CtrlOk(c) && DevOk(d) && d.mode != Idle
    ensures LibAdd(c, d, isr, p, fault) == (c, d, false)
  {}

  lemma AddSlots(c: Ctrl, d: Dev, v: nat, isr: Server, fault: bool)
    requires CtrlOk(c) && DevOk(d)
    ensures var e := Add(c, d, v, isr, fault).1; e.slots == d.slots && e.mode == d.mode
  {}

  lemma RemSlots(c: Ctrl, d: Dev, v: nat, isr: Server)
    requires CtrlOk(c) && DevOk(d)
    ensures var e := Rem(c, d, v, isr).1; e.slots == d.slots && e.mode == d.mode
  {}

  /** ... and the events of that call do not close it. */
  lemma NotClosed(s: Sys, op: Op, k: nat, v: nat, es: seq<D.Event>)
    requires Inv(s) && (k, v) in s.log && Inv(Step(s, op)) && (k, v) in Step(s, op).log
    requires k < |s.devs| && Messaged(s.devs[k]) && v < |s.devs[k].slots| && ClosesOnly(es, Step(s, op).c)
    ensures var u := Step(s, op);
      && k < |u.devs| && u.devs[k].slots == s.devs[k].slots && Messaged(u.devs[k])
      && D.Close(s.devs[k].slots[v]) !in es
  {
    var u := Step(s, op);
    SlotStays(s, op, k, v);
    assert LogOk(u.log, u.c, k, u.devs[k]);
    assert VecServer(u.c, u.devs[k], v).Some?;
  }

  lemma {:induction false} RunRefined(s: Sys, ops: seq<Op>, t: D.State, k: nat, v: nat) returns (es: seq<D.Event>)
    requires Inv(s) && Matches(s.c, t)
    ensures Matches(Run(s, ops).c, D.Run(t, es))
    ensures StaysAttached(s, ops, k, v) && k < |s.devs| && Messaged(s.devs[k]) && v < |s.devs[k].slots| ==>
      D.Close(s.devs[k].slots[v]) !in es
    decreases |ops|
  {
    MatchesOk(s.c, t);
    es := [];
    if ops != [] {
      var u := Step(s, ops[0]);
      StepKeeps(s, ops[0]);
      var first := StepRefined(s, ops[0], t);
      var rest := RunRefined(u, ops[1..], D.Run(t, first), k, v);
      D.RunAppend(t, first, rest);
      es := first + rest;
      if StaysAttached(s, ops, k, v) && k < |s.devs| && Messaged(s.devs[k]) && v < |s.devs[k].slots| {
        NotClosed(s, ops[0], k, v, first);
      }
    }
  }

  /** The step machine as probe leaves it. */
  ghost function AtProbe(): D.State {
    D.State(seq(SLOTS, _ => None), seq(SLOTS, _ => D.Free), seq(SLOTS, _ => 0), seq(SLOTS, _ => 0), AllSlots(),
            seq(SLOTS, _ => {}), D.Asleep, {}, [], map[], [])
  }

  lemma ProbeMatches(s: Sys)
    requires Start(s)
    ensures D.Start(AtProbe()) && Matches(s.c, AtProbe())
  {
    D.StartInv(AtProbe());
    assert D.Latch(AtProbe()) == {};
  }

  /** After `before` the message vector (k, v) has a server, sends, and keeps the
      server through `after`. */
  ghost predicate Attended(s: Sys, before: seq<Op>, k: nat, v: nat, after: seq<Op>)
    requires Start(s)
  {
    StartInv(s);
    var r := Run(s, before);
    && (k, v) in r.log && k < |r.devs| && Messaged(r.devs[k])
    && (StepKeeps(r, OpSend(k, v)); StaysAttached(Step(r, OpSend(k, v)), after, k, v))
  }

  /** No message of a vector is lost.  Attach a server in any run, let the device send,
      then let any calls on any devices and any interrupts follow that leave the
      server attached: the run is one of the step machine, in which the message has
      been served by that server or waits in the latch of the vector's slot. */
  lemma VectorMessageKept(s: Sys, before: seq<Op>, k: nat, v: nat, after: seq<Op>)
    returns (es0: seq<D.Event>, es1: seq<D.Event>)
    requires Start(s) && Attended(s, before, k, v, after)
    ensures Inv(s)
    ensures var r := Run(s, before);
      && v < |r.devs[k].slots| && r.devs[k].slots[v] < SLOTS && Inv(Step(r, OpSend(k, v)))
      && (var x, t0 := r.devs[k].slots[v], D.Run(AtProbe(), es0);
          var n, t1 := |t0.sent|, D.Run(D.Next(t0, D.Arrive(x)), es1);
          var f := Run(Step(r, OpSend(k, v)), after);
          && Matches(r.c, t0) && Matches(f.c, t1)
          && n < |t1.sent| && t1.sent[n].slot == x
          && ((n in t1.served && t1.served[n] == r.log[(k, v)]) || x in f.c.latch))
  {
    StartInv(s);
    var r := Run(s, before);
    ProbeMatches(s);
    es0 := RunRefined(s, before, AtProbe(), k, v);
    var t0 := D.Run(AtProbe(), es0);
    var x := SendArrives(r, k, v, t0);
    StepKeeps(r, OpSend(k, v));
    es1 := RunRefined(Step(r, OpSend(k, v)), after, D.Next(t0, D.Arrive(x)), k, v);
    D.NoMessageLost(AtProbe(), es0, x, es1);
  }

  /** What an attached vector sends arrives at its own slot, live under its server. */
  lemma SendArrives(r: Sys, k: nat, v: nat, t: D.State) returns (x: nat)
    requires Inv(r) && (k, v) in r.log && k < |r.devs| && Messaged(r.devs[k]) && Matches(r.c, t)
    ensures v < |r.devs[k].slots| && x == r.devs[k].slots[v] < SLOTS
    ensures t.stage[x] == D.Live && t.servers[x] == Some(r.log[(k, v)])
    ensures var u := Step(r, OpSend(k, v));
      u.c == r.c.(latch := r.c.latch + {x}) && u.devs == r.devs && Matches(u.c, D.Next(t, D.Arrive(x)))
  {
    var d := r.devs[k];
    assert LogOk(r.log, r.c, k, d);
    assert VecServer(r.c, d, v) == Some(r.log[(k, v)]);
    x := d.slots[v];
    assert Gates(r.c, d);
    SendStep(r, k, v);
    ArriveRefined(r.c, t, x);
    D.RunOne(t, D.Arrive(x));
  }
}
