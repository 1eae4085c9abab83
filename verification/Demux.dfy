// The MSI demux at the grain of single register accesses: messages arrive
// between any two of them, the ISR preempts bind and unbind between any two of
// theirs, and a server called from the ISR may mask and unmask slots.

module Demux {
  import opened Words
  import opened SlotPool
  import opened Vectors

  /** How far slot_bind or slot_unbind has come on a slot. */
  datatype Stage =
    | Free        // no server
    | Stored      // bind has stored the server
    | Dropped     // bind has written CLR
    | Live        // bind has written MASK_CLR and returned
    | Closing     // unbind has written MASK_SET, the server is still there

  /** Where the ISR is.  `status` is its local snapshot. */
  datatype Phase =
    | Asleep
    | Scan(status: set<nat>)                 // top of the loop
    | Cleared(slot: nat, status: set<nat>)   // between the slot's CLR and its call

  /** A message as it reached the controller: its slot, how many binds had cleared
      the slot by then, and the server bound if the slot was live. */
  datatype Message = Message(slot: nat, gen: nat, owner: Option<Server>)

  /** `binds[x]` counts the binds that have stored a server at slot x, `gen[x]` those
      that have cleared it.  `held[x]` are the messages the one latch bit of slot x stands for; `inHand`
      those whose bit the ISR has cleared and whose server it has yet to call. */
  datatype State = State(
    servers: seq<Option<Server>>, stage: seq<Stage>, binds: seq<nat>, gen: seq<nat>, masked: set<nat>,
    held: seq<set<nat>>, phase: Phase, inHand: set<nat>,
    sent: seq<Message>, served: map<nat, Server>, calls: seq<(nat, Server)>)

  datatype Event =
    | Arrive(x: nat)
    | Enter                          // the ISR reads STATUS
    | Clear                          // and clears its lowest remaining bit
    | Call                           // and calls that slot's server
    | Mask(x: nat)
    | Unmask(x: nat)
    | Store(x: nat, isr: Server)     // bind: servers[x] = isr, refused if bound
    | Drop(x: nat)                   // bind: CLR
    | Open(x: nat)                   // bind: MASK_CLR
    | Close(x: nat)                  // unbind: MASK_SET
    | Null(x: nat)                   // unbind: servers[x] = NULL

  ghost predicate Shape(s: State) {
    |s.servers| == SLOTS && |s.stage| == SLOTS && |s.binds| == SLOTS && |s.gen| == SLOTS && |s.held| == SLOTS
  }

  ghost function Latch(s: State): set<nat>
    requires Shape(s)
  {
    set x: nat | x < SLOTS && s.held[x] != {}
  }

  ghost predicate Lowest(x: nat, status: set<nat>) {
    x in status && forall y | y in status :: x <= y
  }

  lemma {:induction false} HasLowest(status: set<nat>)
    requires status != {}
    ensures exists x :: Lowest(x, status)
    decreases status
  {
    var x :| x in status;
    var rest := status - {x};
    assert forall y | y in status :: y == x || y in rest;
    if rest == {} {
      assert Lowest(x, status);
    } else {
      HasLowest(rest);
      var y :| Lowest(y, rest);
      assert Lowest(if y < x then y else x, status);
    }
  }

  ghost function LowestOf(status: set<nat>): (x: nat)
    requires status != {}
    ensures Lowest(x, status)
  {
    HasLowest(status);
    var x :| Lowest(x, status);
    x
  }

  /** The line to gic400: some latched slot is unmasked. */
  ghost predicate Line(s: State)
    requires Shape(s)
  {
    exists x :: x in Latch(s) && x !in s.masked
  }

  ghost predicate Enabled(s: State, e: Event)
    requires Shape(s)
  {
    match e
    case Arrive(x) => x < SLOTS
    case Enter => s.phase.Asleep?
    case Clear => s.phase.Scan? && s.phase.status != {} && s.phase.status <= AllSlots()
    case Call => s.phase.Cleared? && s.phase.slot < SLOTS
    case Mask(x) => x < SLOTS
    case Unmask(x) => x < SLOTS
    case Store(x, _) => s.phase.Asleep? && x < SLOTS && s.stage[x] == Free
    case Drop(x) => s.phase.Asleep? && x < SLOTS && s.stage[x] == Stored
    case Open(x) => s.phase.Asleep? && x < SLOTS && s.stage[x] == Dropped
    case Close(x) => s.phase.Asleep? && x < SLOTS && s.stage[x] == Live
    case Null(x) => s.phase.Asleep? && x < SLOTS && s.stage[x] == Closing
  }

  ghost function Resume(status: set<nat>): Phase { if status == {} then Asleep else Scan(status) }

  lemma SlotRange(x: nat)
    ensures x in AllSlots() <==> x < SLOTS
  {}

  /** One event; an event that is not enabled does nothing. */
  ghost function Next(s: State, e: Event): (r: State)
    requires Shape(s)
    ensures Shape(r)
  {
    if !Enabled(s, e) then s
    else match e
      case Arrive(x) =>
        s.(held := s.held[x := s.held[x] + {|s.sent|}],
           sent := s.sent + [Message(x, s.gen[x], if s.stage[x] == Live then s.servers[x] else None)])
      case Enter => s.(phase := Resume(Latch(s)))
      case Clear =>
        var x := LowestOf(s.phase.status);
        SlotRange(x);
        s.(held := s.held[x := {}], phase := Cleared(x, s.phase.status - {x}), inHand := s.held[x])
      case Call =>
        var isr := s.servers[s.phase.slot];
        var woken := s.(phase := Resume(s.phase.status), inHand := {});
        if isr.None? then woken
        else
          woken.(served := map n | n in s.served.Keys + s.inHand ::
                   if n in s.inHand then isr.value else s.served[n],
                 calls := s.calls + [(s.phase.slot, isr.value)])
      case Mask(x) => s.(masked := s.masked + {x})
      case Unmask(x) => s.(masked := s.masked - {x})
      case Store(x, isr) =>
        s.(servers := s.servers[x := Some(isr)], stage := s.stage[x := Stored], binds := s.binds[x := s.binds[x] + 1])
      case Drop(x) => s.(held := s.held[x := {}], stage := s.stage[x := Dropped], gen := s.gen[x := s.gen[x] + 1])
      case Open(x) => s.(masked := s.masked - {x}, stage := s.stage[x := Live])
      case Close(x) => s.(masked := s.masked + {x}, stage := s.stage[x := Closing])
      case Null(x) => s.(servers := s.servers[x := None], stage := s.stage[x := Free])
  }

  ghost function Run(s: State, es: seq<Event>): (r: State)
    requires Shape(s)
    ensures Shape(r)
    decreases |es|
  {
    if es == [] then s else Run(Next(s, es[0]), es[1..])
  }

  // ---- the invariant ----

  /** Latched, or cleared by the ISR with the call still to come. */
  ghost predicate Pending(s: State, n: nat)
    requires Shape(s) && n < |s.sent| && s.sent[n].slot < SLOTS
  {
    var x := s.sent[n].slot;
    n in s.held[x] || (s.phase.Cleared? && s.phase.slot == x && n in s.inHand)
  }

  /** The server that was bound when the message came has been bound ever since. */
  ghost predicate Current(s: State, n: nat)
    requires Shape(s) && n < |s.sent| && s.sent[n].slot < SLOTS
  {
    var m := s.sent[n];
    m.owner.Some? && s.stage[m.slot] == Live && s.gen[m.slot] == m.gen
  }

  ghost predicate Bound(s: State)
    requires Shape(s)
  {
    forall x | 0 <= x < SLOTS ::
      && (s.servers[x].Some? <==> s.stage[x] != Free)
      && s.binds[x] == if s.stage[x] == Stored then s.gen[x] + 1 else s.gen[x]
  }

  /** Slots still to be visited hold messages, and so does the ISR before a call. */
  ghost predicate Phased(s: State)
    requires Shape(s)
  {
    match s.phase
    case Asleep => s.inHand == {}
    case Scan(status) => status != {} && s.inHand == {} && status <= Latch(s)
    case Cleared(x, status) => x < SLOTS && s.inHand != {} && status <= Latch(s)
  }

  /** Every message is in one place. */
  ghost predicate Placed(s: State)
    requires Shape(s)
  {
    && (forall n | 0 <= n < |s.sent| :: s.sent[n].slot < SLOTS && s.sent[n].gen <= s.gen[s.sent[n].slot])
    && (forall x: nat, n: nat {:trigger n in s.held[x]} | x < SLOTS && n in s.held[x] ::
          n < |s.sent| && s.sent[n].slot == x && n !in s.served && n !in s.inHand)
    && (forall n: nat | n in s.inHand ::
          n < |s.sent| && s.phase.Cleared? && s.sent[n].slot == s.phase.slot && n !in s.served)
    && (forall n: nat | n in s.served :: n < |s.sent|)
  }

  /** From its CLR on, a bind sees only messages that came after the CLR. */
  ghost predicate Fresh(s: State)
    requires Shape(s) && Placed(s)
  {
    && (forall x: nat, n: nat {:trigger n in s.held[x]}
          | x < SLOTS && n in s.held[x] && s.stage[x] in {Dropped, Live, Closing} ::
          s.sent[n].gen == s.gen[x])
    && (forall n: nat | n in s.inHand && s.stage[s.sent[n].slot] in {Dropped, Live, Closing} ::
          s.sent[n].gen == s.gen[s.sent[n].slot])
  }

  ghost predicate Kept(s: State, n: nat)
    requires Shape(s) && n < |s.sent| && s.sent[n].slot < SLOTS
  {
    && (Current(s, n) ==>
          && s.sent[n].owner == s.servers[s.sent[n].slot]
          && (Pending(s, n) || (n in s.served && Some(s.served[n]) == s.sent[n].owner)))
    && (s.stage[s.sent[n].slot] == Dropped && s.sent[n].owner.Some? ==> s.sent[n].gen < s.gen[s.sent[n].slot])
  }

  ghost predicate Inv(s: State) {
    Shape(s) && Bound(s) && Phased(s) && Placed(s) && Fresh(s) && forall n | 0 <= n < |s.sent| :: Kept(s, n)
  }

  /** The state probe leaves. */
  ghost predicate Start(s: State) {
    && Shape(s)
    && (forall x | 0 <= x < SLOTS ::
          s.servers[x].None? && s.stage[x] == Free && s.held[x] == {} && s.binds[x] == s.gen[x] == 0)
    && s.masked == AllSlots() && s.phase == Asleep && s.inHand == {}
    && s.sent == [] && s.served == map[] && s.calls == []
  }

  lemma ArriveKeeps(s: State, x: nat)
    requires Inv(s) && x < SLOTS
    ensures Inv(Next(s, Arrive(x)))
  {
    var t := Next(s, Arrive(x));
    forall n | 0 <= n < |t.sent| ensures Kept(t, n) {
      if n < |s.sent| { assert Kept(s, n); }
    }
  }

  lemma LatchRange(s: State, status: set<nat>)
    requires Shape(s) && status <= Latch(s)
    ensures status <= AllSlots()
  {}

  lemma IsrKeeps(s: State, e: Event)
    requires Inv(s) && Enabled(s, e) && (e.Enter? || e.Clear? || e.Call?)
    ensures Inv(Next(s, e))
  {
    var t := Next(s, e);
    if e.Clear? { SlotRange(LowestOf(s.phase.status)); }
    forall n | 0 <= n < |t.sent| ensures Kept(t, n) { assert Kept(s, n); }
  }

  lemma HoldKeeps(s: State, e: Event)
    requires Inv(s) && Enabled(s, e) && (e.Mask? || e.Unmask?)
    ensures Inv(Next(s, e))
  {
    var t := Next(s, e);
    forall n | 0 <= n < |t.sent| ensures Kept(t, n) { assert Kept(s, n); }
  }

  lemma BindKeeps(s: State, e: Event)
    requires Inv(s) && Enabled(s, e) && (e.Store? || e.Drop? || e.Open?)
    ensures Inv(Next(s, e))
  {
    var t := Next(s, e);
    forall n | 0 <= n < |t.sent| ensures Kept(t, n) { assert Kept(s, n); }
  }

  lemma UnbindKeeps(s: State, e: Event)
    requires Inv(s) && Enabled(s, e) && (e.Close? || e.Null?)
    ensures Inv(Next(s, e))
  {
    var t := Next(s, e);
    forall n | 0 <= n < |t.sent| ensures Kept(t, n) { assert Kept(s, n); }
  }

  lemma NextKeeps(s: State, e: Event)
    requires Inv(s)
    ensures Inv(Next(s, e))
  {
    if Enabled(s, e) {
      if e.Arrive? { ArriveKeeps(s, e.x); }
      else if e.Enter? || e.Clear? || e.Call? { IsrKeeps(s, e); }
      else if e.Mask? || e.Unmask? { HoldKeeps(s, e); }
      else if e.Close? || e.Null? { UnbindKeeps(s, e); }
      else { BindKeeps(s, e); }
    }
  }

  lemma {:induction false} RunKeeps(s: State, es: seq<Event>)
    requires Inv(s)
    ensures Inv(Run(s, es))
    decreases |es|
  {
    if es != [] {
      NextKeeps(s, es[0]);
      RunKeeps(Next(s, es[0]), es[1..]);
    }
  }

  lemma StartInv(s: State)
    requires Start(s)
    ensures Inv(s)
  {}

  // ---- no message is lost ----

  lemma CurrentKeeps(s: State, e: Event, n: nat)
    requires Inv(s) && n < |s.sent| && Current(s, n) && e != Close(s.sent[n].slot)
    ensures var t := Next(s, e); n < |t.sent| && t.sent[n] == s.sent[n] && Current(t, n)
  {}

  lemma {:induction false} StaysCurrent(s: State, es: seq<Event>, n: nat)
    requires Inv(s) && n < |s.sent| && Current(s, n) && Close(s.sent[n].slot) !in es
    ensures var t := Run(s, es); Inv(t) && n < |t.sent| && t.sent[n] == s.sent[n] && Current(t, n)
    decreases |es|
  {
    if es != [] {
      CurrentKeeps(s, es[0], n);
      NextKeeps(s, es[0]);
      StaysCurrent(Next(s, es[0]), es[1..], n);
    }
  }

  /** No message is lost.  A message that reaches a slot after its bind returned
      is, after any further events short of the slot's unbind, served by the server
      that was bound when it came, or still latched, or between the slot's CLR and
      its call.  The events may mask the slot, try to bind it again, or catch the
      ISR anywhere. */
  lemma NoMessageLost(s: State, before: seq<Event>, x: nat, after: seq<Event>)
    requires Start(s) && x < SLOTS && Close(x) !in after
    requires Run(s, before).stage[x] == Live
    ensures
      var r := Run(s, before);
      var n, t := |r.sent|, Run(Next(r, Arrive(x)), after);
      && n < |t.sent| && t.sent[n].slot == x
      && (Pending(t, n) || (n in t.served && Some(t.served[n]) == r.servers[x]))
  {
    StartInv(s);
    RunKeeps(s, before);
    var r := Run(s, before);
    NextKeeps(r, Arrive(x));
    StaysCurrent(Next(r, Arrive(x)), after, |r.sent|);
    assert Kept(Run(Next(r, Arrive(x)), after), |r.sent|);
  }

  /** While the ISR is not running, a message still owed to a live slot holds the
      line to gic400 as soon as the slot is unmasked, so masking only delays it. */
  lemma UnmaskRaisesLine(s: State, es: seq<Event>, n: nat)
    requires Start(s)
    ensures var t := Run(s, es);
      Inv(t) && (t.phase.Asleep? && n < |t.sent| && Current(t, n) && n !in t.served ==>
        Line(Next(t, Unmask(t.sent[n].slot))))
  {
    StartInv(s);
    RunKeeps(s, es);
    var t := Run(s, es);
    if t.phase.Asleep? && n < |t.sent| && Current(t, n) && n !in t.served {
      assert Kept(t, n);
      var u := Next(t, Unmask(t.sent[n].slot));
      assert t.sent[n].slot in Latch(u);
    }
  }

  /** The message came after the CLR of the bind its slot is under. */
  ghost predicate SinceClear(s: State, n: nat)
    requires Shape(s) && n < |s.sent| && s.sent[n].slot < SLOTS
  {
    s.sent[n].gen == s.binds[s.sent[n].slot]
  }

  /** Freshness, exactly.  A server about to be called is called for one message at
      least; each of them came after the CLR of the server's bind, unless that bind
      has not written its CLR yet, and then none did. */
  lemma CallsAreFresh(s: State, es: seq<Event>)
    requires Start(s)
    ensures var t := Run(s, es);
      && Inv(t)
      && (t.phase.Cleared? ==> t.inHand != {})
      && (t.phase.Cleared? && t.servers[t.phase.slot].Some? ==>
            forall n | n in t.inHand ::
              t.sent[n].slot == t.phase.slot && (SinceClear(t, n) <==> t.stage[t.phase.slot] != Stored))
  {
    StartInv(s);
    RunKeeps(s, es);
    var t := Run(s, es);
    assert Placed(t);
  }

  /** A message is served at most once: no event takes back or repeats a delivery. */
  lemma ServedOnce(s: State, es: seq<Event>, e: Event)
    requires Start(s)
    ensures var t := Run(s, es);
      && Inv(t)
      && (forall n | n in t.served :: n in Next(t, e).served && Next(t, e).served[n] == t.served[n])
      && (t.phase.Cleared? ==> forall n | n in t.inHand :: n !in t.served)
  {
    StartInv(s);
    RunKeeps(s, es);
    assert Placed(Run(s, es));
  }

  lemma RunOne(s: State, a: Event)
    requires Shape(s)
    ensures Run(s, []) == s && Run(s, [a]) == Next(s, a)
  {
    assert [a][1..] == [];
    assert Run(Next(s, a), []) == Next(s, a);
  }

  lemma RunTwo(s: State, a: Event, b: Event)
    requires Shape(s)
    ensures Run(s, [a, b]) == Next(Next(s, a), b)
  {
    assert [a, b][1..] == [b] && [b][1..] == [];
    assert Run(Next(s, a), [b]) == Run(Next(Next(s, a), b), []);
  }

  lemma {:induction false} RunAppend(s: State, a: seq<Event>, b: seq<Event>)
    requires Shape(s)
    ensures Run(s, a + b) == Run(Run(s, a), b)
    decreases |a|
  {
    if a == [] {
      assert a + b == b;
    } else {
      assert (a + b)[1..] == a[1..] + b;
      RunAppend(Next(s, a[0]), a[1..], b);
    }
  }

  // ---- one pass of the ISR ----

  /** The calls one pass of the demux ISR makes when `status` was read: bound
      slots in ascending order. */
  ghost function Calls(status: set<nat>, servers: seq<Option<Server>>, from: nat): seq<(nat, Server)>
    requires |servers| == SLOTS
    decreases SLOTS - from, status
  {
    if from >= SLOTS then []
    else if from in status && servers[from].Some? then
      [(from, servers[from].value)] + Calls(status, servers, from + 1)
    else Calls(status, servers, from + 1)
  }

  lemma {:induction false} CallsExact(status: set<nat>, servers: seq<Option<Server>>, from: nat)
    requires |servers| == SLOTS
    ensures var r := Calls(status, servers, from);
      && (forall i, j | 0 <= i < j < |r| :: r[i].0 < r[j].0)
      && (forall x, isr :: (x, isr) in r <==> from <= x < SLOTS && x in status && servers[x] == Some(isr))
    decreases SLOTS - from
  {
    if from < SLOTS {
      CallsExact(status, servers, from + 1);
      var t := Calls(status, servers, from + 1);
      forall i | 0 <= i < |t| ensures t[i].0 > from { assert (t[i].0, t[i].1) in t; }
    }
  }

  /** Taking the lowest slot off the snapshot takes the first call off the list. */
  lemma {:induction false} CallsStep(status: set<nat>, servers: seq<Option<Server>>, from: nat, x: nat)
    requires |servers| == SLOTS && Lowest(x, status) && from <= x < SLOTS
    ensures Calls(status, servers, from) ==
      (if servers[x].Some? then [(x, servers[x].value)] else []) + Calls(status - {x}, servers, from)
    decreases SLOTS - from
  {
    if from < x {
      CallsStep(status, servers, from + 1, x);
    } else {
      CallsSame(status, status - {x}, servers, x + 1);
    }
  }

  lemma CallsTaken(sofar: seq<(nat, Server)>, status: set<nat>, servers: seq<Option<Server>>, x: nat)
    requires |servers| == SLOTS && Lowest(x, status) && x < SLOTS
    ensures sofar + Calls(status, servers, 0) ==
      (if servers[x].Some? then sofar + [(x, servers[x].value)] else sofar) + Calls(status - {x}, servers, 0)
  {
    CallsStep(status, servers, 0, x);
  }

  lemma {:induction false} CallsSame(a: set<nat>, b: set<nat>, servers: seq<Option<Server>>, from: nat)
    requires |servers| == SLOTS && forall y | y >= from :: y in a <==> y in b
    ensures Calls(a, servers, from) == Calls(b, servers, from)
    decreases SLOTS - from
  {
    if from < SLOTS { CallsSame(a, b, servers, from + 1); }
  }

  lemma {:induction false} CallsNone(servers: seq<Option<Server>>, from: nat)
    requires |servers| == SLOTS
    ensures Calls({}, servers, from) == []
    decreases SLOTS - from
  {
    if from < SLOTS { CallsNone(servers, from + 1); }
  }

  lemma {:induction false} RunLast(s: State, es: seq<Event>, e: Event)
    requires Shape(s)
    ensures Run(s, es + [e]) == Next(Run(s, es), e)
    decreases |es|
  {
    if es == [] {
      assert Run(Next(s, e), []) == Next(s, e);
    } else {
      assert (es + [e])[1..] == es[1..] + [e];
      RunLast(Next(s, es[0]), es[1..], e);
    }
  }

  /** Message n of slot x: served by isr, or still ahead of this pass. */
  ghost predicate OnItsWay(s: State, x: nat, n: nat, isr: Server)
    requires Shape(s) && x < SLOTS
  {
    || (n in s.served && s.served[n] == isr)
    || (s.servers[x] == Some(isr) &&
          match s.phase
          case Asleep => false
          case Scan(status) => x in status && n in s.held[x]
          case Cleared(y, status) => (x in status && n in s.held[x]) || (x == y && n in s.inHand))
  }

  lemma {:induction false} WayKeeps(s: State, es: seq<Event>, x: nat, n: nat, isr: Server)
    requires Inv(s) && x < SLOTS && OnItsWay(s, x, n, isr) && Enter !in es
    ensures OnItsWay(Run(s, es), x, n, isr)
    decreases |es|
  {
    if es != [] {
      NextKeeps(s, es[0]);
      WayStep(s, es[0], x, n, isr);
      WayKeeps(Next(s, es[0]), es[1..], x, n, isr);
    }
  }

  lemma WayStep(s: State, e: Event, x: nat, n: nat, isr: Server)
    requires Inv(s) && x < SLOTS && OnItsWay(s, x, n, isr) && e != Enter
    ensures OnItsWay(Next(s, e), x, n, isr)
  {}

  /** A pass is complete: whatever arrives or is masked meanwhile, once the ISR that
      entered in state s has returned, every message that was latched for a bound
      slot has been given to the slot's server, masked slots included. */
  lemma PassServesAll(s: State, es: seq<Event>, x: nat, n: nat)
    requires Inv(s) && s.phase.Asleep? && Enter !in es
    requires x < SLOTS && s.servers[x].Some? && n in s.held[x]
    requires Run(Next(s, Enter), es).phase.Asleep?
    ensures var t := Run(Next(s, Enter), es); n in t.served && t.served[n] == s.servers[x].value
  {
    NextKeeps(s, Enter);
    assert x in Latch(s);
    WayKeeps(Next(s, Enter), es, x, n, s.servers[x].value);
  }

  /** What a pass in progress leaves alone. */
  ghost predicate SamePlaces(a: State, b: State) {
    a.servers == b.servers && a.masked == b.masked && a.stage == b.stage
  }

  /** A pass in progress can end: the ISR visits what is left of its snapshot. */
  lemma {:induction false} PassRuns(t: State) returns (es: seq<Event>)
    requires Inv(t) && t.phase.Scan?
    ensures var u := Run(t, es);
      Inv(u) && u.phase.Asleep? && SamePlaces(t, u) && Latch(u) == Latch(t) - t.phase.status
    ensures forall e | e in es :: e.Clear? || e.Call?
    decreases t.phase.status
  {
    var x := LowestOf(t.phase.status);
    ClearEffect(t, x);
    var t1 := Next(t, Clear);
    SlotRange(x);
    CallEffect(t1);
    var t2 := Next(t1, Call);
    RunTwo(t, Clear, Call);
    assert SamePlaces(t, t2) && Latch(t2) == Latch(t) - {x};
    es := [Clear, Call];
    if t2.phase.Scan? {
      var rest := PassRuns(t2);
      RunAppend(t, es, rest);
      es := es + rest;
      assert Latch(t) - {x} - (t.phase.status - {x}) == Latch(t) - t.phase.status;
    } else {
      assert t.phase.status == {x};
    }
  }

  /** Message n came to slot x under `owner` and waits there, nothing else is latched,
      and the line is low. */
  ghost predicate Left(s: State, x: nat, n: nat, owner: Option<Server>)
    requires Shape(s) && x < SLOTS
  {
    && Inv(s) && s.phase.Asleep? && Latch(s) == {x} && x in s.masked && !Line(s)
    && n in s.held[x] && n < |s.sent| && s.sent[n].slot == x && s.sent[n].owner == owner
  }

  lemma LeftMasked(s: State, x: nat)
    requires Inv(s) && s.phase.Asleep? && x < SLOTS && s.stage[x] == Live && Latch(s) == {}
    ensures var t := Run(s, [Mask(x), Arrive(x)]);
      Left(t, x, |s.sent|, s.servers[x]) && t.stage[x] == Live && t.masked == s.masked + {x}
  {
    var m := Next(s, Mask(x));
    NextKeeps(s, Mask(x));
    assert Latch(m) == {};
    ArriveEffect(m, x);
    RunTwo(s, Mask(x), Arrive(x));
  }

  lemma LatchSame(s: State, t: State)
    requires Shape(s) && Shape(t) && s.held == t.held
    ensures Latch(s) == Latch(t)
  {}

  /** Unbinding x and storing its next server leave the message where it is. */
  lemma LeftStays(s: State, e: Event, x: nat, n: nat, owner: Option<Server>)
    requires Shape(s) && x < SLOTS && Left(s, x, n, owner) && Enabled(s, e)
    requires (e.Close? || e.Null? || e.Store?) && e.x == x
    ensures var t := Next(s, e); Left(t, x, n, owner) && t.masked == s.masked
  {
    NextKeeps(s, e);
    LatchSame(s, Next(s, e));
    assert Next(s, e).masked == s.masked;
  }

  lemma LeftUnbound(s: State, x: nat, n: nat, owner: Option<Server>)
    requires Shape(s) && x < SLOTS && Left(s, x, n, owner) && s.stage[x] == Live
    ensures var t := Run(s, [Close(x), Null(x)]);
      Left(t, x, n, owner) && t.stage[x] == Free && t.masked == s.masked
  {
    LeftStays(s, Close(x), x, n, owner);
    LeftStays(Next(s, Close(x)), Null(x), x, n, owner);
    RunTwo(s, Close(x), Null(x));
  }

  lemma LeftRebound(s: State, x: nat, n: nat, owner: Option<Server>, isr: Server)
    requires Shape(s) && x < SLOTS && Left(s, x, n, owner) && s.stage[x] == Free
    ensures var t := Run(s, [Store(x, isr)]);
      Left(t, x, n, owner) && t.stage[x] == Stored && t.servers[x] == Some(isr) && t.masked == s.masked
  {
    LeftStays(s, Store(x, isr), x, n, owner);
    RunOne(s, Store(x, isr));
  }

  /** A message that finds slot x masked at run time and outlives its server's unbind. */
  function Leftover(x: nat, isr: Server): seq<Event> {
    [Mask(x), Arrive(x), Close(x), Null(x), Store(x, isr)]
  }

  lemma LeavesOver(s: State, x: nat, isr: Server)
    requires Inv(s) && s.phase.Asleep? && x < SLOTS && s.stage[x] == Live && Latch(s) == {}
    ensures var t := Run(s, Leftover(x, isr));
      && Left(t, x, |s.sent|, s.servers[x]) && t.stage[x] == Stored && t.servers[x] == Some(isr)
      && t.masked == s.masked + {x}
  {
    var a, b := [Mask(x), Arrive(x)], [Close(x), Null(x)];
    LeftMasked(s, x);
    LeftUnbound(Run(s, a), x, |s.sent|, s.servers[x]);
    LeftRebound(Run(Run(s, a), b), x, |s.sent|, s.servers[x], isr);
    RunAppend(s, a, b);
    RunAppend(s, a + b, [Store(x, isr)]);
    assert a + b + [Store(x, isr)] == Leftover(x, isr);
  }

  lemma RaisesLine(s: State, y: nat)
    requires Inv(s) && y < SLOTS && y !in s.masked
    ensures var t := Next(s, Arrive(y)); Inv(t) && Line(t) && t.servers == s.servers && t.phase == s.phase
    ensures forall x: nat, n: nat | x < SLOTS && n in s.held[x] :: n in Next(s, Arrive(y)).held[x]
    ensures s.sent <= Next(s, Arrive(y)).sent
  {
    ArriveEffect(s, y);
    assert y in Latch(Next(s, Arrive(y)));
  }

  /** In the gap between store and CLR: whatever slot x, a message that reached it under
      one server can be delivered to the next.  It comes while x is masked, so the line
      stays low; it outlives the unbind; then another slot fires between the store and
      the CLR of the next bind, and the pass that follows, however it goes, hands the
      message to the new server.  Such a pass there is. */
  lemma StaleBeforeClear(s: State, x: nat, y: nat, isr: Server) returns (pass: seq<Event>)
    requires Inv(s) && s.phase.Asleep? && x < SLOTS && y < SLOTS && x != y && Latch(s) == {}
    requires s.stage[x] == Live && s.stage[y] == Live && y !in s.masked
    ensures var n, t := |s.sent|, Run(s, Leftover(x, isr));
      var u := Next(t, Arrive(y));
      && !Line(t) && t.stage[x] == Stored && Line(u)
      && n < |u.sent| && u.sent[n].slot == x && u.sent[n].owner == s.servers[x] && s.servers[x].Some?
      && Enter !in pass && Run(Next(u, Enter), pass).phase.Asleep?
      && forall es | Enter !in es && Run(Next(u, Enter), es).phase.Asleep? ::
           var v := Run(Next(u, Enter), es); n in v.served && v.served[n] == isr
  {
    LeavesOver(s, x, isr);
    var n, t := |s.sent|, Run(s, Leftover(x, isr));
    RaisesLine(t, y);
    var u := Next(t, Arrive(y));
    EnterEffect(u);
    assert y in Latch(u);
    pass := PassRuns(Next(u, Enter));
    forall es | Enter !in es && Run(Next(u, Enter), es).phase.Asleep?
      ensures n in Run(Next(u, Enter), es).served && Run(Next(u, Enter), es).served[n] == isr
    {
      PassServesAll(u, es, x, n);
    }
  }

  // ---- masked while nobody is bound ----

  /** A slot without a server, or about to lose it, is masked. */
  ghost predicate Shut(s: State)
    requires Shape(s)
  {
    forall x: nat | x < SLOTS && s.stage[x] in {Free, Closing} :: x in s.masked
  }

  ghost predicate FreeMasked(s: State)
    requires Shape(s)
  {
    forall x: nat | x < SLOTS && s.stage[x] == Free :: x in s.masked
  }

  ghost predicate AlwaysShut(s: State, es: seq<Event>)
    requires Shape(s)
    decreases |es|
  {
    Shut(s) && (es == [] || AlwaysShut(Next(s, es[0]), es[1..]))
  }

  ghost predicate AlwaysFreeMasked(s: State, es: seq<Event>)
    requires Shape(s)
    decreases |es|
  {
    FreeMasked(s) && (es == [] || AlwaysFreeMasked(Next(s, es[0]), es[1..]))
  }

  /** No unmask comes while its slot has no server or is about to lose it. */
  ghost predicate Guarded(s: State, es: seq<Event>)
    requires Shape(s)
    decreases |es|
  {
    es == [] || (GuardedStep(s, es[0]) && Guarded(Next(s, es[0]), es[1..]))
  }

  ghost predicate GuardedStep(s: State, e: Event)
    requires Shape(s)
  {
    e.Unmask? && e.x < SLOTS ==> s.stage[e.x] !in {Free, Closing}
  }

  /** No unmask comes while its slot has no server, and no unbind drops the server of a
      slot that was unmasked after its MASK_SET. */
  ghost predicate FreeGuarded(s: State, es: seq<Event>)
    requires Shape(s)
    decreases |es|
  {
    es == [] || (FreeGuardedStep(s, es[0]) && FreeGuarded(Next(s, es[0]), es[1..]))
  }

  ghost predicate FreeGuardedStep(s: State, e: Event)
    requires Shape(s)
  {
    && (e.Unmask? && e.x < SLOTS ==> s.stage[e.x] != Free)
    && (e.Null? && Enabled(s, e) ==> e.x in s.masked)
  }

  lemma ShutStep(s: State, e: Event)
    requires Shape(s) && Shut(s)
    ensures Shut(Next(s, e)) <==> GuardedStep(s, e)
  {
    if !GuardedStep(s, e) { assert e.x !in Next(s, e).masked; }
  }

  lemma FreeStep(s: State, e: Event)
    requires Shape(s) && FreeMasked(s)
    ensures FreeMasked(Next(s, e)) <==> FreeGuardedStep(s, e)
  {
    if !FreeGuardedStep(s, e) { assert e.x !in Next(s, e).masked && Next(s, e).stage[e.x] == Free; }
  }

  lemma {:induction false} ShutExact(s: State, es: seq<Event>)
    requires Shape(s) && Shut(s)
    ensures AlwaysShut(s, es) <==> Guarded(s, es)
    decreases |es|
  {
    if es != [] {
      ShutStep(s, es[0]);
      if GuardedStep(s, es[0]) { ShutExact(Next(s, es[0]), es[1..]); }
    }
  }

  lemma {:induction false} FreeExact(s: State, es: seq<Event>)
    requires Shape(s) && FreeMasked(s)
    ensures AlwaysFreeMasked(s, es) <==> FreeGuarded(s, es)
    decreases |es|
  {
    if es != [] {
      FreeStep(s, es[0]);
      if FreeGuardedStep(s, es[0]) { FreeExact(Next(s, es[0]), es[1..]); }
    }
  }

  lemma {:induction false} ShutFree(s: State, es: seq<Event>)
    requires Shape(s) && AlwaysShut(s, es)
    ensures AlwaysFreeMasked(s, es)
    decreases |es|
  {
    if es != [] { ShutFree(Next(s, es[0]), es[1..]); }
  }

  /** The mask discipline between single register accesses, exactly.  From probe on, a
      slot without a server or about to lose it stays masked through any events if and
      only if no unmask of it comes then; the slots without one, if and only if no
      unmask comes while there is none and none that came after an unbind's MASK_SET
      is still in force when the server is dropped.  The first is enough for both. */
  lemma MaskedThroughout(s: State, es: seq<Event>)
    requires Start(s)
    ensures AlwaysShut(s, es) <==> Guarded(s, es)
    ensures AlwaysFreeMasked(s, es) <==> FreeGuarded(s, es)
    ensures Guarded(s, es) ==> FreeGuarded(s, es)
  {
    ShutExact(s, es);
    FreeExact(s, es);
    if Guarded(s, es) { ShutFree(s, es); }
  }

  lemma Front(s: State, e: Event, es: seq<Event>)
    requires Shape(s)
    ensures AlwaysFreeMasked(s, [e] + es) <==> FreeMasked(s) && AlwaysFreeMasked(Next(s, e), es)
    ensures Guarded(s, [e] + es) <==> GuardedStep(s, e) && Guarded(Next(s, e), es)
  {
    assert ([e] + es)[1..] == es;
  }

  /** Masked and about to lose its server. */
  lemma NullsMasked(s: State, x: nat)
    requires Shape(s) && FreeMasked(s) && s.phase.Asleep? && x < SLOTS && s.stage[x] == Closing
    ensures AlwaysFreeMasked(s, [Mask(x), Null(x)])
  {
    var m := Next(s, Mask(x));
    FreeStep(s, Mask(x));
    FreeStep(m, Null(x));
    Front(s, Mask(x), [Null(x)]);
    Front(m, Null(x), []);
    assert [Mask(x)] + [Null(x)] == [Mask(x), Null(x)] && [Null(x)] + [] == [Null(x)];
  }

  /** The second does not need the first: an unmask between MASK_SET and the NULL store
      does no harm when a mask follows it in time. */
  lemma UnmaskTakenBack(s: State, x: nat)
    requires Inv(s) && FreeMasked(s) && s.phase.Asleep? && x < SLOTS && s.stage[x] == Live
    ensures var es := [Close(x), Unmask(x), Mask(x), Null(x)];
      AlwaysFreeMasked(s, es) && !Guarded(s, es)
  {
    var c, d := [Unmask(x), Mask(x), Null(x)], [Mask(x), Null(x)];
    var s1 := Next(s, Close(x));
    FreeStep(s, Close(x));
    FreeStep(s1, Unmask(x));
    NullsMasked(Next(s1, Unmask(x)), x);
    Front(s, Close(x), c);
    Front(s1, Unmask(x), d);
    assert [Close(x)] + c == [Close(x), Unmask(x), Mask(x), Null(x)] && [Unmask(x)] + d == c;
  }

  // ---- the atomic view ----

  /** The controller as the layer above sees it. */
  ghost function Seen(s: State, used: set<nat>, gic: map<nat, Server>): Ctrl
    requires Shape(s)
  {
    Ctrl(used, s.servers, s.masked, Latch(s), gic)
  }

  function BindEvents(x: nat, isr: Server): seq<Event> { [Store(x, isr), Drop(x), Open(x)] }
  function UnbindEvents(x: nat): seq<Event> { [Close(x), Null(x)] }

  /** Undisturbed, the register writes of bind and of unbind are the two atomic
      operations of Vectors.dfy, and leave their slot live and free. */
  lemma BindSteps(s: State, x: nat, isr: Server, used: set<nat>, gic: map<nat, Server>)
    requires Inv(s) && Pool(used) && x < SLOTS && s.phase.Asleep? && s.stage[x] == Free
    ensures var t := Run(s, BindEvents(x, isr));
      && Seen(t, used, gic) == Bind(Seen(s, used, gic), x, isr)
      && t.stage == s.stage[x := Live] && t.phase == s.phase
  {
    StoreEffect(s, x, isr);
    var t1 := Next(s, Store(x, isr));
    DropEffect(t1, x);
    OpenEffect(Next(t1, Drop(x)), x);
    RunTwo(s, Store(x, isr), Drop(x));
    RunLast(s, [Store(x, isr), Drop(x)], Open(x));
    assert [Store(x, isr), Drop(x)] + [Open(x)] == BindEvents(x, isr);
    assert s.stage[x := Stored][x := Dropped][x := Live] == s.stage[x := Live];
  }

  lemma StoreEffect(s: State, x: nat, isr: Server)
    requires Shape(s) && Enabled(s, Store(x, isr))
    ensures var t := Next(s, Store(x, isr));
      && t.servers == s.servers[x := Some(isr)] && t.stage == s.stage[x := Stored]
      && t.masked == s.masked && Latch(t) == Latch(s) && t.phase == s.phase
  {
    LatchSame(s, Next(s, Store(x, isr)));
  }

  lemma DropEffect(s: State, x: nat)
    requires Shape(s) && Enabled(s, Drop(x))
    ensures var t := Next(s, Drop(x));
      && t.servers == s.servers && t.stage == s.stage[x := Dropped]
      && t.masked == s.masked && Latch(t) == Latch(s) - {x} && t.phase == s.phase
  {
    assert forall y | 0 <= y < SLOTS && y != x :: Next(s, Drop(x)).held[y] == s.held[y];
  }

  lemma OpenEffect(s: State, x: nat)
    requires Shape(s) && Enabled(s, Open(x))
    ensures var t := Next(s, Open(x));
      && t.servers == s.servers && t.stage == s.stage[x := Live]
      && t.masked == s.masked - {x} && Latch(t) == Latch(s) && t.phase == s.phase
  {
    LatchSame(s, Next(s, Open(x)));
  }

  lemma UnbindSteps(s: State, x: nat, used: set<nat>, gic: map<nat, Server>)
    requires Inv(s) && Pool(used) && x < SLOTS && s.phase.Asleep? && s.stage[x] == Live
    ensures var t := Run(s, UnbindEvents(x));
      && Seen(t, used, gic) == Unbind(Seen(s, used, gic), x)
      && t.stage == s.stage[x := Free] && t.phase == s.phase
  {
    RunTwo(s, Close(x), Null(x));
    assert Latch(Next(Next(s, Close(x)), Null(x))) == Latch(s);
  }

  // ---- what the ISR's events do to the registers ----

  lemma ArriveEffect(s: State, x: nat)
    requires Inv(s) && x < SLOTS
    ensures var t := Next(s, Arrive(x));
      && Inv(t) && Latch(t) == Latch(s) + {x}
      && t.servers == s.servers && t.masked == s.masked && t.phase == s.phase && t.calls == s.calls
  {
    ArriveKeeps(s, x);
  }

  lemma EnterEffect(s: State)
    requires Inv(s) && s.phase.Asleep?
    ensures var t := Next(s, Enter);
      && Inv(t) && Latch(t) == Latch(s) && t.phase == Resume(Latch(s))
      && t.servers == s.servers && t.masked == s.masked && t.calls == s.calls
  {
    IsrKeeps(s, Enter);
  }

  lemma ClearEffect(s: State, x: nat)
    requires Inv(s) && s.phase.Scan? && Lowest(x, s.phase.status)
    ensures var t := Next(s, Clear);
      && Inv(t) && Latch(t) == Latch(s) - {x} && t.phase == Cleared(x, s.phase.status - {x})
      && t.servers == s.servers && t.masked == s.masked && t.calls == s.calls
  {
    LatchRange(s, s.phase.status);
    IsrKeeps(s, Clear);
    assert x == LowestOf(s.phase.status);
  }

  lemma CallEffect(s: State)
    requires Inv(s) && s.phase.Cleared?
    ensures var t := Next(s, Call);
      && Inv(t) && Latch(t) == Latch(s) && t.phase == Resume(s.phase.status)
      && t.servers == s.servers && t.masked == s.masked
      && t.calls == s.calls + (var isr := s.servers[s.phase.slot];
                               if isr.Some? then [(s.phase.slot, isr.value)] else [])
  {
    IsrKeeps(s, Call);
  }
}
