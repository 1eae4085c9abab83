// The functions of one bus, placed one after the other, as the requests BarTree is
// about; and the walk over a tree as the source runs it on the region itself.

module BusSetup {
  import opened Words
  import opened SlotPool
  import opened Resources
  import opened BarAlloc
  import opened BarPlan
  import opened BarSetup
  import T = BarTree

  // ---- one function ----

  /** What pciauto_setup_device learns of a function: its sizing answers, the ROM's 0
      where it has none. */
  datatype Answers = Answers(num: nat, resp: seq<u32>, rom: u32)

  type Card = c: Answers | c.num < |c.resp| witness Answers(0, [0], 0)

  ghost function Fresh(ps: Pools, c: Card): (d: Dev)
    ensures |d.bars| == c.num && |d.regs| == |c.resp|
  {
    Dev(ps, seq(c.num, _ => Absent), c.resp)
  }

  /** The BARs of a card, from these pools. */
  ghost function Placed(ps: Pools, c: Card): (e: Dev)
    ensures |e.bars| == c.num
  {
    SetupShape(Fresh(ps, c), 0, c.num, c.resp);
    Setup(Fresh(ps, c), 0, c.num, c.resp)
  }

  function RomSize(c: Card): u32 { SizeOf(c.rom, ROM_MASK) }

  /** The pools after the ROM of a card. */
  ghost function RomDone(q: Pools, c: Card): Pools {
    if c.rom == 0 then q else Served(q, Mem, RomSize(c))
  }

  /** What it asks of the pool of kind k, and the range it is given. */
  ghost function RomAsks(c: Card, k: Kind): seq<u32> {
    if k == Mem && c.rom != 0 then [RomSize(c)] else []
  }

  ghost function RomRanges(q: Pools, c: Card, k: Kind): seq<Range> {
    if k != Mem || c.rom == 0 || RomSize(c) == 0 then []
    else match BarSetup.Ask(q, Mem, RomSize(c))
      case Some(addr) => [Range(addr, RomSize(c))]
      case None => []
  }

  /** The pools after BARs and ROM. */
  ghost function CardDone(ps: Pools, c: Card): Pools { RomDone(Placed(ps, c).ps, c) }

  /** What one register's answer asks of the pool of kind k. */
  ghost function HeadAsks(resp: u32, ps: Pools, k: Kind): seq<u32> {
    if Implemented(resp) && KindOf(resp, ps) == k then [BarSize(resp)] else []
  }

  /** What the loop asks of the pool of kind k, in order, from register `slot` on. */
  ghost function KindAsks(d: Dev, slot: nat, num: nat, resp: seq<u32>, k: Kind): seq<u32>
    requires num < |resp| == |d.regs| && num == |d.bars|
    decreases num - slot
  {
    if slot >= num then []
    else
      var t := Turn(d, slot, resp);
      HeadAsks(resp[slot], d.ps, k) + KindAsks(t.0, t.1, num, resp, k)
  }

  /** The ranges of kind k a card's BARs hold, from register `slot` on. */
  ghost function BarRanges(bars: seq<Bar>, slot: nat, k: Kind): seq<Range>
    decreases |bars| - slot
  {
    if slot >= |bars| then []
    else
      (if bars[slot].Bar? && bars[slot].kind == k && bars[slot].size > 0
       then [Range(bars[slot].addr, bars[slot].size)] else [])
      + BarRanges(bars, slot + 1, k)
  }

  /** ... BARs and ROM of a card. */
  ghost function CardRanges(ps: Pools, c: Card, k: Kind): seq<Range> {
    BarRanges(Placed(ps, c).bars, 0, k) + RomRanges(Placed(ps, c).ps, c, k)
  }

  ghost function CardAsks(ps: Pools, c: Card, k: Kind): seq<u32> {
    KindAsks(Fresh(ps, c), 0, c.num, c.resp, k) + RomAsks(c, k)
  }

  /** They are exactly what the BARs of that kind from there on hold. */
  lemma {:induction false} BarRangesExact(bars: seq<Bar>, slot: nat, k: Kind, r: Range)
    ensures r in BarRanges(bars, slot, k) <==>
      exists i :: slot <= i < |bars| && bars[i].Bar? && bars[i].kind == k && bars[i].size > 0
                  && r == Range(bars[i].addr, bars[i].size)
    decreases |bars| - slot
  {
    if slot < |bars| { BarRangesExact(bars, slot + 1, k, r); }
  }

  /** The ROM, from the bits of its answer: if that is not 0, its size is asked of the
      memory region, and it holds a range exactly if the region grants some bytes. */
  lemma RomExact(q: Pools, c: Card)
    ensures var size, m := Negated(c.rom, 2), q.mem;
      if c.rom != 0 && m.Some? && Grant(m.value, size).Some? then
        && RomDone(q, c) == q.(mem := Some(After(m.value, size)))
        && RomRanges(q, c, Mem) == if size > 0 then [Range(Grant(m.value, size).value, size)] else []
      else RomDone(q, c) == q && RomRanges(q, c, Mem) == []
  {
    RomBits(c.rom);
  }

  /** g at the end of the open stretch. */
  ghost function Extended(done: seq<Stretch>, g: seq<Range>): seq<Stretch> {
    if done == [] then done else done[|done| - 1 := done[|done| - 1] + g]
  }

  lemma ExtendedTwice(done: seq<Stretch>, a: seq<Range>, b: seq<Range>)
    ensures Extended(Extended(done, a), b) == Extended(done, a + b)
    ensures Extended(done, []) == done
  {
    if done != [] {
      var last := done[|done| - 1];
      assert (last + a) + b == last + (a + b);
      assert last + [] == last;
    }
  }

  lemma {:induction false} AsksAppend(s: T.State, a: seq<u32>, b: seq<u32>)
    ensures T.Asks(s, a + b) == T.Asks(T.Asks(s, a), b)
    decreases |a|
  {
    if a == [] {
      assert a + b == b;
    } else {
      assert (a + b)[1..] == a[1..] + b;
      AsksAppend(T.Ask(s, a[0]), a[1..], b);
    }
  }

  /** Registers that hold nothing. */
  lemma {:induction false} NoRanges(bars: seq<Bar>, i: nat, j: nat, k: Kind)
    requires i <= j <= |bars| && forall m | i <= m < j :: bars[m] == Absent
    ensures BarRanges(bars, i, k) == BarRanges(bars, j, k)
    decreases j - i
  {
    if i < j { NoRanges(bars, i + 1, j, k); }
  }

  /** The state of the region of kind k before and after a function. */
  ghost predicate Mirrors(s: T.State, ps: Pools, k: Kind) {
    BarSetup.Pool(ps, k) == Some(s.r) && s.done != []
  }

  lemma AskMirrors(s: T.State, ps: Pools, k: Kind, size: u32)
    requires Mirrors(s, ps, k)
    ensures var t := T.Ask(s, size);
      && Mirrors(t, Served(ps, k, size), k)
      && t.done == Extended(s.done,
           if BarSetup.Ask(ps, k, size).Some? && size > 0 then [Range(BarSetup.Ask(ps, k, size).value, size)] else [])
      && t.wins == s.wins
  {
    ExtendedTwice(s.done, [], []);
  }

  /** The BAR loop, seen from one region, is the requests it makes there: what they
      are granted is what its BARs hold. */
  lemma {:induction false} LoopMirrors(s: T.State, d: Dev, slot: nat, num: nat, resp: seq<u32>, k: Kind)
    requires num < |resp| == |d.regs| && num == |d.bars| && Mirrors(s, d.ps, k)
    requires forall i | slot <= i < num :: d.bars[i] == Absent
    ensures var e, t := Setup(d, slot, num, resp), T.Asks(s, KindAsks(d, slot, num, resp, k));
      && |e.bars| == num && Mirrors(t, e.ps, k)
      && t.done == Extended(s.done, BarRanges(e.bars, slot, k)) && t.wins == s.wins
    decreases num - slot
  {
    SetupShape(d, slot, num, resp);
    ExtendedTwice(s.done, [], []);
    if slot < num {
      var u := Turn(d, slot, resp);
      var asks := HeadAsks(resp[slot], d.ps, k);
      var s1 := T.Asks(s, asks);
      TurnMirrors(s, d, slot, resp, k);
      LoopMirrors(s1, u.0, u.1, num, resp, k);
      AsksAppend(s, asks, KindAsks(u.0, u.1, num, resp, k));
      LaterRanges(d, slot, num, resp, k);
      ExtendedTwice(s.done, TurnRanges(d, slot, resp, k), BarRanges(Setup(d, slot, num, resp).bars, u.1, k));
    }
  }

  /** What a turn places in the region of kind k. */
  ghost function TurnRanges(d: Dev, slot: nat, resp: seq<u32>, k: Kind): seq<Range>
    requires slot < |resp|
  {
    var size := BarSize(resp[slot]);
    if Implemented(resp[slot]) && KindOf(resp[slot], d.ps) == k && BarSetup.Ask(d.ps, k, size).Some? && size > 0
    then [Range(BarSetup.Ask(d.ps, k, size).value, size)] else []
  }

  lemma TurnMirrors(s: T.State, d: Dev, slot: nat, resp: seq<u32>, k: Kind)
    requires slot + 1 < |resp| == |d.regs| && slot < |d.bars| && Mirrors(s, d.ps, k)
    ensures var t := T.Asks(s, HeadAsks(resp[slot], d.ps, k));
      && Mirrors(t, Turn(d, slot, resp).0.ps, k)
      && t.done == Extended(s.done, TurnRanges(d, slot, resp, k)) && t.wins == s.wins
  {
    ExtendedTwice(s.done, [], []);
    if Implemented(resp[slot]) && KindOf(resp[slot], d.ps) == k {
      var size := BarSize(resp[slot]);
      AskMirrors(s, d.ps, k, size);
      assert [size][1..] == [];
      assert T.Asks(T.Ask(s, size), []) == T.Ask(s, size);
      assert T.Asks(s, [size]) == T.Ask(s, size);
    } else {
      assert T.Asks(s, []) == s;
    }
  }

  lemma LaterRanges(d: Dev, slot: nat, num: nat, resp: seq<u32>, k: Kind)
    requires slot < num < |resp| == |d.regs| && num == |d.bars|
    requires forall i | slot <= i < num :: d.bars[i] == Absent
    ensures var u, e := Turn(d, slot, resp), Setup(d, slot, num, resp);
      |e.bars| == num && BarRanges(e.bars, slot, k) == TurnRanges(d, slot, resp, k) + BarRanges(e.bars, u.1, k)
    ensures forall i | Turn(d, slot, resp).1 <= i < num :: Turn(d, slot, resp).0.bars[i] == Absent
  {
    var u, e := Turn(d, slot, resp), Setup(d, slot, num, resp);
    SetupShape(d, slot, num, resp);
    SetupKeepsBelow(u.0, u.1, num, resp, slot);
    if u.1 == slot + 2 {
      if slot + 1 < num {
        SetupKeepsBelow(u.0, u.1, num, resp, slot + 1);
        NoRanges(e.bars, slot + 1, slot + 2, k);
      }
    }
  }

  lemma BarsMirror(s: T.State, ps: Pools, c: Card, k: Kind)
    requires Mirrors(s, ps, k)
    ensures var t := T.Asks(s, KindAsks(Fresh(ps, c), 0, c.num, c.resp, k));
      && Mirrors(t, Placed(ps, c).ps, k)
      && t.done == Extended(s.done, BarRanges(Placed(ps, c).bars, 0, k)) && t.wins == s.wins
  {
    LoopMirrors(s, Fresh(ps, c), 0, c.num, c.resp, k);
  }

  lemma RomMirrors(s: T.State, q: Pools, c: Card, k: Kind)
    requires Mirrors(s, q, k)
    ensures var t := T.Asks(s, RomAsks(c, k));
      Mirrors(t, RomDone(q, c), k) && t.done == Extended(s.done, RomRanges(q, c, k)) && t.wins == s.wins
  {
    ExtendedTwice(s.done, [], []);
    var rom := RomAsks(c, k);
    if k == Mem && c.rom != 0 {
      AskMirrors(s, q, Mem, RomSize(c));
      assert rom[1..] == [];
      assert T.Asks(T.Ask(s, RomSize(c)), []) == T.Ask(s, RomSize(c));
      assert T.Asks(s, rom) == T.Ask(s, RomSize(c));
    } else {
      assert T.Asks(s, rom) == s;
    }
  }

  /** A whole function, ROM included, is a node of the tree that makes its requests:
      the region ends up the same, and what is granted is what BARs and ROM hold. */
  lemma CardMirrors(s: T.State, ps: Pools, c: Card, k: Kind)
    requires Mirrors(s, ps, k)
    ensures var t := T.Configure(s, T.Device(CardAsks(ps, c, k)));
      && Mirrors(t, CardDone(ps, c), k)
      && t.done == Extended(s.done, CardRanges(ps, c, k)) && t.wins == s.wins
  {
    var asks := KindAsks(Fresh(ps, c), 0, c.num, c.resp, k);
    var t, q := T.Asks(s, asks), Placed(ps, c).ps;
    BarsMirror(s, ps, c, k);
    RomMirrors(t, q, c, k);
    AsksAppend(s, asks, RomAsks(c, k));
    ExtendedTwice(s.done, BarRanges(Placed(ps, c).bars, 0, k), RomRanges(q, c, k));
  }

  // ---- a tree of functions ----

  /** A function on a bus, and what lies behind it if it is a bridge. */
  datatype CardNode =
    | PlainCard(card: Card)
    | BridgeCard(card: Card, below: seq<CardNode>)

  /** The window written for a region, type bits aside, and the stretches behind it. */
  datatype CardWin = CardWin(base: nat, limit: nat, behind: seq<Stretch>)

  /** The pools, and for one of them what the BARs and ROMs placed between two resets
      hold, the open stretch last, and the windows. */
  datatype Seen = Seen(ps: Pools, done: seq<Stretch>, wins: seq<CardWin>)

  const IO_GRAIN: u32 := 0x1000

  /** Every region there is rounded to its bridge granularity. */
  function RoundedPools(ps: Pools): Pools {
    Pools(if ps.mem.None? then None else Some(Rounded(ps.mem.value)),
          if ps.pre.None? then None else Some(Rounded(ps.pre.value)),
          if ps.io.None? then None else Some(ps.io.value.(lower := Aligned(ps.io.value.lower, IO_GRAIN))))
  }

  /** pciauto_config_init */
  function ResetPools(ps: Pools): Pools {
    Pools(if ps.mem.None? then None else Some(Reset(ps.mem.value)),
          if ps.pre.None? then None else Some(Reset(ps.pre.value)),
          if ps.io.None? then None else Some(Reset(ps.io.value)))
  }

  /** Memory is rounded to 1 MiB and I/O to 4 KiB; a reset goes back to the start, or to
      4 KiB if that is higher.  Regions come and go with neither. */
  lemma PoolsExact(ps: Pools, k: Kind)
    ensures var p, q, z := BarSetup.Pool(ps, k), BarSetup.Pool(RoundedPools(ps), k), BarSetup.Pool(ResetPools(ps), k);
      && (p.Some? <==> q.Some?) && (p.Some? <==> z.Some?)
      && (p.Some? ==>
            && q == Some(p.value.(lower := q.value.lower))
            && Pos(q.value) == Up(Pos(p.value), if k == Io then 0x1000 else 0x10_0000)
            && z == Some(p.value.(lower := if p.value.start < 0x1000 then 0x1000 else p.value.start)))
  {
    if p: Region :| BarSetup.Pool(ps, k) == Some(p) {
      Powers();
      Pow2IsPow2(12);
      RoundedIsUp(p);
      AlignedIsUp(p, IO_GRAIN);
    }
  }

  ghost function CardPlaced(s: Seen, c: Card, k: Kind): Seen {
    Seen(CardDone(s.ps, c), Extended(s.done, CardRanges(s.ps, c, k)), s.wins)
  }

  ghost function CardsRounded(s: Seen): Seen { s.(ps := RoundedPools(s.ps)) }

  ghost function CardsRestarted(s: Seen): Seen { s.(ps := ResetPools(s.ps), done := s.done + [[]]) }

  /** Postscan of a bridge met after `at` stretches, its own BARs placed at `open`. */
  ghost function CardsClosed(at: nat, open: Seen, inner: Seen, k: Kind): Seen
    requires at <= |inner.done|
  {
    var t := CardsRounded(inner);
    var a, b := BarSetup.Pool(RoundedPools(open.ps), k), BarSetup.Pool(t.ps, k);
    if k == Io || a.None? || b.None? then t
    else t.(wins := inner.wins + [CardWin(BaseReg(a.value), LimitReg(b.value), inner.done[at..])])
  }

  /** pciauto_config_device: BARs and ROM, and for a bridge what is behind it. */
  ghost function ConfigureCard(s: Seen, n: CardNode, k: Kind): (t: Seen)
    ensures |t.done| >= |s.done|
    decreases n, 0
  {
    var open := CardPlaced(s, n.card, k);
    if n.PlainCard? then open
    else CardsClosed(|s.done|, open, ScanCards(CardsRounded(open), n.below, k), k)
  }

  ghost function RestCards(s: Seen, bus: seq<CardNode>, i: nat, k: Kind): (t: Seen)
    requires i <= |bus|
    ensures |t.done| >= |s.done|
    decreases bus, 1, |bus| - i
  {
    if i == |bus| then s else RestCards(ConfigureCard(s, bus[i], k), bus, i + 1, k)
  }

  ghost function ScanCards(s: Seen, bus: seq<CardNode>, k: Kind): (t: Seen)
    ensures |t.done| > |s.done|
    decreases bus, 2
  {
    RestCards(CardsRestarted(s), bus, 0, k)
  }

  // What each function asks of the region of kind k when the scan comes to it.
  ghost function NodeOf(s: Seen, n: CardNode, k: Kind): T.Node
    decreases n, 0
  {
    var asks := CardAsks(s.ps, n.card, k);
    if n.PlainCard? then T.Device(asks)
    else T.Bridge(asks, NodesOf(CardsRestarted(CardsRounded(CardPlaced(s, n.card, k))), n.below, 0, k))
  }

  ghost function NodesOf(s: Seen, bus: seq<CardNode>, i: nat, k: Kind): (ns: seq<T.Node>)
    requires i <= |bus|
    ensures |ns| == |bus| - i
    decreases bus, 1, |bus| - i
  {
    if i == |bus| then [] else [NodeOf(s, bus[i], k)] + NodesOf(ConfigureCard(s, bus[i], k), bus, i + 1, k)
  }

  /** The region of kind k, its stretches and its windows are the same. */
  ghost predicate Agrees(s: T.State, e: Seen, k: Kind) {
    && Mirrors(s, e.ps, k) && s.done == e.done && |s.wins| == |e.wins|
    && forall j | 0 <= j < |s.wins| :: SameWindow(s.wins[j], e.wins[j])
  }

  ghost predicate SameWindow(w: T.Win, v: CardWin) {
    w.base == v.base && w.limit == v.limit && w.behind == v.behind
  }

  lemma {:induction false} RestTail(s: T.State, n: T.Node, bus: seq<T.Node>, i: nat)
    requires i <= |bus|
    ensures T.Rest(s, [n] + bus, i + 1) == T.Rest(s, bus, i)
    decreases |bus| - i
  {
    if i < |bus| {
      assert ([n] + bus)[i + 1] == bus[i];
      RestTail(T.Configure(s, bus[i]), n, bus, i + 1);
    }
  }

  lemma CloseAgrees(s: T.State, e: Seen, open: T.State, o: Seen, inner: T.State, i: Seen, k: Kind)
    requires k != Io && Agrees(open, o, k) && Agrees(inner, i, k)
    requires |s.done| == |e.done| <= |inner.done| && |s.plan| <= |inner.plan|
    ensures Agrees(T.Closed(s, open, inner), CardsClosed(|e.done|, o, i, k), k)
  {
    var t, u := T.Closed(s, open, inner), CardsClosed(|e.done|, o, i, k);
    assert SameWindow(t.wins[|inner.wins|], u.wins[|i.wins|]);
  }

  lemma {:induction false} NodeAgrees(s: T.State, e: Seen, n: CardNode, k: Kind)
    requires Agrees(s, e, k) && k != Io
    ensures Agrees(T.Configure(s, NodeOf(e, n, k)), ConfigureCard(e, n, k), k)
    decreases n, 0
  {
    CardMirrors(s, e.ps, n.card, k);
    if n.BridgeCard? {
      var asks := CardAsks(e.ps, n.card, k);
      var open, o := T.Asks(s, asks), CardPlaced(e, n.card, k);
      assert T.Configure(s, T.Device(asks)) == open;
      var mid, m := T.RoundUp(open), CardsRounded(o);
      var below := NodesOf(CardsRestarted(m), n.below, 0, k);
      RestAgrees(T.Restart(mid), CardsRestarted(m), n.below, 0, k);
      CloseAgrees(s, e, open, o, T.Scan(mid, below), ScanCards(m, n.below, k), k);
    }
  }

  lemma {:induction false} RestAgrees(s: T.State, e: Seen, bus: seq<CardNode>, i: nat, k: Kind)
    requires Agrees(s, e, k) && k != Io && i <= |bus|
    ensures Agrees(T.Rest(s, NodesOf(e, bus, i, k), 0), RestCards(e, bus, i, k), k)
    decreases bus, 1, |bus| - i
  {
    if i < |bus| {
      NodeAgrees(s, e, bus[i], k);
      var n, f := NodeOf(e, bus[i], k), ConfigureCard(e, bus[i], k);
      var t := T.Configure(s, n);
      RestAgrees(t, f, bus, i + 1, k);
      RestTail(t, n, NodesOf(f, bus, i + 1, k), 0);
    }
  }

  /** The scan of the root bus and all below it, from these pools. */
  ghost function WholeCards(ps: Pools, bus: seq<CardNode>, k: Kind): (t: Seen)
    ensures t.done != []
  {
    ScanCards(Seen(ps, [], []), bus, k)
  }

  /** What it asks of the region of kind k, as a tree. */
  ghost function TreeOf(ps: Pools, bus: seq<CardNode>, k: Kind): seq<T.Node> {
    NodesOf(CardsRestarted(Seen(ps, [], [])), bus, 0, k)
  }

  /** Over a whole tree of functions, what the BARs and ROMs of one kind hold, bus by
      bus, and the windows over them, are those of the tree of their requests. */
  lemma CardTreeMirrors(ps: Pools, bus: seq<CardNode>, k: Kind)
    requires k != Io && BarSetup.Pool(ps, k).Some?
    ensures Agrees(T.Whole(BarSetup.Pool(ps, k).value, TreeOf(ps, bus, k)), WholeCards(ps, bus, k), k)
  {
    var s, e := T.State(BarSetup.Pool(ps, k).value, [], [], []), Seen(ps, [], []);
    RestAgrees(T.Restart(s), CardsRestarted(e), bus, 0, k);
  }

  // ---- what its functions answer ----

  /** What a function asks of the region of kind k can be trusted, see WantOk; `like`
      are pools that have the same regions. */
  ghost predicate CardFit(like: Pools, c: Card, k: Kind, aligned: bool, fits: bool)
    requires BarSetup.Pool(like, k).Some?
  {
    var r := BarSetup.Pool(like, k).value;
    && (forall i | 0 <= i < c.num && Implemented(c.resp[i]) && KindOf(c.resp[i], like) == k ::
          WantOk(r, BarSize(c.resp[i]), aligned, fits))
    && (k == Mem && c.rom != 0 ==> WantOk(r, RomSize(c), aligned, fits))
  }

  ghost predicate NodeFit(like: Pools, n: CardNode, k: Kind, aligned: bool, fits: bool)
    requires BarSetup.Pool(like, k).Some?
    decreases n, 0
  {
    CardFit(like, n.card, k, aligned, fits) && (n.BridgeCard? ==> BusFit(like, n.below, k, aligned, fits))
  }

  ghost predicate BusFit(like: Pools, bus: seq<CardNode>, k: Kind, aligned: bool, fits: bool)
    requires BarSetup.Pool(like, k).Some?
    decreases bus, 1
  {
    forall i | 0 <= i < |bus| :: NodeFit(like, bus[i], k, aligned, fits)
  }

  ghost predicate Alike(a: Pools, b: Pools) {
    forall k ::
      && (BarSetup.Pool(a, k).Some? <==> BarSetup.Pool(b, k).Some?)
      && (BarSetup.Pool(a, k).Some? ==> BarSetup.Pool(a, k).value.start == BarSetup.Pool(b, k).value.start)
  }

  lemma AlikeKinds(a: Pools, b: Pools, resp: u32)
    requires Alike(a, b)
    ensures KindOf(resp, a) == KindOf(resp, b)
  {
    assert BarSetup.Pool(a, Pre).Some? <==> BarSetup.Pool(b, Pre).Some?;
  }

  lemma TurnAlike(like: Pools, d: Dev, slot: nat, resp: seq<u32>)
    requires slot + 1 < |resp| == |d.regs| && slot < |d.bars| && Alike(like, d.ps)
    ensures Alike(like, Turn(d, slot, resp).0.ps)
  {}

  /** Only a placed 64-bit BAR takes two registers. */
  lemma TurnSteps(d: Dev, slot: nat, resp: seq<u32>)
    requires slot + 1 < |resp| == |d.regs| && slot < |d.bars|
    ensures var next := Turn(d, slot, resp).1;
      next == slot + 1 || (next == slot + 2 && Implemented(resp[slot]) && Is64(resp[slot]))
  {}

  lemma {:induction false} LoopAlike(like: Pools, d: Dev, slot: nat, num: nat, resp: seq<u32>)
    requires num < |resp| == |d.regs| && num == |d.bars| && Alike(like, d.ps)
    ensures Alike(like, Setup(d, slot, num, resp).ps)
    decreases num - slot
  {
    if slot < num {
      TurnAlike(like, d, slot, resp);
      var t := Turn(d, slot, resp);
      LoopAlike(like, t.0, t.1, num, resp);
    }
  }

  lemma CardAlike(like: Pools, s: Seen, c: Card, k: Kind)
    requires Alike(like, s.ps)
    ensures Alike(like, CardPlaced(s, c, k).ps)
  {
    LoopAlike(like, Fresh(s.ps, c), 0, c.num, c.resp);
  }

  lemma RoundsAlike(like: Pools, s: Seen)
    requires Alike(like, s.ps)
    ensures Alike(like, CardsRounded(s).ps) && Alike(like, CardsRestarted(s).ps)
  {
    forall k ensures
      && (BarSetup.Pool(CardsRounded(s).ps, k).Some? <==> BarSetup.Pool(s.ps, k).Some?)
      && (BarSetup.Pool(CardsRestarted(s).ps, k).Some? <==> BarSetup.Pool(s.ps, k).Some?)
    {}
  }

  lemma {:induction false} ConfigureAlike(like: Pools, s: Seen, n: CardNode, k: Kind)
    requires Alike(like, s.ps)
    ensures Alike(like, ConfigureCard(s, n, k).ps)
    decreases n, 0
  {
    var open := CardPlaced(s, n.card, k);
    CardAlike(like, s, n.card, k);
    if n.BridgeCard? {
      RoundsAlike(like, open);
      RoundsAlike(like, CardsRounded(open));
      RestAlike(like, CardsRestarted(CardsRounded(open)), n.below, 0, k);
      RoundsAlike(like, ScanCards(CardsRounded(open), n.below, k));
    }
  }

  lemma {:induction false} RestAlike(like: Pools, s: Seen, bus: seq<CardNode>, i: nat, k: Kind)
    requires Alike(like, s.ps) && i <= |bus|
    ensures Alike(like, RestCards(s, bus, i, k).ps)
    decreases bus, 1, |bus| - i
  {
    if i < |bus| {
      ConfigureAlike(like, s, bus[i], k);
      RestAlike(like, ConfigureCard(s, bus[i], k), bus, i + 1, k);
    }
  }

  lemma {:induction false} LoopFit(like: Pools, d: Dev, slot: nat, c: Card, k: Kind, aligned: bool, fits: bool)
    requires c.num < |c.resp| == |d.regs| && c.num == |d.bars| && Alike(like, d.ps)
    requires BarSetup.Pool(like, k).Some? && CardFit(like, c, k, aligned, fits)
    ensures T.SizesOk(BarSetup.Pool(like, k).value, KindAsks(d, slot, c.num, c.resp, k), aligned, fits)
    decreases c.num - slot
  {
    if slot < c.num {
      AlikeKinds(like, d.ps, c.resp[slot]);
      TurnAlike(like, d, slot, c.resp);
      var t := Turn(d, slot, c.resp);
      LoopFit(like, t.0, t.1, c, k, aligned, fits);
    }
  }

  lemma {:induction false} NodeOfOk(like: Pools, s: Seen, n: CardNode, k: Kind, aligned: bool, fits: bool)
    requires Alike(like, s.ps) && BarSetup.Pool(like, k).Some? && NodeFit(like, n, k, aligned, fits)
    ensures T.NodeOk(BarSetup.Pool(like, k).value, NodeOf(s, n, k), aligned, fits)
    decreases n, 0
  {
    LoopFit(like, Fresh(s.ps, n.card), 0, n.card, k, aligned, fits);
    if n.BridgeCard? {
      var open := CardPlaced(s, n.card, k);
      CardAlike(like, s, n.card, k);
      RoundsAlike(like, open);
      RoundsAlike(like, CardsRounded(open));
      NodesOfOk(like, CardsRestarted(CardsRounded(open)), n.below, 0, k, aligned, fits);
    }
  }

  lemma {:induction false} NodesOfOk(like: Pools, s: Seen, bus: seq<CardNode>, i: nat, k: Kind, aligned: bool,
                                     fits: bool)
    requires Alike(like, s.ps) && BarSetup.Pool(like, k).Some? && BusFit(like, bus, k, aligned, fits) && i <= |bus|
    ensures T.BusOk(BarSetup.Pool(like, k).value, NodesOf(s, bus, i, k), aligned, fits)
    decreases bus, 1, |bus| - i
  {
    if i < |bus| {
      NodeOfOk(like, s, bus[i], k, aligned, fits);
      ConfigureAlike(like, s, bus[i], k);
      NodesOfOk(like, ConfigureCard(s, bus[i], k), bus, i + 1, k, aligned, fits);
      OneMoreOk(BarSetup.Pool(like, k).value, NodeOf(s, bus[i], k),
                NodesOf(ConfigureCard(s, bus[i], k), bus, i + 1, k), aligned, fits);
    }
  }

  lemma OneMoreOk(r: Region, n: T.Node, ns: seq<T.Node>, aligned: bool, fits: bool)
    requires T.NodeOk(r, n, aligned, fits) && T.BusOk(r, ns, aligned, fits)
    ensures T.BusOk(r, [n] + ns, aligned, fits)
  {}

  // ---- whole trees of functions ----

  ghost predicate CardTreeOk(ps: Pools, bus: seq<CardNode>, k: Kind, aligned: bool, fits: bool) {
    && k != Io && BarSetup.Pool(ps, k).Some? && BoundsOk(BarSetup.Pool(ps, k).value, aligned)
    && BusFit(ps, bus, k, aligned, fits)
  }

  lemma CardTreeFollows(ps: Pools, bus: seq<CardNode>, k: Kind, aligned: bool, fits: bool)
    requires CardTreeOk(ps, bus, k, aligned, fits)
    ensures var r := BarSetup.Pool(ps, k).value;
      && T.TreeOk(r, TreeOf(ps, bus, k), aligned, fits)
      && Agrees(T.Whole(r, TreeOf(ps, bus, k)), WholeCards(ps, bus, k), k)
      && T.Good(r, T.Whole(r, TreeOf(ps, bus, k)), aligned, fits)
  {
    RoundsAlike(ps, Seen(ps, [], []));
    NodesOfOk(ps, CardsRestarted(Seen(ps, [], [])), bus, 0, k, aligned, fits);
    CardTreeMirrors(ps, bus, k);
    T.TreeFollows(BarSetup.Pool(ps, k).value, TreeOf(ps, bus, k), aligned, fits);
  }

  /** All the BARs and ROMs of one kind placed between two resets, on however many
      buses: aligned to their sizes, inside the region, in the order they were placed,
      and so disjoint. */
  lemma CardTreePacked(ps: Pools, bus: seq<CardNode>, k: Kind, j: nat)
    requires CardTreeOk(ps, bus, k, false, false) && j < |WholeCards(ps, bus, k).done|
    ensures StretchOk(BarSetup.Pool(ps, k).value, WholeCards(ps, bus, k).done[j])
  {
    CardTreeFollows(ps, bus, k, false, false);
    var r := BarSetup.Pool(ps, k).value;
    T.StretchesOk(r, T.Whole(r, TreeOf(ps, bus, k)), false, false);
  }

  /** Over a whole tree of functions, exactly: in an aligned region no two BARs or ROMs
      of one kind overlap if and only if all of them were placed between the same two
      resets. */
  lemma CardTreeDisjointExact(ps: Pools, bus: seq<CardNode>, k: Kind)
    requires CardTreeOk(ps, bus, k, true, false)
    ensures T.AllDisjoint(WholeCards(ps, bus, k).done) <==> T.OneGrants(WholeCards(ps, bus, k).done)
  {
    CardTreeFollows(ps, bus, k, true, false);
    T.TreeDisjointExact(BarSetup.Pool(ps, k).value, TreeOf(ps, bus, k));
  }

  lemma {:induction false} PlainStays(s: Seen, bus: seq<CardNode>, i: nat, k: Kind)
    requires i <= |bus| && forall j | 0 <= j < |bus| :: bus[j].PlainCard?
    ensures |RestCards(s, bus, i, k).done| == |s.done|
    decreases |bus| - i
  {
    if i < |bus| { PlainStays(ConfigureCard(s, bus[i], k), bus, i + 1, k); }
  }

  /** A bus of plain functions, with no bridge among them: all their BARs and ROMs of
      one kind are disjoint. */
  lemma BusDisjoint(ps: Pools, bus: seq<CardNode>, k: Kind)
    requires CardTreeOk(ps, bus, k, false, false) && forall j | 0 <= j < |bus| :: bus[j].PlainCard?
    ensures var t := WholeCards(ps, bus, k);
      |t.done| == 1 && StretchOk(BarSetup.Pool(ps, k).value, t.done[0]) && T.AllDisjoint(t.done)
  {
    PlainStays(CardsRestarted(Seen(ps, [], [])), bus, 0, k);
    CardTreePacked(ps, bus, k, 0);
  }

  /** ... and those of two regions that share no address are disjoint too. */
  lemma KindsDisjoint(a: Region, b: Region, g: Stretch, h: Stretch, i: nat, j: nat)
    requires StretchOk(a, g) && StretchOk(b, h) && i < |g| && j < |h|
    requires End(a) <= b.start || End(b) <= a.start
    ensures T.Disjoint(g[i], h[j])
  {
    assert Within(g[i].addr, g[i].size, a.start, End(a)) && Within(h[j].addr, h[j].size, b.start, End(b));
  }

  // ---- what the functions answer decides ----

  /** The upper half of a 64-bit BAR answers nothing or all-ones, as one below 4 GiB
      does; so a BAR that found no room is not read as a second one. */
  ghost predicate Steady(c: Card) {
    forall i | 0 <= i && i + 1 < c.num && Implemented(c.resp[i]) && Is64(c.resp[i]) :: !Implemented(c.resp[i + 1])
  }

  /** What the registers of a card from `slot` on ask of the region of kind k. */
  ghost function Wanted(like: Pools, c: Card, slot: nat, k: Kind): seq<u32>
    decreases c.num - slot
  {
    if slot >= c.num then []
    else
      HeadAsks(c.resp[slot], like, k) + Wanted(like, c, slot + 1, k)
  }

  ghost function CardWants(like: Pools, c: Card, k: Kind): seq<u32> {
    Wanted(like, c, 0, k) + RomAsks(c, k)
  }

  // The tree of requests, from the answers and which regions there are alone.
  ghost function PlanNode(like: Pools, n: CardNode, k: Kind): T.Node
    decreases n, 0
  {
    var wants := CardWants(like, n.card, k);
    if n.PlainCard? then T.Device(wants) else T.Bridge(wants, PlanBus(like, n.below, 0, k))
  }

  ghost function PlanBus(like: Pools, bus: seq<CardNode>, i: nat, k: Kind): (ns: seq<T.Node>)
    requires i <= |bus|
    decreases bus, 1, |bus| - i
  {
    if i == |bus| then [] else [PlanNode(like, bus[i], k)] + PlanBus(like, bus, i + 1, k)
  }

  ghost predicate NodeSteady(n: CardNode)
    decreases n, 0
  {
    Steady(n.card) && (n.BridgeCard? ==> BusSteady(n.below))
  }

  ghost predicate BusSteady(bus: seq<CardNode>)
    decreases bus, 1
  {
    forall i | 0 <= i < |bus| :: NodeSteady(bus[i])
  }

  /** A register not implemented asks for nothing. */
  lemma WantedSkips(like: Pools, c: Card, slot: nat, k: Kind)
    requires slot >= c.num || !Implemented(c.resp[slot])
    ensures Wanted(like, c, slot, k) == Wanted(like, c, slot + 1, k)
  {
    if slot < c.num { assert Wanted(like, c, slot, k) == [] + Wanted(like, c, slot + 1, k); }
  }

  lemma SameHead(like: Pools, ps: Pools, resp: u32, k: Kind)
    requires Alike(like, ps)
    ensures HeadAsks(resp, like, k) == HeadAsks(resp, ps, k)
  {
    AlikeKinds(like, ps, resp);
  }

  lemma {:induction false} LoopWants(like: Pools, d: Dev, slot: nat, c: Card, k: Kind)
    requires c.num < |c.resp| == |d.regs| && c.num == |d.bars| && Alike(like, d.ps) && Steady(c)
    ensures KindAsks(d, slot, c.num, c.resp, k) == Wanted(like, c, slot, k)
    decreases c.num - slot
  {
    if slot < c.num {
      SameHead(like, d.ps, c.resp[slot], k);
      TurnAlike(like, d, slot, c.resp);
      TurnSteps(d, slot, c.resp);
      var t := Turn(d, slot, c.resp);
      LoopWants(like, t.0, t.1, c, k);
      if t.1 == slot + 2 { WantedSkips(like, c, slot + 1, k); }
    }
  }

  lemma {:induction false} NodePlanned(like: Pools, s: Seen, n: CardNode, k: Kind)
    requires Alike(like, s.ps) && NodeSteady(n)
    ensures NodeOf(s, n, k) == PlanNode(like, n, k)
    decreases n, 0
  {
    LoopWants(like, Fresh(s.ps, n.card), 0, n.card, k);
    if n.BridgeCard? {
      var open := CardPlaced(s, n.card, k);
      CardAlike(like, s, n.card, k);
      RoundsAlike(like, open);
      RoundsAlike(like, CardsRounded(open));
      BusPlanned(like, CardsRestarted(CardsRounded(open)), n.below, 0, k);
    }
  }

  lemma {:induction false} BusPlanned(like: Pools, s: Seen, bus: seq<CardNode>, i: nat, k: Kind)
    requires Alike(like, s.ps) && BusSteady(bus) && i <= |bus|
    ensures NodesOf(s, bus, i, k) == PlanBus(like, bus, i, k)
    decreases bus, 1, |bus| - i
  {
    if i < |bus| {
      NodePlanned(like, s, bus[i], k);
      ConfigureAlike(like, s, bus[i], k);
      BusPlanned(like, ConfigureCard(s, bus[i], k), bus, i + 1, k);
    }
  }

  /** The tree of requests followed in a region; what is wanted when does not depend on
      which (BarTree.TreePlans). */
  ghost function Planned(like: Pools, bus: seq<CardNode>, k: Kind): T.State
    requires BarSetup.Pool(like, k).Some?
  {
    T.Whole(BarSetup.Pool(like, k).value, PlanBus(like, bus, 0, k))
  }

  /** Where every request fits by itself the answers decide beforehand: no two BARs or
      ROMs of one kind overlap if and only if all that the tree asks for of that kind
      falls between the same two resets. */
  lemma CardTreeDecides(ps: Pools, bus: seq<CardNode>, k: Kind)
    requires CardTreeOk(ps, bus, k, true, true) && BusSteady(bus)
    ensures T.AllDisjoint(WholeCards(ps, bus, k).done) <==> T.OneAsks(Planned(ps, bus, k).plan)
  {
    var r := BarSetup.Pool(ps, k).value;
    CardTreeFollows(ps, bus, k, true, true);
    RoundsAlike(ps, Seen(ps, [], []));
    BusPlanned(ps, CardsRestarted(Seen(ps, [], [])), bus, 0, k);
    T.TreeDecides(r, TreeOf(ps, bus, k), r);
  }

  /** ... and so is which bridge windows cover all BARs and ROMs of that kind behind
      them. */
  lemma CardWindowsDecide(ps: Pools, bus: seq<CardNode>, k: Kind, j: nat)
    requires CardTreeOk(ps, bus, k, true, true) && BusSteady(bus) && j < |WholeCards(ps, bus, k).wins|
    ensures |Planned(ps, bus, k).wins| == |WholeCards(ps, bus, k).wins|
    ensures var r, w, v := BarSetup.Pool(ps, k).value, Planned(ps, bus, k).wins[j], WholeCards(ps, bus, k).wins[j];
      T.Encloses(v.base, v.limit, v.behind) <==>
        && (Quiet(w.before) || T.UsedUp(r, w.before) || forall i | 0 <= i < |w.wants| :: Quiet(w.wants[i]))
        && T.LastReachesHighest(r, w.wants)
  {
    var r := BarSetup.Pool(ps, k).value;
    CardTreeFollows(ps, bus, k, true, true);
    RoundsAlike(ps, Seen(ps, [], []));
    BusPlanned(ps, CardsRestarted(Seen(ps, [], [])), bus, 0, k);
    T.TreeWindowsDecide(r, TreeOf(ps, bus, k), j, r);
    assert SameWindow(Planned(ps, bus, k).wins[j], WholeCards(ps, bus, k).wins[j]);
  }

  // ---- the walk over a tree, on the region itself ----

  /** The requests of one function. */
  method AskAll(mem: Window, s: T.State, sizes: seq<u32>) returns (t: T.State)
    requires s.r == mem.View()
    modifies mem
    ensures t == T.Asks(s, sizes) && t.r == mem.View()
  {
    t := s;
    var i := 0;
    while i < |sizes|
      invariant 0 <= i <= |sizes| && t.r == mem.View()
      invariant T.Asks(t, sizes[i..]) == T.Asks(s, sizes)
    {
      var size := sizes[i];
      assert sizes[i..][0] == size && sizes[i..][1..] == sizes[i + 1..];
      var g := mem.Allocate(size);
      t := t.(r := mem.View(), plan := T.Append(t.plan, Size(size)),
              done := if g.Some? && size > 0 then T.Append(t.done, Range(g.value, size)) else t.done);
      i := i + 1;
    }
  }

  /** pciauto_config_device and, for a bridge, pci_probe_bus: its own BARs, prescan,
      the bus behind it, postscan. */
  method ConfigureNode(mem: Window, s: T.State, n: T.Node) returns (t: T.State)
    requires s.r == mem.View()
    modifies mem
    ensures t == T.Configure(s, n) && t.r == mem.View()
    decreases n, 0
  {
    t := AskAll(mem, s, n.sizes);
    if n.Bridge? {
      var bridge := new Bridge();
      bridge.PrescanMem(mem);
      var base, before := bridge.memBase, T.Open(t.plan);
      t := ScanBus(mem, t.(r := mem.View(), plan := T.Append(t.plan, Round)), n.below);
      bridge.PostscanMem(mem);
      t := t.(r := mem.View(), plan := T.Append(t.plan, Round),
              wins := t.wins + [T.Win(base, bridge.memLimit, t.done[|s.done|..], before, t.plan[|s.plan|..])]);
    }
  }

  /** pci_auto_config_devices: the region reset, the functions in order. */
  method ScanBus(mem: Window, s: T.State, bus: seq<T.Node>) returns (t: T.State)
    requires s.r == mem.View()
    modifies mem
    ensures t == T.Scan(s, bus) && t.r == mem.View()
    decreases bus, 1
  {
    mem.Init();
    t := s.(r := mem.View(), done := s.done + [[]], plan := s.plan + [[]]);
    var i := 0;
    while i < |bus|
      invariant 0 <= i <= |bus| && t.r == mem.View()
      invariant T.Rest(t, bus, i) == T.Scan(s, bus)
    {
      t := ConfigureNode(mem, t, bus[i]);
      i := i + 1;
    }
  }
}
