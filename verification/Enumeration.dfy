// A tree of PCI buses, how configuration cycles find their way through its
// bridges, and the bus numbers a depth-first scan should give it (section 3.2.5
// of the PCI-to-PCI Bridge Architecture Specification 1.2; pci_probe.c,
// pci_auto.c).

module Enumeration {
  import opened SlotPool

  /** Hardware: a bus is its functions by device-function number, and every
      function has a (possibly empty) bus behind it. */
  datatype Bus = Bus(fns: seq<Option<Fn>>)
  datatype Fn = Fn(vendor: nat, header: nat, classId: nat, below: Bus)

  /** A bus, or the bridge above it, by the functions passed on the way down. */
  type Path = seq<nat>

  /** Primary, secondary and subordinate bus number; all 0 from reset. */
  datatype Regs = Regs(pri: nat, sec: nat, sub: nat)

  const RESET := Regs(0, 0, 0)
  const FNS: nat := 256              // 32 devices of 8 functions
  const BRIDGE_CLASS: nat := 0x0604
  const BRIDGE_HEADER: nat := 1

  function At(regs: map<Path, Regs>, q: Path): Regs { if q in regs then regs[q] else RESET }

  function Slot(b: Bus, i: nat): Option<Fn> { if i < |b.fns| then b.fns[i] else None }

  // ---- routing ----

  /** The buses behind functions i.. of b on which a Type 1 cycle for bus n ends,
      n being none of b's own number. */
  function Routed(b: Bus, p: Path, regs: map<Path, Regs>, n: nat, i: nat): seq<(Path, Bus)>
    requires i <= FNS
    decreases b, 1, FNS - i
  {
    if i == FNS then [] else Turned(b, p, regs, n, i) + Routed(b, p, regs, n, i + 1)
  }

  /** What function i of bus b does with the cycle: turn it onto its secondary bus,
      pass it on below, or drop it. */
  function Turned(b: Bus, p: Path, regs: map<Path, Regs>, n: nat, i: nat): seq<(Path, Bus)>
    decreases b, 0
  {
    match Slot(b, i)
    case None => []
    case Some(f) =>
      var r := At(regs, p + [i]);
      if n == r.sec then [(p + [i], f.below)]
      else if r.sec < n <= r.sub then Routed(f.below, p + [i], regs, n, 0)
      else []
  }

  /** Where configuration cycles for bus n end; bus 0 is the root complex itself. */
  function Target(root: Bus, regs: map<Path, Regs>, n: nat): seq<(Path, Bus)> {
    if n == 0 then [([], root)] else Routed(root, [], regs, n, 0)
  }

  // ---- what the scan finds ----

  /** Bus 0, bus 1 and the others: the first two hold a single device each. */
  type Level = n: nat | n <= 2

  function LevelOf(n: nat): Level { if n < 2 then n else 2 }
  function Under(l: Level): Level { if l < 2 then l + 1 else 2 }

  predicate Responds(b: Bus, l: Level, i: nat) {
    && (l < 2 ==> i / 8 == 0)
    && Slot(b, i).Some?
    && Slot(b, i).value.vendor != 0xffff && Slot(b, i).value.vendor != 0
  }

  predicate Multi(f: Fn) { f.header / 0x80 % 2 == 1 }

  /** A function that exists for software: it responds, and it is function 0 or
      behind a multi-function function 0. */
  predicate Shown(b: Bus, l: Level, i: nat) {
    Responds(b, l, i) && (i % 8 == 0 || Family(b, l, i))
  }

  /** Function 0 of the device i belongs to is there and says multi-function. */
  predicate Family(b: Bus, l: Level, i: nat) {
    Responds(b, l, i - i % 8) && Multi(Slot(b, i - i % 8).value)
  }

  predicate IsBridge(b: Bus, l: Level, i: nat) {
    Shown(b, l, i) && Slot(b, i).value.classId == BRIDGE_CLASS
  }

  /** A function is there and returns a vendor id. */
  ghost predicate There(b: Bus, i: nat) {
    i < |b.fns| && b.fns[i].Some? && b.fns[i].value.vendor != 0 && b.fns[i].value.vendor != 0xffff
  }

  /** The functions of bus n: those there, of device 0 alone on buses 0 and 1, that are
      function 0 or whose function 0 is there with bit 7 of its header type set. */
  ghost predicate Found(b: Bus, n: nat, i: nat) {
    && There(b, i) && (n < 2 ==> i < 8)
    && (i % 8 == 0 || (There(b, i - i % 8) && b.fns[i - i % 8].value.header % 0x100 >= 0x80))
  }

  lemma HighBit(h: nat)
    ensures h / 0x80 % 2 == 1 <==> h % 0x100 >= 0x80
  {}

  lemma FoundExact(b: Bus, n: nat, i: nat)
    ensures Shown(b, LevelOf(n), i) <==> Found(b, n, i)
    ensures IsBridge(b, LevelOf(n), i) <==> Found(b, n, i) && b.fns[i].value.classId == 0x0604
  {
    if There(b, i - i % 8) { HighBit(b.fns[i - i % 8].value.header); }
  }

  /** Every bridge the scan comes to has a bridge's header. */
  ghost predicate Proper(b: Bus, l: Level)
    decreases b
  {
    forall i | 0 <= i < FNS && IsBridge(b, l, i) ::
      Slot(b, i).value.header % 0x80 == BRIDGE_HEADER && Proper(Slot(b, i).value.below, Under(l))
  }

  /** A tree is proper exactly if every function found with a bridge's class, on bus n and
      below, has header type 1; the buses below bus 0 count as bus 1, the rest as bus 2. */
  lemma ProperExact(b: Bus, n: nat)
    ensures Under(LevelOf(n)) == LevelOf(n + 1)
    ensures Proper(b, LevelOf(n)) <==>
      forall i | 0 <= i < 256 && Found(b, n, i) && b.fns[i].value.classId == 0x0604 ::
        b.fns[i].value.header % 0x80 == 1 && Proper(b.fns[i].value.below, LevelOf(n + 1))
  {
    forall i { FoundExact(b, n, i); }
    if Proper(b, LevelOf(n)) {
      forall i | 0 <= i < 256 && Found(b, n, i) && b.fns[i].value.classId == 0x0604
        ensures b.fns[i].value.header % 0x80 == 1 && Proper(b.fns[i].value.below, LevelOf(n + 1))
      {
        assert IsBridge(b, LevelOf(n), i);
      }
    }
  }

  // ---- the numbers it should give ----

  /** How many buses lie behind functions 0..i-1 of b. */
  ghost function Count(b: Bus, l: Level, i: nat): nat
    decreases b, 1, i
  {
    if i == 0 then 0 else Count(b, l, i - 1) + CountFn(b, l, i - 1)
  }

  ghost function CountFn(b: Bus, l: Level, i: nat): nat
    decreases b, 0
  {
    if IsBridge(b, l, i) then 1 + Count(Slot(b, i).value.below, Under(l), FNS) else 0
  }

  /** Numbering in preorder: the bus behind function i of bus n comes after n and
      after all the buses behind earlier functions, and its bridge forwards exactly
      the numbers of the buses at or below it. */
  ghost predicate Laid(b: Bus, p: Path, l: Level, n: nat, i: nat, regs: map<Path, Regs>)
    decreases b, 1
  {
    forall j | 0 <= j < i :: LaidFn(b, p, l, n, j, regs)
  }

  ghost predicate LaidFn(b: Bus, p: Path, l: Level, n: nat, i: nat, regs: map<Path, Regs>)
    decreases b, 0
  {
    var r := At(regs, p + [i]);
    if IsBridge(b, l, i) then
      var s := n + 1 + Count(b, l, i);
      var f := Slot(b, i).value;
      r == Regs(n, s, s + Count(f.below, Under(l), FNS)) && Laid(f.below, p + [i], Under(l), s, FNS, regs)
    else r == RESET
  }

  /** x leads from b to a bus, through bridges the scan comes to. */
  ghost predicate IsBus(b: Bus, l: Level, x: Path)
    decreases |x|
  {
    x == [] || (x[0] < FNS && IsBridge(b, l, x[0]) && IsBus(Slot(b, x[0]).value.below, Under(l), x[1..]))
  }

  ghost function BusAt(b: Bus, x: Path): Bus
    decreases |x|
  {
    if x == [] then b
    else if Slot(b, x[0]).None? then b
    else BusAt(Slot(b, x[0]).value.below, x[1..])
  }

  lemma {:induction false} CountGrows(b: Bus, l: Level, i: nat, j: nat)
    requires i <= j
    ensures Count(b, l, i) <= Count(b, l, j)
    ensures i < j ==> Count(b, l, i) + CountFn(b, l, i) <= Count(b, l, j)
    decreases j
  {
    if i < j { CountGrows(b, l, i, j - 1); }
  }

  // ---- the numbers are what the bridge specification asks for ----

  /** x comes before y in a depth-first walk. */
  ghost predicate Before(x: Path, y: Path)
    decreases |x|
  {
    y != [] && (x == [] || x[0] < y[0] || (x[0] == y[0] && Before(x[1..], y[1..])))
  }

  /** A bus number, and the last number behind it, by the registers of its bridge. */
  ghost function First(p: Path, n: nat, x: Path, regs: map<Path, Regs>): nat {
    if x == [] then n else At(regs, p + x).sec
  }

  ghost function Final(b: Bus, p: Path, l: Level, n: nat, x: Path, regs: map<Path, Regs>): nat {
    if x == [] then n + Count(b, l, FNS) else At(regs, p + x).sub
  }

  lemma Deeper(p: Path, x: Path)
    requires x != []
    ensures p + x == (p + [x[0]]) + x[1..]
  {}

  /** Numbers lie in the subtree's range, and increase on the way down. */
  lemma {:induction false} InRange(b: Bus, p: Path, l: Level, n: nat, regs: map<Path, Regs>, x: Path)
    requires Laid(b, p, l, n, FNS, regs) && IsBus(b, l, x)
    ensures n <= First(p, n, x, regs) <= Final(b, p, l, n, x, regs) <= n + Count(b, l, FNS)
    ensures x != [] ==>
      var s := n + 1 + Count(b, l, x[0]);
      s <= First(p, n, x, regs) && Final(b, p, l, n, x, regs) < s + CountFn(b, l, x[0])
    decreases |x|
  {
    if x != [] {
      CountGrows(b, l, x[0], FNS);
      Deeper(p, x);
      assert LaidFn(b, p, l, n, x[0], regs);
      var s := n + 1 + Count(b, l, x[0]);
      InRange(Slot(b, x[0]).value.below, p + [x[0]], Under(l), s, regs, x[1..]);
      if |x| == 1 { assert p + x == p + [x[0]]; }
    }
  }

  /** The interval of a bridge holds exactly the numbers of the buses at or below
      it: a prefix of a path names an ancestor. */
  lemma {:induction false} Intervals(b: Bus, p: Path, l: Level, n: nat, regs: map<Path, Regs>, x: Path, y: Path)
    requires Laid(b, p, l, n, FNS, regs) && IsBus(b, l, x) && IsBus(b, l, y)
    ensures x <= y <==> First(p, n, x, regs) <= First(p, n, y, regs) <= Final(b, p, l, n, x, regs)
    ensures x <= y ==> Final(b, p, l, n, y, regs) <= Final(b, p, l, n, x, regs)
    ensures Before(x, y) <==> First(p, n, x, regs) < First(p, n, y, regs)
    ensures Before(x, y) && !(x <= y) ==> Final(b, p, l, n, x, regs) < First(p, n, y, regs)
    decreases |x|
  {
    InRange(b, p, l, n, regs, x);
    InRange(b, p, l, n, regs, y);
    if x != [] && y != [] {
      var i, j := x[0], y[0];
      if i == j {
        Deeper(p, x);
        Deeper(p, y);
        assert LaidFn(b, p, l, n, i, regs);
        var s := n + 1 + Count(b, l, i);
        Intervals(Slot(b, i).value.below, p + [i], Under(l), s, regs, x[1..], y[1..]);
        assert p + [i] + [] == p + [i];
        assert x <= y <==> x[1..] <= y[1..] by { assert x == [i] + x[1..] && y == [i] + y[1..]; }
      } else if i < j {
        CountGrows(b, l, i, j);
      } else {
        CountGrows(b, l, j, i);
      }
    }
  }

  /** Every number handed out is some bus's. */
  lemma {:induction false} Onto(b: Bus, p: Path, l: Level, n: nat, regs: map<Path, Regs>, m: nat, i: nat)
    returns (x: Path)
    requires Laid(b, p, l, n, FNS, regs) && i <= FNS && n <= m <= n + Count(b, l, i)
    ensures IsBus(b, l, x) && First(p, n, x, regs) == m
    decreases b, i
  {
    if m == n { return []; }
    if m <= n + Count(b, l, i - 1) {
      x := Onto(b, p, l, n, regs, m, i - 1);
    } else {
      assert LaidFn(b, p, l, n, i - 1, regs);
      var f := Slot(b, i - 1).value;
      var q := p + [i - 1];
      var y := Onto(f.below, q, Under(l), n + 1 + Count(b, l, i - 1), regs, m, FNS);
      x := [i - 1] + y;
      assert x[1..] == y && p + x == q + y;
      if y == [] { assert p + x == q; }
    }
  }

  /** A bridge's primary number is that of the bus it sits on. */
  lemma {:induction false} Primary(b: Bus, p: Path, l: Level, n: nat, regs: map<Path, Regs>, x: Path)
    requires Laid(b, p, l, n, FNS, regs) && IsBus(b, l, x) && x != []
    ensures At(regs, p + x).pri == First(p, n, x[..|x| - 1], regs)
    decreases |x|
  {
    var q := p + [x[0]];
    Deeper(p, x);
    assert LaidFn(b, p, l, n, x[0], regs);
    if |x| > 1 {
      var s := n + 1 + Count(b, l, x[0]);
      Primary(Slot(b, x[0]).value.below, q, Under(l), s, regs, x[1..]);
      var u := x[..|x| - 1];
      assert u[1..] == x[1..][..|x| - 2];
      if |x| > 2 { Deeper(p, u); } else { assert p + u == q; }
    } else {
      assert p + x == q && x[..0] == [];
    }
  }

  // ---- cycles go where they should ----

  /** A bridge that takes no number from m on. */
  ghost predicate Low(r: Regs, m: nat) { r.sec < m && r.sub < m }

  /** Among functions i.., only function k looks at the cycle. */
  lemma {:induction false} OnlyOne(b: Bus, p: Path, regs: map<Path, Regs>, n: nat, i: nat, k: nat)
    requires i <= FNS && k < FNS
    requires forall j | i <= j < FNS && j != k && Slot(b, j).Some? :: Turned(b, p, regs, n, j) == []
    ensures Routed(b, p, regs, n, i) == if i <= k then Turned(b, p, regs, n, k) else []
    decreases FNS - i
  {
    if i < FNS { OnlyOne(b, p, regs, n, i + 1, k); }
  }

  lemma NoOne(b: Bus, p: Path, regs: map<Path, Regs>, n: nat)
    requires forall j | 0 <= j < FNS && Slot(b, j).Some? :: Turned(b, p, regs, n, j) == []
    ensures Routed(b, p, regs, n, 0) == []
  {
    OnlyOne(b, p, regs, n, 0, 0);
  }

  lemma LaidDrops(b: Bus, p: Path, l: Level, n: nat, regs: map<Path, Regs>, m: nat, j: nat)
    requires Laid(b, p, l, n, FNS, regs) && j < FNS && m > n
    requires !(n + 1 + Count(b, l, j) <= m < n + 1 + Count(b, l, j) + CountFn(b, l, j))
    ensures Turned(b, p, regs, m, j) == []
  {
    assert LaidFn(b, p, l, n, j, regs);
  }

  /** After the scan, a cycle for the number of a bus ends on that bus and nowhere
      else; a cycle for a number not handed out ends nowhere. */
  lemma {:induction false} FinalRouting(b: Bus, p: Path, l: Level, n: nat, regs: map<Path, Regs>, x: Path)
    requires Laid(b, p, l, n, FNS, regs) && IsBus(b, l, x) && x != []
    ensures Routed(b, p, regs, First(p, n, x, regs), 0) == [(p + x, BusAt(b, x))]
    decreases |x|
  {
    var m, k := First(p, n, x, regs), x[0];
    InRange(b, p, l, n, regs, x);
    forall j | 0 <= j < FNS && j != k && Slot(b, j).Some? ensures Turned(b, p, regs, m, j) == [] {
      if j < k { CountGrows(b, l, j, k); } else { CountGrows(b, l, k, j); }
      LaidDrops(b, p, l, n, regs, m, j);
    }
    OnlyOne(b, p, regs, m, 0, k);
    assert LaidFn(b, p, l, n, k, regs);
    var f, s := Slot(b, k).value, n + 1 + Count(b, l, k);
    Deeper(p, x);
    if |x| == 1 {
      assert p + x == p + [k] && x[1..] == [];
    } else {
      InRange(f.below, p + [k], Under(l), s, regs, x[1..]);
      FinalRouting(f.below, p + [k], Under(l), s, regs, x[1..]);
    }
  }

  lemma Unassigned(b: Bus, p: Path, l: Level, n: nat, regs: map<Path, Regs>, m: nat)
    requires Laid(b, p, l, n, FNS, regs) && m > n + Count(b, l, FNS)
    ensures Routed(b, p, regs, m, 0) == []
  {
    forall j | 0 <= j < FNS && Slot(b, j).Some? ensures Turned(b, p, regs, m, j) == [] {
      CountGrows(b, l, j, FNS);
      LaidDrops(b, p, l, n, regs, m, j);
    }
    NoOne(b, p, regs, m);
  }

  lemma PrefixEnds(x: Path, y: Path)
    requires x <= y && y <= x
    ensures x == y
  {}

  /** What a finished scan of a whole tree means.  Numbers are distinct and
      depth-first; the interval of a bridge nests in those of the bridges above it
      and meets no other; cycles for a bus's number reach that bus and no other. */
  lemma FinalNumbers(root: Bus, regs: map<Path, Regs>, x: Path, y: Path)
    requires Laid(root, [], 0, 0, FNS, regs) && IsBus(root, 0, x) && IsBus(root, 0, y)
    ensures First([], 0, x, regs) == First([], 0, y, regs) <==> x == y
    ensures Before(x, y) <==> First([], 0, x, regs) < First([], 0, y, regs)
    ensures x <= y ==>
      First([], 0, x, regs) <= First([], 0, y, regs) <= Final(root, [], 0, 0, y, regs) <= Final(root, [], 0, 0, x, regs)
    ensures !(x <= y) && !(y <= x) ==>
      || Final(root, [], 0, 0, x, regs) < First([], 0, y, regs)
      || Final(root, [], 0, 0, y, regs) < First([], 0, x, regs)
    ensures Target(root, regs, First([], 0, x, regs)) == [(x, BusAt(root, x))]
  {
    Intervals(root, [], 0, 0, regs, x, y);
    Intervals(root, [], 0, 0, regs, y, x);
    InRange(root, [], 0, 0, regs, x);
    InRange(root, [], 0, 0, regs, y);
    if First([], 0, x, regs) == First([], 0, y, regs) { PrefixEnds(x, y); }
    if x != [] {
      FinalRouting(root, [], 0, 0, regs, x);
      assert [] + x == x;
    }
  }

  // ---- and during the scan ----

  ghost predicate ValidPath(root: Bus, p: Path) {
    forall k | 0 <= k < |p| :: p[k] < FNS && Slot(BusAt(root, p[..k]), p[k]).Some?
  }

  lemma {:induction false} BusAtStep(b: Bus, u: Path, i: nat)
    requires ValidPath(b, u) && Slot(BusAt(b, u), i).Some?
    ensures BusAt(b, u + [i]) == Slot(BusAt(b, u), i).value.below
    decreases |u|
  {
    if u == [] {
      assert (u + [i])[1..] == [];
    } else {
      assert (u + [i])[1..] == u[1..] + [i];
      assert u[..0] == [];
      var c := Slot(b, u[0]).value.below;
      forall k | 0 <= k < |u| - 1 ensures u[1..][k] < FNS && Slot(BusAt(c, u[1..][..k]), u[1..][k]).Some? {
        assert u[..k + 1][1..] == u[1..][..k];
      }
      BusAtStep(c, u[1..], i);
    }
  }

  /** The bus at p, number n, is being scanned or has been: the bridges above it
      are open to 0xff, numbered upwards to n; no bridge off the way to it, the ones
      below it aside, takes a number from n on. */
  ghost predicate Open(root: Bus, p: Path, n: nat, regs: map<Path, Regs>) {
    && ValidPath(root, p)
    && n == First([], 0, p, regs) <= 0xff
    && Rising(p, regs)
    && (forall x: Path | !(x <= p) && !(p <= x) :: Low(At(regs, x), n))
  }

  ghost predicate Rising(p: Path, regs: map<Path, Regs>) {
    && (forall k | 0 < k <= |p| :: Up(p, regs, k).sub == 0xff && 0 < Up(p, regs, k).sec)
    && (forall j, k | 0 < j < k <= |p| :: Up(p, regs, j).sec < Up(p, regs, k).sec)
  }

  /** The k-th bridge on the way to p. */
  ghost function Up(p: Path, regs: map<Path, Regs>, k: nat): Regs
    requires k <= |p|
  {
    At(regs, p[..k])
  }

  /** No bridge but those above p takes a number from m on. */
  ghost predicate AllLow(p: Path, regs: map<Path, Regs>, m: nat) {
    forall x: Path | !(x <= p) :: Low(At(regs, x), m)
  }

  lemma ValidTake(root: Bus, p: Path, k: nat)
    requires ValidPath(root, p) && k < |p|
    ensures ValidPath(root, p[..k]) && p[..k + 1] == p[..k] + [p[k]]
    ensures BusAt(root, p[..k + 1]) == Slot(BusAt(root, p[..k]), p[k]).value.below
  {
    var u := p[..k];
    forall j | 0 <= j < k ensures u[j] < FNS && Slot(BusAt(root, u[..j]), u[j]).Some? { assert u[..j] == p[..j]; }
    assert p[..k + 1] == u + [p[k]];
    BusAtStep(root, u, p[k]);
  }

  /** On the way to p, only the bridge towards p looks at numbers from n on. */
  lemma OnTheWay(root: Bus, p: Path, n: nat, regs: map<Path, Regs>, m: nat, k: nat)
    requires Open(root, p, n, regs) && k < |p| && n <= m
    ensures Routed(BusAt(root, p[..k]), p[..k], regs, m, 0) == Turned(BusAt(root, p[..k]), p[..k], regs, m, p[k])
  {
    var u, i := p[..k], p[k];
    var b := BusAt(root, u);
    forall j | 0 <= j < FNS && j != i && Slot(b, j).Some? ensures Turned(b, u, regs, m, j) == [] {
      assert (u + [j])[k] == j;
      assert Low(At(regs, u + [j]), n);
    }
    OnlyOne(b, u, regs, m, 0, i);
  }

  /** The number of the k-th bridge on the way: n for the last, less before. */
  lemma UpNumber(root: Bus, p: Path, n: nat, regs: map<Path, Regs>, k: nat)
    requires Open(root, p, n, regs) && 0 < k <= |p|
    ensures At(regs, p[..k]) == Up(p, regs, k) && Up(p, regs, k).sub == 0xff
    ensures 0 < Up(p, regs, k).sec <= n
    ensures Up(p, regs, k).sec == n <==> k == |p|
  {
    assert [] + p == p && p[..|p|] == p;
    if k < |p| { assert Up(p, regs, k).sec < Up(p, regs, |p|).sec; }
  }

  lemma {:induction false} RouteAlong(root: Bus, p: Path, n: nat, regs: map<Path, Regs>, m: nat, k: nat)
    requires Open(root, p, n, regs) && k < |p| && n <= m <= 0xff
    ensures Routed(BusAt(root, p[..k]), p[..k], regs, m, 0) ==
      if m == n then [(p, BusAt(root, p))] else Routed(BusAt(root, p), p, regs, m, 0)
    decreases |p| - k
  {
    OnTheWay(root, p, n, regs, m, k);
    ValidTake(root, p, k);
    UpNumber(root, p, n, regs, k + 1);
    Turn(BusAt(root, p[..k]), p[..k], regs, m, p[k]);
    if k + 1 < |p| {
      RouteAlong(root, p, n, regs, m, k + 1);
    } else {
      assert p[..k + 1] == p;
    }
  }

  lemma Turn(b: Bus, u: Path, regs: map<Path, Regs>, m: nat, i: nat)
    requires Slot(b, i).Some?
    ensures var r, c := At(regs, u + [i]), Slot(b, i).value.below;
      Turned(b, u, regs, m, i) ==
        if m == r.sec then [(u + [i], c)] else if r.sec < m <= r.sub then Routed(c, u + [i], regs, m, 0) else []
  {}

  /** While the bus numbered n at p is open, cycles for n reach it and only it. */
  lemma OpenRouting(root: Bus, p: Path, n: nat, regs: map<Path, Regs>)
    requires Open(root, p, n, regs)
    ensures Target(root, regs, n) == [(p, BusAt(root, p))]
  {
    if p != [] {
      RouteAlong(root, p, n, regs, n, 0);
      UpNumber(root, p, n, regs, |p|);
      assert p[..0] == [];
    }
  }

  /** When bus n is scanned, the bridges whose interval holds n are exactly the ones
      above it. */
  lemma AncestorsExactly(root: Bus, p: Path, n: nat, regs: map<Path, Regs>, x: Path)
    requires Open(root, p, n, regs) && AllLow(p, regs, n) && n > 0 && x != []
    ensures At(regs, x).sec <= n <= At(regs, x).sub <==> x <= p
  {
    if x <= p {
      assert x == p[..|x|];
      UpNumber(root, p, n, regs, |x|);
    }
  }

  lemma OnlyRootIsZero(root: Bus, p: Path, n: nat, regs: map<Path, Regs>)
    requires Open(root, p, n, regs)
    ensures n == 0 <==> p == []
  {
    assert [] + p == p && p[..|p|] == p;
    if p != [] { assert Up(p, regs, |p|) == At(regs, p); }
  }

  /** What happens strictly below p does not close the way to it. */
  lemma OpenFrame(root: Bus, p: Path, n: nat, r: map<Path, Regs>, r': map<Path, Regs>)
    requires Open(root, p, n, r)
    requires forall x: Path | !(p <= x) || x == p :: At(r', x) == At(r, x)
    ensures Open(root, p, n, r')
  {
    assert [] + p == p;
    forall k | 0 < k <= |p| ensures Up(p, r', k) == Up(p, r, k) {
      if p <= p[..k] { assert p[..k] == p; }
    }
  }

  lemma PrefixOn(x: Path, p: Path, i: nat)
    ensures x <= p + [i] <==> x <= p || x == p + [i]
  {}

  lemma ValidChild(root: Bus, p: Path, i: nat)
    requires ValidPath(root, p) && i < FNS && Slot(BusAt(root, p), i).Some?
    ensures ValidPath(root, p + [i])
    ensures BusAt(root, p + [i]) == Slot(BusAt(root, p), i).value.below
  {
    var q := p + [i];
    BusAtStep(root, p, i);
    forall k | 0 <= k < |q| ensures q[k] < FNS && Slot(BusAt(root, q[..k]), q[k]).Some? {
      if k < |p| { assert q[..k] == p[..k]; } else { assert q[..k] == p; }
    }
  }

  /** Only the registers of q have changed. */
  ghost predicate Wrote(q: Path, v: Regs, r: map<Path, Regs>, r': map<Path, Regs>) {
    At(r', q) == v && forall x: Path | x != q :: At(r', x) == At(r, x)
  }

  /** The bridges above p, seen from p + [i]. */
  lemma AboveChild(root: Bus, p: Path, n: nat, i: nat, s: nat, r: map<Path, Regs>, r': map<Path, Regs>, k: nat)
    requires Open(root, p, n, r) && 0 < k <= |p|
    requires Wrote(p + [i], Regs(n, s, 0xff), r, r')
    ensures Up(p + [i], r', k) == Up(p, r, k) && Up(p, r, k).sec <= n
  {
    assert [] + p == p && p[..|p|] == p;
    assert (p + [i])[..k] == p[..k];
    assert |p[..k]| < |p + [i]|;
    assert Up(p, r, |p|).sec == n;
  }

  lemma RisingChild(root: Bus, p: Path, n: nat, i: nat, s: nat, r: map<Path, Regs>, r': map<Path, Regs>)
    requires Open(root, p, n, r) && n < s <= 0xff && Wrote(p + [i], Regs(n, s, 0xff), r, r')
    ensures Rising(p + [i], r')
  {
    var q := p + [i];
    assert q[..|q|] == q;
    assert Up(q, r', |q|) == Regs(n, s, 0xff);
    forall k | 0 < k <= |p| ensures Up(q, r', k) == Up(p, r, k) && Up(p, r, k).sec <= n {
      AboveChild(root, p, n, i, s, r, r', k);
    }
  }

  lemma LowChild(p: Path, i: nat, s: nat, r: map<Path, Regs>, x: Path)
    requires AllLow(p, r, s) && !(x <= p + [i])
    ensures x != p + [i] && Low(At(r, x), s)
  {}

  /** Opening the bridge to function i of an open bus under a fresh number. */
  lemma OpenChild(root: Bus, p: Path, n: nat, i: nat, s: nat, r: map<Path, Regs>, r': map<Path, Regs>)
    requires Open(root, p, n, r) && i < FNS && Slot(BusAt(root, p), i).Some? && n < s <= 0xff && AllLow(p, r, s)
    requires Wrote(p + [i], Regs(n, s, 0xff), r, r')
    ensures Open(root, p + [i], s, r') && AllLow(p + [i], r', s)
    ensures BusAt(root, p + [i]) == Slot(BusAt(root, p), i).value.below
  {
    var q := p + [i];
    ValidChild(root, p, i);
    assert [] + q == q;
    RisingChild(root, p, n, i, s, r, r');
    forall x: Path | !(x <= q) ensures Low(At(r', x), s) {
      LowChild(p, i, s, r, x);
      assert x != q;
    }
  }

  lemma {:induction false} LaidFrame(b: Bus, p: Path, l: Level, n: nat, i: nat, r: map<Path, Regs>, r': map<Path, Regs>)
    requires Laid(b, p, l, n, i, r) && i <= FNS
    requires forall x: Path, j | 0 <= j < i && p + [j] <= x :: At(r', x) == At(r, x)
    ensures Laid(b, p, l, n, i, r')
    decreases b
  {
    forall j | 0 <= j < i ensures LaidFn(b, p, l, n, j, r') {
      assert LaidFn(b, p, l, n, j, r);
      assert p + [j] <= p + [j];
      if IsBridge(b, l, j) {
        var f := Slot(b, j).value;
        forall x: Path, k | 0 <= k < FNS && (p + [j]) + [k] <= x ensures At(r', x) == At(r, x) {
          assert p + [j] <= x;
        }
        LaidFrame(f.below, p + [j], Under(l), n + 1 + Count(b, l, j), FNS, r, r');
      }
    }
  }
}
