// The depth-first scan as the source runs it: configuration reads and writes
// routed by whatever the bridge registers hold at that moment, a device list per
// bus, a counter of numbers handed out (pci_probe.c, pci_lookup.c, the bridge half
// of pci_auto.c).

module ProbeDriver {
  import opened SlotPool
  import opened Enumeration

  datatype Device = Device(devfn: nat, vendor: nat, header: nat, classId: nat)

  // ---- what one bus scan yields ----

  ghost function DeviceOf(b: Bus, i: nat): Device
    requires Slot(b, i).Some?
  {
    var f := Slot(b, i).value;
    Device(i, f.vendor, f.header % 0x80, f.classId)
  }

  /** The functions below i the scan finds, in devfn order. */
  ghost function Listing(b: Bus, l: Level, i: nat): seq<Device> {
    if i == 0 then []
    else Listing(b, l, i - 1) + (if Shown(b, l, i - 1) then [DeviceOf(b, i - 1)] else [])
  }

  predicate Has(ds: seq<Device>, devfn: nat) { exists k :: 0 <= k < |ds| && ds[k].devfn == devfn }

  /** The device list after the scan of functions below i. */
  ghost function Merged(ds: seq<Device>, b: Bus, l: Level, i: nat): seq<Device> {
    if i == 0 then ds
    else
      var m := Merged(ds, b, l, i - 1);
      if Shown(b, l, i - 1) && !Has(m, i - 1) then m + [DeviceOf(b, i - 1)] else m
  }

  /** In devfn order, each below i, shown, and as it answered. */
  ghost predicate Sorted(b: Bus, l: Level, r: seq<Device>, i: nat) {
    && (forall j, k | 0 <= j < k < |r| :: r[j].devfn < r[k].devfn)
    && (forall k | 0 <= k < |r| :: r[k].devfn < i && Shown(b, l, r[k].devfn) && r[k] == DeviceOf(b, r[k].devfn))
  }

  lemma {:induction false} ListingSorted(b: Bus, l: Level, i: nat)
    ensures Sorted(b, l, Listing(b, l, i), i)
  {
    if i > 0 { ListingSorted(b, l, i - 1); }
  }

  lemma HasNext(t: seq<Device>, d: Device, e: nat)
    ensures Has(t + [d], e) <==> Has(t, e) || d.devfn == e
  {
    if Has(t, e) {
      var k :| 0 <= k < |t| && t[k].devfn == e;
      assert (t + [d])[k].devfn == e;
    }
    assert (t + [d])[|t|] == d;
  }

  lemma {:induction false} ListingHas(b: Bus, l: Level, i: nat, e: nat)
    ensures Has(Listing(b, l, i), e) <==> e < i && Shown(b, l, e)
  {
    if i > 0 {
      ListingHas(b, l, i - 1, e);
      if Shown(b, l, i - 1) { HasNext(Listing(b, l, i - 1), DeviceOf(b, i - 1), e); }
      else { assert Listing(b, l, i) == Listing(b, l, i - 1); }
    }
  }

  /** The list of bus n: the functions below i that Found says are there, in devfn order,
      once each, with the vendor, header type and class they answered. */
  lemma ListingExact(b: Bus, n: nat, i: nat)
    ensures var r := Listing(b, LevelOf(n), i);
      && (forall j, k | 0 <= j < k < |r| :: r[j].devfn < r[k].devfn)
      && (forall k | 0 <= k < |r| ::
            && r[k].devfn < i && Found(b, n, r[k].devfn)
            && (var f := b.fns[r[k].devfn].value;
                r[k] == Device(r[k].devfn, f.vendor, f.header % 0x80, f.classId)))
      && (forall e | 0 <= e < i :: Found(b, n, e) <==> Has(r, e))
  {
    var l := LevelOf(n);
    ListingSorted(b, l, i);
    var r := Listing(b, l, i);
    forall k | 0 <= k < |r| ensures Found(b, n, r[k].devfn) { FoundExact(b, n, r[k].devfn); }
    forall e | 0 <= e < i ensures Found(b, n, e) <==> Has(r, e) {
      ListingHas(b, l, i, e);
      FoundExact(b, n, e);
    }
  }

  /** From an empty list the scan binds exactly the functions that respond and are
      function 0 or behind a multi-function function 0, once each, in order. */
  lemma {:induction false} ScanExact(b: Bus, l: Level, i: nat)
    ensures Merged([], b, l, i) == Listing(b, l, i)
  {
    if i > 0 {
      ScanExact(b, l, i - 1);
      ListingSorted(b, l, i - 1);
    }
  }

  /** A second scan adds nothing. */
  lemma {:induction false} RescanAddsNothing(b: Bus, l: Level, ds: seq<Device>, i: nat)
    requires i <= FNS && forall e | 0 <= e < i && Shown(b, l, e) :: Has(ds, e)
    ensures Merged(ds, b, l, i) == ds
  {
    if i > 0 { RescanAddsNothing(b, l, ds, i - 1); }
  }

  /** The next entry of the list, when the entries for functions below i are done. */
  lemma {:induction false} NextShown(b: Bus, l: Level, i: nat) returns (e: nat)
    requires i <= FNS && |Listing(b, l, i)| < |Listing(b, l, FNS)|
    ensures i <= e < FNS && Shown(b, l, e)
    ensures forall j | i <= j < e :: !Shown(b, l, j)
    ensures var k := |Listing(b, l, i)|;
      && |Listing(b, l, e)| == k && |Listing(b, l, e + 1)| == k + 1
      && Listing(b, l, FNS)[k] == DeviceOf(b, e)
    decreases FNS - i
  {
    if i == FNS {
      assert false;
    } else if Shown(b, l, i) {
      e := i;
      ListingPrefix(b, l, i + 1, FNS);
    } else {
      e := NextShown(b, l, i + 1);
    }
  }

  lemma {:induction false} ListingPrefix(b: Bus, l: Level, i: nat, j: nat)
    requires i <= j
    ensures Listing(b, l, i) <= Listing(b, l, j)
    decreases j
  {
    if i < j { ListingPrefix(b, l, i, j - 1); }
  }

  /** Functions nobody sees have no buses behind them to count or number. */
  lemma {:induction false} SkipHidden(b: Bus, p: Path, l: Level, n: nat, regs: map<Path, Regs>, i: nat, e: nat)
    requires i <= e <= FNS && Laid(b, p, l, n, i, regs)
    requires forall j | i <= j < e :: !Shown(b, l, j) && At(regs, p + [j]) == RESET
    ensures Count(b, l, e) == Count(b, l, i) && Laid(b, p, l, n, e, regs)
    decreases e
  {
    if i < e {
      SkipHidden(b, p, l, n, regs, i, e - 1);
      assert LaidFn(b, p, l, n, e - 1, regs);
    }
  }

  // ---- configuration space ----

  datatype Field = Pri | Sec | Sub

  function Put(r: Regs, f: Field, v: nat): Regs {
    match f
    case Pri => r.(pri := v % 0x100)
    case Sec => r.(sec := v % 0x100)
    case Sub => r.(sub := v % 0x100)
  }

  lemma AllPut(r: Regs, n: nat, s: nat)
    requires n < 0x100 && s < 0x100
    ensures Put(Put(Put(r, Pri, n), Sec, s), Sub, 0xff) == Regs(n, s, 0xff)
  {}

  lemma WroteOver(q: Path, v: Regs, u: Regs, r0: map<Path, Regs>, r1: map<Path, Regs>, r2: map<Path, Regs>)
    requires Wrote(q, v, r0, r1) && Wrote(q, u, r1, r2)
    ensures Wrote(q, u, r0, r2)
  {}

  /** All that lies at or below q is as reset left it. */
  ghost predicate Untouched(q: Path, regs: map<Path, Regs>) {
    forall x: Path | q <= x :: At(regs, x) == RESET
  }

  lemma PrefixCut(p: Path, i: nat, x: Path)
    ensures p + [i] <= x ==> p <= x && x != p
  {}

  /** Changes at or below function i of an open bus do not close the way to it. */
  lemma BelowOnly(root: Bus, p: Path, n: nat, i: nat, r: map<Path, Regs>, r': map<Path, Regs>)
    requires Open(root, p, n, r)
    requires forall x: Path | !(p + [i] <= x) :: At(r', x) == At(r, x)
    ensures Open(root, p, n, r')
  {
    forall x: Path | !(p <= x) || x == p ensures At(r', x) == At(r, x) {
      PrefixCut(p, i, x);
    }
    OpenFrame(root, p, n, r, r');
  }

  lemma BelowClear(q: Path, i: nat, p: Path, r: map<Path, Regs>, r': map<Path, Regs>)
    requires q == p + [i] && Untouched(q, r) && forall x: Path | x != q :: At(r', x) == At(r, x)
    ensures forall x: Path | q <= x && x != q :: At(r', x) == RESET
  {}

  lemma StillBelow(p: Path, i: nat, r: map<Path, Regs>, r': map<Path, Regs>)
    requires forall x: Path | !(p + [i] <= x) :: At(r', x) == At(r, x)
    ensures forall x: Path | !(p <= x) || x == p :: At(r', x) == At(r, x)
  {}

  lemma Apart(p: Path, i: nat, j: nat, x: Path)
    requires i != j
    ensures !(p + [i] <= x) || !(p + [j] <= x)
  {
    if p + [i] <= x { assert x[|p|] == i; }
    assert (p + [j])[|p|] == j;
  }

  /** Function i numbered, those before it left alone. */
  lemma NextDone(b: Bus, p: Path, l: Level, n: nat, i: nat, r: map<Path, Regs>, r': map<Path, Regs>)
    requires i < FNS && Laid(b, p, l, n, i, r) && LaidFn(b, p, l, n, i, r')
    requires forall x: Path | !(p + [i] <= x) :: At(r', x) == At(r, x)
    requires forall j: nat | i <= j :: Untouched(p + [j], r)
    ensures Laid(b, p, l, n, i + 1, r')
    ensures forall j: nat | i + 1 <= j :: Untouched(p + [j], r')
  {
    forall x: Path, j: nat | j != i && p + [j] <= x ensures At(r', x) == At(r, x) { Apart(p, i, j, x); }
    LaidFrame(b, p, l, n, i, r, r');
  }

  ghost predicate ProperTo(b: Bus, l: Level, i: nat) {
    forall j | 0 <= j < i && IsBridge(b, l, j) ::
      Slot(b, j).value.header % 0x80 == BRIDGE_HEADER && Proper(Slot(b, j).value.below, Under(l))
  }

  /** The list is done: no function from i on is left. */
  lemma {:induction false} NoneLeft(b: Bus, l: Level, i: nat, e: nat)
    requires i <= e && |Listing(b, l, i)| == |Listing(b, l, e)|
    ensures forall j | i <= j < e :: !Shown(b, l, j)
    decreases e
  {
    if i < e {
      ListingPrefix(b, l, i, e - 1);
      NoneLeft(b, l, i, e - 1);
    }
  }

  /** The bridge closed over the numbers s..m its subtree took. */
  lemma AfterPostscan(b: Bus, p: Path, i: nat, n: nat, s: nat, m: nat,
                      was: map<Path, Regs>, done: map<Path, Regs>, regs: map<Path, Regs>)
    requires s <= m < 0x100 && AllLow(p, was, s)
    requires AllLow(p + [i], done, m + 1)
    requires At(done, p + [i]) == Regs(n, s, 0xff)
    requires forall x: Path | !(p + [i] <= x) :: At(done, x) == At(was, x)
    requires Wrote(p + [i], Put(At(done, p + [i]), Sub, m), done, regs)
    ensures At(regs, p + [i]) == Regs(n, s, m) && AllLow(p, regs, m + 1)
    ensures forall x: Path | !(p + [i] <= x) :: At(regs, x) == At(was, x)
    ensures forall l: Level | Laid(b, p + [i], l, s, FNS, done) :: Laid(b, p + [i], l, s, FNS, regs)
  {
    var q := p + [i];
    forall x: Path | !(x <= p) ensures Low(At(regs, x), m + 1) {
      PrefixOn(x, p, i);
    }
    forall l: Level | Laid(b, q, l, s, FNS, done) ensures Laid(b, q, l, s, FNS, regs) {
      forall x: Path, j | 0 <= j < FNS && q + [j] <= x ensures At(regs, x) == At(done, x) {
        assert |x| > |q|;
      }
      LaidFrame(b, q, l, s, FNS, done, regs);
    }
  }

  class PciBus {
    var number: nat             // bus_number
    var lastSub: nat            // bus_number_last_sub
    var devices: seq<Device>
    var active: bool            // the bridge's DM_FLAG_ACTIVATED

    constructor ()
      ensures number == lastSub == 0 && devices == [] && !active
    {
      number, lastSub, devices, active := 0, 0, [], false;
    }
  }

  class Enumerator {
    const root: Bus                   // the hardware
    var regs: map<Path, Regs>         // its bridges' bus-number registers
    var last: nat                     // bus_number_last

    constructor (hardware: Bus)
      ensures root == hardware && regs == map[] && last == 0
    {
      root, regs, last := hardware, map[], 0;
    }

    /** The root complex is a single-function device. */
    ghost predicate SingleRoot() { Slot(root, 0).Some? ==> !Multi(Slot(root, 0).value) }

    /** The function a read of (n, devfn) reaches, if any. */
    function Answer(n: nat, devfn: nat): Option<Fn> reads this {
      if n < 2 && devfn / 8 > 0 then None
      else if n == 0 then Slot(root, 0)
      else
        var t := Target(root, regs, n);
        if |t| == 1 then Slot(t[0].1, devfn) else None
    }

    /** The bus at p has number n and cycles for n reach it. */
    ghost predicate Here(p: Path, n: nat, b: Bus)
      reads this
    {
      Open(root, p, n, regs) && b == BusAt(root, p)
    }

    lemma HereAnswers(p: Path, n: nat, b: Bus, i: nat)
      requires Here(p, n, b) && SingleRoot() && (i % 8 == 0 || n > 0) && i < FNS
      ensures Answer(n, i) == if n < 2 && i / 8 > 0 then None else Slot(b, i)
    {
      OpenRouting(root, p, n, regs);
      OnlyRootIsZero(root, p, n, regs);
    }

    /** A byte write to one of the bus-number registers of function devfn of bus n. */
    method ConfigWrite(n: nat, devfn: nat, f: Field, v: nat, ghost p: Path, ghost b: Bus)
      requires Here(p, n, b) && devfn < FNS && Slot(b, devfn).Some?
      modifies this`regs
      ensures Wrote(p + [devfn], Put(old(At(regs, p + [devfn])), f, v), old(regs), regs)
      ensures Here(p, n, b)
    {
      OpenRouting(root, p, n, regs);
      var t := Target(root, regs, n);
      var q := t[0].0 + [devfn];
      ghost var was := regs;
      regs := regs[q := Put(At(regs, q), f, v)];
      forall x: Path | !(p <= x) || x == p ensures At(regs, x) == At(was, x) {
        if p <= p + [devfn] { assert x != q; }
      }
      OpenFrame(root, p, n, was, regs);
    }

    // ---- one bus ----

    /** One function looked at. */
    method CheckFunction(bus: PciBus, i: nat, foundMulti: bool, ghost p: Path, ghost b: Bus) returns (multi: bool)
      requires Here(p, bus.number, b) && SingleRoot() && i < FNS && (i % 8 == 0 || bus.number > 0)
      modifies bus`devices
      ensures var l := LevelOf(bus.number);
        && bus.devices == (if Responds(b, l, i) && !Has(old(bus.devices), i)
                           then old(bus.devices) + [DeviceOf(b, i)] else old(bus.devices))
        && multi == if i % 8 == 0 then Family(b, l, i) else foundMulti
    {
      HereAnswers(p, bus.number, b, i);
      multi := foundMulti && i % 8 != 0;
      var f := Answer(bus.number, i);
      if f.None? || f.value.vendor == 0xffff || f.value.vendor == 0 { return; }
      if i % 8 == 0 { multi := Multi(f.value); }
      if !Has(bus.devices, i) {
        bus.devices := bus.devices + [Device(i, f.value.vendor, f.value.header % 0x80, f.value.classId)];
      }
    }

    lemma SameDevice(i: nat)
      ensures (i + 1) % 8 != 0 ==> i + 1 - (i + 1) % 8 == i - i % 8
    {}

    /** The root complex, being single-function, is only ever looked at once. */
    lemma RootOnce(p: Path, n: nat, b: Bus, i: nat)
      requires Here(p, n, b) && SingleRoot() && Family(b, LevelOf(n), i)
      ensures n > 0
    {
      OnlyRootIsZero(root, p, n, regs);
    }

    /** One turn of the scan. */
    method ScanStep(bus: PciBus, i: nat, foundMulti: bool, ghost p: Path, ghost b: Bus) returns (multi: bool)
      requires Here(p, bus.number, b) && SingleRoot() && i < FNS
      requires i % 8 != 0 ==> foundMulti == Family(b, LevelOf(bus.number), i)
      modifies bus`devices
      ensures var l := LevelOf(bus.number);
        && bus.devices == (if Shown(b, l, i) && !Has(old(bus.devices), i)
                           then old(bus.devices) + [DeviceOf(b, i)] else old(bus.devices))
        && ((i + 1) % 8 != 0 ==> multi == Family(b, l, i + 1))
    {
      SameDevice(i);
      multi := foundMulti && i % 8 != 0;
      if i % 8 == 0 || multi {
        if multi { RootOnce(p, bus.number, b, i); }
        multi := CheckFunction(bus, i, multi, p, b);
      }
    }

    /** pci_bind_bus_devices.  All it needs is that cycles for the bus's number reach
        that bus. */
    method BindBusDevices(bus: PciBus, ghost p: Path, ghost b: Bus)
      requires Here(p, bus.number, b) && SingleRoot()
      modifies bus`devices
      ensures bus.devices == Merged(old(bus.devices), b, LevelOf(bus.number), 256)
    {
      var foundMulti := false;
      var i := 0;
      while i < FNS
        invariant 0 <= i <= FNS
        invariant i % 8 != 0 ==> foundMulti == Family(b, LevelOf(bus.number), i)
        invariant bus.devices == Merged(old(bus.devices), b, LevelOf(bus.number), i)
      {
        foundMulti := ScanStep(bus, i, foundMulti, p, b);
        i := i + 1;
      }
    }

    // ---- the tree ----

    lemma ShownDevice(p: Path, n: nat, b: Bus, i: nat)
      requires Here(p, n, b) && SingleRoot() && Shown(b, LevelOf(n), i)
      ensures n == 0 ==> i == 0
      ensures !(n < 2 && i / 8 > 0)
    {
      OnlyRootIsZero(root, p, n, regs);
    }

    /** The bus-number half of pciauto_prescan_setup_bridge */
    method Prescan(n: nat, devfn: nat, s: nat, ghost p: Path, ghost b: Bus)
      requires Here(p, n, b) && devfn < FNS && Slot(b, devfn).Some? && s < 0x100
      modifies this`regs
      ensures Wrote(p + [devfn], Regs(n, s, 0xff), old(regs), regs) && Here(p, n, b)
    {
      ghost var r0 := regs;
      ConfigWrite(n, devfn, Pri, n, p, b);
      ghost var r1 := regs;
      ConfigWrite(n, devfn, Sec, s, p, b);
      WroteOver(p + [devfn], At(r1, p + [devfn]), At(regs, p + [devfn]), r0, r1, regs);
      ghost var r2 := regs;
      ConfigWrite(n, devfn, Sub, 0xff, p, b);
      WroteOver(p + [devfn], At(r2, p + [devfn]), At(regs, p + [devfn]), r0, r2, regs);
      AllPut(At(r0, p + [devfn]), n, s);
    }

    /** pci_probe_bus for the bus behind function devfn of the bus at p.  The call it
        makes to itself for the parent finds the parent's bridge active. */
    method ProbeBus(bus: PciBus, n: nat, devfn: nat, ghost p: Path, ghost b: Bus) returns (ok: bool)
      requires Here(p, n, b) && SingleRoot() && AllLow(p, regs, last + 1) && Untouched(p + [devfn], regs)
      requires devfn < FNS && IsBridge(b, LevelOf(n), devfn) && n <= last && (n == 0 ==> last == 0)
      requires last + CountFn(b, LevelOf(n), devfn) <= 0xff
      requires !bus.active && bus.devices == []
      modifies this`regs, this`last, bus
      ensures bus.active == ok
      ensures ok <==>
        Slot(b, devfn).value.header % 0x80 == BRIDGE_HEADER && Proper(Slot(b, devfn).value.below, Under(LevelOf(n)))
      ensures ok ==>
        && last == old(last) + CountFn(b, LevelOf(n), devfn) == bus.lastSub
        && At(regs, p + [devfn]) == Regs(n, old(last) + 1, last)
        && Laid(Slot(b, devfn).value.below, p + [devfn], Under(LevelOf(n)), old(last) + 1, FNS, regs)
        && AllLow(p, regs, last + 1)
      ensures forall x: Path | !(p + [devfn] <= x) :: At(regs, x) == old(At(regs, x))
      decreases b, 1
    {
      ShownDevice(p, n, b, devfn);
      HereAnswers(p, n, b, devfn);
      var header := Answer(n, devfn).value.header;
      if header % 0x80 != BRIDGE_HEADER { return false; }
      ok := Descend(bus, n, devfn, p, b);
    }

    /** The rest of pci_probe_bus: number the bus, open the bridge, scan and configure
        the bus, close the bridge over the numbers that took. */
    method Descend(bus: PciBus, n: nat, devfn: nat, ghost p: Path, ghost b: Bus) returns (ok: bool)
      requires Here(p, n, b) && SingleRoot() && AllLow(p, regs, last + 1) && Untouched(p + [devfn], regs)
      requires devfn < FNS && IsBridge(b, LevelOf(n), devfn) && n <= last && LevelOf(last + 1) == Under(LevelOf(n))
      requires last + 1 + Count(Slot(b, devfn).value.below, Under(LevelOf(n)), FNS) <= 0xff
      requires bus.devices == []
      modifies this`regs, this`last, bus
      ensures bus.active == ok
      ensures ok <==> Proper(Slot(b, devfn).value.below, Under(LevelOf(n)))
      ensures ok ==>
        && last == old(last) + 1 + Count(Slot(b, devfn).value.below, Under(LevelOf(n)), FNS) == bus.lastSub
        && At(regs, p + [devfn]) == Regs(n, old(last) + 1, last)
        && Laid(Slot(b, devfn).value.below, p + [devfn], Under(LevelOf(n)), old(last) + 1, FNS, regs)
        && AllLow(p, regs, last + 1)
      ensures forall x: Path | !(p + [devfn] <= x) :: At(regs, x) == old(At(regs, x))
      decreases b, 0
    {
      ghost var f, q, was := Slot(b, devfn).value, p + [devfn], regs;
      Number(bus, n, devfn, p, b);
      ghost var mid := regs;
      BelowClear(q, devfn, p, was, mid);
      ok := ScanBus(bus, q, f.below);
      BelowOnly(root, p, n, devfn, mid, regs);
      if !ok { bus.active := false; return; }
      Postscan(bus, n, devfn, old(last) + 1, p, b, was);
    }

    /** A numbered bus scanned and its devices configured. */
    method ScanBus(bus: PciBus, ghost p: Path, ghost b: Bus) returns (ok: bool)
      requires Here(p, bus.number, b) && SingleRoot() && AllLow(p, regs, last + 1)
      requires bus.number == bus.lastSub == last && bus.devices == [] && (p != [] ==> OnlyAbove(p, bus.number))
      requires forall x: Path | p <= x && x != p :: At(regs, x) == RESET
      requires last + Count(b, LevelOf(bus.number), FNS) <= 0xff
      modifies this`regs, this`last, bus`lastSub, bus`devices
      ensures bus.devices == Listing(b, LevelOf(bus.number), 256)
      ensures ok <==> Proper(b, LevelOf(bus.number))
      ensures ok ==>
        && last == bus.number + Count(b, LevelOf(bus.number), FNS) == bus.lastSub
        && Laid(b, p, LevelOf(bus.number), bus.number, FNS, regs)
        && AllLow(p, regs, last + 1)
      ensures forall x: Path | !(p <= x) || x == p :: At(regs, x) == old(At(regs, x))
      decreases b, 5
    {
      BindBusDevices(bus, p, b);
      ScanExact(b, LevelOf(last), FNS);
      ok := ConfigDevices(bus, p, b);
    }

    /** The bridges that forward cycles for bus n are exactly the ones above p. */
    ghost predicate OnlyAbove(p: Path, n: nat)
      reads this
    {
      forall x: Path | x != [] :: At(regs, x).sec <= n <= At(regs, x).sub <==> x <= p
    }

    /** The bridge active, its bus numbered and reachable, through the bridges above it
        and no others. */
    method Number(bus: PciBus, n: nat, devfn: nat, ghost p: Path, ghost b: Bus)
      requires Here(p, n, b) && AllLow(p, regs, last + 1) && n <= last < 0xff
      requires devfn < FNS && Slot(b, devfn).Some?
      modifies this`regs, this`last, bus`active, bus`number, bus`lastSub
      ensures bus.number == bus.lastSub == last == old(last) + 1 && bus.active
      ensures Here(p, n, b) && Here(p + [devfn], last, Slot(b, devfn).value.below)
      ensures AllLow(p + [devfn], regs, last) && Wrote(p + [devfn], Regs(n, last, 0xff), old(regs), regs)
      ensures OnlyAbove(p + [devfn], last)
    {
      bus.active := true;
      last := last + 1;
      bus.number := last;
      bus.lastSub := bus.number;
      ghost var was := regs;
      Prescan(n, devfn, bus.number, p, b);
      OpenChild(root, p, n, devfn, last, was, regs);
      forall x: Path | x != [] ensures At(regs, x).sec <= last <= At(regs, x).sub <==> x <= p + [devfn] {
        AncestorsExactly(root, p + [devfn], last, regs, x);
      }
    }

    /** The bus-number half of pciauto_postscan_setup_bridge */
    method Postscan(bus: PciBus, n: nat, devfn: nat, ghost s: nat, ghost p: Path, ghost b: Bus,
                    ghost was: map<Path, Regs>)
      requires Here(p, n, b) && devfn < FNS && Slot(b, devfn).Some?
      requires s <= bus.lastSub < 0x100 && AllLow(p, was, s) && AllLow(p + [devfn], regs, bus.lastSub + 1)
      requires At(regs, p + [devfn]) == Regs(n, s, 0xff)
      requires forall x: Path | !(p + [devfn] <= x) :: At(regs, x) == At(was, x)
      modifies this`regs
      ensures At(regs, p + [devfn]) == Regs(n, s, bus.lastSub) && AllLow(p, regs, bus.lastSub + 1)
      ensures forall x: Path | !(p + [devfn] <= x) :: At(regs, x) == At(was, x)
      ensures forall l: Level | Laid(Slot(b, devfn).value.below, p + [devfn], l, s, FNS, old(regs)) ::
        Laid(Slot(b, devfn).value.below, p + [devfn], l, s, FNS, regs)
    {
      ghost var done := regs;
      ConfigWrite(n, devfn, Sub, bus.lastSub, p, b);
      AfterPostscan(Slot(b, devfn).value.below, p, devfn, n, s, bus.lastSub, was, done, regs);
    }

    /** Functions below i of the bus have been configured. */
    ghost predicate Progress(bus: PciBus, p: Path, b: Bus, i: nat)
      reads this, bus
    {
      var l := LevelOf(bus.number);
      && Here(p, bus.number, b) && SingleRoot() && AllLow(p, regs, last + 1)
      && last == bus.number + Count(b, l, i)
      && Laid(b, p, l, bus.number, i, regs)
      && forall j: nat | i <= j :: Untouched(p + [j], regs)
    }

    /** pciauto_config_device, as far as bus numbers go. */
    method ConfigDevice(bus: PciBus, devfn: nat, ghost p: Path, ghost b: Bus) returns (ok: bool, sub: nat)
      requires Progress(bus, p, b, devfn) && devfn < FNS && Shown(b, LevelOf(bus.number), devfn)
      requires last + CountFn(b, LevelOf(bus.number), devfn) <= 0xff
      modifies this`regs, this`last
      ensures ok <==> (IsBridge(b, LevelOf(bus.number), devfn) ==>
        && Slot(b, devfn).value.header % 0x80 == BRIDGE_HEADER
        && Proper(Slot(b, devfn).value.below, Under(LevelOf(bus.number))))
      ensures ok ==> Progress(bus, p, b, devfn + 1)
      ensures ok ==> sub == if IsBridge(b, LevelOf(bus.number), devfn) then last else bus.number
      ensures forall x: Path | !(p + [devfn] <= x) :: At(regs, x) == old(At(regs, x))
      decreases b, 2
    {
      ghost var was := regs;
      ShownDevice(p, bus.number, b, devfn);
      HereAnswers(p, bus.number, b, devfn);
      var classId := Answer(bus.number, devfn).value.classId;
      if classId == BRIDGE_CLASS {
        var child := new PciBus();
        ok := ProbeBus(child, bus.number, devfn, p, b);
        BelowOnly(root, p, bus.number, devfn, was, regs);
        if ok { NextDone(b, p, LevelOf(bus.number), bus.number, devfn, was, regs); }
        sub := child.lastSub;
      } else {
        ok, sub := true, bus.number;
        NextDone(b, p, LevelOf(bus.number), bus.number, devfn, was, regs);
      }
    }

    /** Past the functions the scan did not find, to the next on the list. */
    lemma SkipTo(bus: PciBus, p: Path, b: Bus, i: nat) returns (e: nat)
      requires Progress(bus, p, b, i) && ProperTo(b, LevelOf(bus.number), i) && i <= FNS
      requires bus.devices == Listing(b, LevelOf(bus.number), FNS)
      requires |Listing(b, LevelOf(bus.number), i)| < |bus.devices|
      ensures var l, k := LevelOf(bus.number), |Listing(b, LevelOf(bus.number), i)|;
        && i <= e < FNS && Shown(b, l, e) && bus.devices[k].devfn == e && |Listing(b, l, e + 1)| == k + 1
        && Progress(bus, p, b, e) && ProperTo(b, l, e)
        && last + CountFn(b, l, e) <= bus.number + Count(b, l, FNS)
    {
      var l := LevelOf(bus.number);
      e := NextShown(b, l, i);
      forall j | i <= j < e ensures At(regs, p + [j]) == RESET { assert Untouched(p + [j], regs); }
      SkipHidden(b, p, l, bus.number, regs, i, e);
      CountGrows(b, l, e, FNS);
    }

    lemma Begin(bus: PciBus, p: Path, b: Bus)
      requires Here(p, bus.number, b) && SingleRoot() && AllLow(p, regs, last + 1) && bus.number == last
      requires forall x: Path | p <= x && x != p :: At(regs, x) == RESET
      ensures Progress(bus, p, b, 0) && ProperTo(b, LevelOf(bus.number), 0)
    {}

    /** The end of the list. */
    lemma AllDone(bus: PciBus, p: Path, b: Bus, i: nat)
      requires Progress(bus, p, b, i) && ProperTo(b, LevelOf(bus.number), i) && i <= FNS
      requires |Listing(b, LevelOf(bus.number), i)| == |Listing(b, LevelOf(bus.number), FNS)|
      ensures Progress(bus, p, b, FNS) && Proper(b, LevelOf(bus.number))
    {
      var l := LevelOf(bus.number);
      NoneLeft(b, l, i, FNS);
      forall j | i <= j < FNS ensures At(regs, p + [j]) == RESET { assert Untouched(p + [j], regs); }
      SkipHidden(b, p, l, bus.number, regs, i, FNS);
    }

    /** The first k devices of the list, the functions below i, are configured. */
    ghost predicate Configured(bus: PciBus, p: Path, b: Bus, k: nat, i: nat)
      reads this, bus
    {
      var l := LevelOf(bus.number);
      && bus.devices == Listing(b, l, FNS) && i <= FNS && k == |Listing(b, l, i)| <= |bus.devices|
      && Progress(bus, p, b, i) && ProperTo(b, l, i) && bus.lastSub == last
    }

    /** One turn of pci_auto_config_devices. */
    method ConfigNext(bus: PciBus, k: nat, ghost p: Path, ghost b: Bus, ghost i: nat) returns (ok: bool, ghost i': nat)
      requires Configured(bus, p, b, k, i) && k < |bus.devices|
      requires bus.number + Count(b, LevelOf(bus.number), FNS) <= 0xff
      modifies this`regs, this`last, bus`lastSub
      ensures if ok then Configured(bus, p, b, k + 1, i') else !Proper(b, LevelOf(bus.number))
      ensures forall x: Path | !(p <= x) || x == p :: At(regs, x) == old(At(regs, x))
      decreases b, 3
    {
      ghost var e := SkipTo(bus, p, b, i);
      ghost var was := regs;
      var sub;
      ok, sub := ConfigDevice(bus, bus.devices[k].devfn, p, b);
      StillBelow(p, e, was, regs);
      i' := e + 1;
      if !ok { return; }
      if bus.lastSub < sub { bus.lastSub := sub; }
      OneConfigured(bus, k, p, b, e);
    }

    lemma OneConfigured(bus: PciBus, k: nat, p: Path, b: Bus, e: nat)
      requires Progress(bus, p, b, e + 1) && ProperTo(b, LevelOf(bus.number), e + 1) && e < FNS
      requires bus.devices == Listing(b, LevelOf(bus.number), FNS) && bus.lastSub == last
      requires |Listing(b, LevelOf(bus.number), e + 1)| == k + 1
      ensures Configured(bus, p, b, k + 1, e + 1)
    {
      ListingPrefix(b, LevelOf(bus.number), e + 1, FNS);
    }

    /** pci_auto_config_devices */
    method ConfigDevices(bus: PciBus, ghost p: Path, ghost b: Bus) returns (ok: bool)
      requires Here(p, bus.number, b) && SingleRoot() && AllLow(p, regs, last + 1)
      requires bus.number == bus.lastSub == last
      requires bus.devices == Listing(b, LevelOf(bus.number), FNS)
      requires forall x: Path | p <= x && x != p :: At(regs, x) == RESET
      requires last + Count(b, LevelOf(bus.number), FNS) <= 0xff
      modifies this`regs, this`last, bus`lastSub
      ensures ok <==> Proper(b, LevelOf(bus.number))
      ensures ok ==>
        && last == bus.number + Count(b, LevelOf(bus.number), FNS) == bus.lastSub
        && Laid(b, p, LevelOf(bus.number), bus.number, FNS, regs)
        && AllLow(p, regs, last + 1)
      ensures forall x: Path | !(p <= x) || x == p :: At(regs, x) == old(At(regs, x))
      decreases b, 4
    {
      ghost var i: nat := 0;
      var k := 0;
      Begin(bus, p, b);
      while k < |bus.devices|
        invariant Configured(bus, p, b, k, i)
        invariant forall x: Path | !(p <= x) || x == p :: At(regs, x) == old(At(regs, x))
      {
        ok, i := ConfigNext(bus, k, p, b, i);
        if !ok { return; }
        k := k + 1;
      }
      AllDone(bus, p, b, i);
      ok := true;
    }

    /** The scan of a whole tree, as the library starts it: the root bus, number 0. */
    method Enumerate() returns (ok: bool, bus: PciBus)
      requires SingleRoot() && last == 0 && (forall x: Path :: At(regs, x) == RESET) && Count(root, 0, FNS) <= 0xff
      modifies this`regs, this`last
      ensures fresh(bus) && bus.devices == Listing(root, 0, 256)
      ensures ok <==> Proper(root, 0)
      ensures ok ==> Laid(root, [], 0, 0, 256, regs) && last == Count(root, 0, 256) == bus.lastSub
    {
      bus := new PciBus();
      assert Here([], 0, root);
      ok := ScanBus(bus, [], root);
    }
  }
}
