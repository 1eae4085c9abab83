// The memory region over a whole tree of bridges: every bus starts the allocator
// over, every bridge rounds it and writes a window (pci_probe.c, pci_auto.c).

module BarTree {
  import opened Words
  import opened SlotPool
  import opened Resources
  import opened BarAlloc
  import opened BarPlan

  /** A function on a bus by what it asks of the region, and what lies behind it if
      it is a bridge. */
  datatype Node =
    | Device(sizes: seq<u32>)
    | Bridge(sizes: seq<u32>, below: seq<Node>)

  /** What a bridge's registers were set to and the stretches granted behind it up to
      then, the last one still open; what was wanted of the region in the stretch the
      bridge was met in, up to there, and in each stretch behind it. */
  datatype Win = Win(base: nat, limit: nat, behind: seq<Stretch>, before: seq<Want>, wants: seq<seq<Want>>)

  /** The region, the stretches so far with the open one last, what was wanted in each,
      the windows so far. */
  datatype State = State(r: Region, done: seq<Stretch>, plan: seq<seq<Want>>, wins: seq<Win>)

  // ---- what the source does ----

  /** x at the end of the last list. */
  function Append<T>(lists: seq<seq<T>>, x: T): (r: seq<seq<T>>)
    ensures |r| == |lists|
  {
    if lists == [] then lists else lists[|lists| - 1 := lists[|lists| - 1] + [x]]
  }

  /** The last list. */
  function Open<T>(lists: seq<seq<T>>): seq<T> {
    if lists == [] then [] else lists[|lists| - 1]
  }

  lemma AppendNew<T>(lists: seq<seq<T>>, x: T)
    ensures Append(lists + [[]], x) == lists + [[x]]
  {
    var none: seq<T> := [];
    var a := lists + [none];
    assert none + [x] == [x];
    assert Append(a, x) == a[|lists| := [x]];
  }

  /** One request; a range of no bytes is none. */
  function Ask(s: State, size: u32): (t: State)
    ensures |t.done| == |s.done| && |t.plan| == |s.plan| && t.wins == s.wins
  {
    var g := Grant(s.r, size);
    var t := s.(r := After(s.r, size), plan := Append(s.plan, Size(size)));
    if g.None? || size == 0 then t else t.(done := Append(s.done, Range(g.value, size)))
  }

  function Asks(s: State, sizes: seq<u32>): (t: State)
    ensures |t.done| == |s.done| && |t.plan| == |s.plan| && t.wins == s.wins
    decreases |sizes|
  {
    if sizes == [] then s else Asks(Ask(s, sizes[0]), sizes[1..])
  }

  /** pciauto_config_init for a bus: a new stretch from the start of the region. */
  function Restart(s: State): State { s.(r := Reset(s.r), done := s.done + [[]], plan := s.plan + [[]]) }

  /** The region rounded, before and after what is behind a bridge. */
  function RoundUp(s: State): State { s.(r := Rounded(s.r), plan := Append(s.plan, Round)) }

  /** Postscan of a bridge met at s with its own BARs placed at `open`. */
  function Closed(s: State, open: State, inner: State): State
    requires |s.done| <= |inner.done| && |s.plan| <= |inner.plan|
  {
    RoundUp(inner).(wins := inner.wins + [Win(BaseReg(Rounded(open.r)), LimitReg(Rounded(inner.r)),
                                              inner.done[|s.done|..], Open(open.plan), inner.plan[|s.plan|..])])
  }

  /** One function of a bus: its own BARs first, then what is behind it. */
  function Configure(s: State, n: Node): (t: State)
    ensures |t.done| >= |s.done| && |t.plan| >= |s.plan|
    decreases n, 0
  {
    match n
    case Device(sizes) => Asks(s, sizes)
    case Bridge(sizes, below) =>
      var open := Asks(s, sizes);
      Closed(s, open, Scan(RoundUp(open), below))
  }

  /** The functions of a bus from the i-th on. */
  function Rest(s: State, bus: seq<Node>, i: nat): (t: State)
    requires i <= |bus|
    ensures |t.done| >= |s.done| && |t.plan| >= |s.plan|
    decreases bus, 1, |bus| - i
  {
    if i == |bus| then s else Rest(Configure(s, bus[i]), bus, i + 1)
  }

  function Scan(s: State, bus: seq<Node>): (t: State)
    ensures |t.done| > |s.done| && |t.plan| > |s.plan|
    decreases bus, 2
  {
    Rest(Restart(s), bus, 0)
  }

  // ---- the wrapping allocator follows the plan ----

  ghost predicate SizesOk(r: Region, sizes: seq<u32>, aligned: bool, fits: bool) {
    forall i | 0 <= i < |sizes| :: WantOk(r, sizes[i], aligned, fits)
  }

  ghost predicate NodeOk(r: Region, n: Node, aligned: bool, fits: bool)
    decreases n, 0
  {
    SizesOk(r, n.sizes, aligned, fits) && (n.Bridge? ==> BusOk(r, n.below, aligned, fits))
  }

  ghost predicate BusOk(r: Region, bus: seq<Node>, aligned: bool, fits: bool)
    decreases bus, 1
  {
    forall i | 0 <= i < |bus| :: NodeOk(r, bus[i], aligned, fits)
  }

  ghost predicate SameRegion(a: Region, b: Region) {
    a.start == b.start && a.size == b.size
  }

  /** What was granted in a stretch is what following its plan grants. */
  ghost predicate Granted(r: Region, wants: seq<Want>, g: Stretch, aligned: bool, fits: bool) {
    PlanOk(r, wants, aligned, fits) && g == Follow(r, wants).got
  }

  /** A bridge's registers decode to where following the plan puts the allocator: rounded
      up before the bus behind it is scanned, 4 GiB showing as 0, and afterwards. */
  ghost predicate WinOk(r: Region, w: Win, aligned: bool, fits: bool) {
    && |w.wants| == |w.behind| > 0 && PlanOk(r, w.before, aligned, fits)
    && (forall j | 0 <= j < |w.behind| :: Granted(r, w.wants[j], w.behind[j], aligned, fits))
    && BaseOf(w.base) == Low32(Up(Follow(r, w.before).pos, MIB))
    && LimitOf(w.limit) + 1 == Up(Follow(r, Open(w.wants)).pos, MIB)
  }

  ghost predicate Good(r0: Region, s: State, aligned: bool, fits: bool) {
    && SameRegion(r0, s.r) && RegionOk(s.r) && BoundsOk(r0, aligned)
    && |s.plan| == |s.done| > 0
    && (forall j | 0 <= j < |s.done| :: Granted(r0, s.plan[j], s.done[j], aligned, fits))
    && Pos(s.r) == Follow(r0, Open(s.plan)).pos
    && (forall k | 0 <= k < |s.wins| :: WinOk(r0, s.wins[k], aligned, fits))
  }

  /** One request: granted when it fits, at the next multiple of its size. */
  lemma AskServes(r0: Region, r: Region, size: u32, t: Trace, aligned: bool, fits: bool)
    requires SameRegion(r0, r) && RegionOk(r) && BoundsOk(r0, aligned) && WantOk(r0, size, aligned, fits)
    requires Pos(r) == t.pos
    ensures var u := Serve(End(r0), t, Size(size));
      && SameRegion(r0, After(r, size)) && RegionOk(After(r, size)) && Pos(After(r, size)) == u.pos
      && u.got == (if Grant(r, size).None? || size == 0 then t.got else t.got + [Range(Grant(r, size).value, size)])
  {
    if size == 0 {
      RoomExact(r, 0);
      ZeroAligned(r.lower);
    } else {
      GrantExact(r, size);
    }
  }

  lemma PlanGrows(r: Region, wants: seq<Want>, w: Want, aligned: bool, fits: bool)
    requires PlanOk(r, wants, aligned, fits) && (w.Size? ==> WantOk(r, w.n, aligned, fits))
    ensures PlanOk(r, wants + [w], aligned, fits)
  {}

  /** The stretches and their plans, one more thing wanted in the open one. */
  lemma StretchesOn(r0: Region, s: State, w: Want, t: State, aligned: bool, fits: bool)
    requires |s.plan| == |s.done| > 0 && t.plan == Append(s.plan, w)
    requires forall j | 0 <= j < |s.done| :: Granted(r0, s.plan[j], s.done[j], aligned, fits)
    requires |t.done| == |s.done| && forall j | 0 <= j < |s.done| - 1 :: t.done[j] == s.done[j]
    requires Granted(r0, Open(s.plan) + [w], Open(t.done), aligned, fits)
    ensures forall j | 0 <= j < |t.done| :: Granted(r0, t.plan[j], t.done[j], aligned, fits)
  {
    forall j | 0 <= j < |t.done| ensures Granted(r0, t.plan[j], t.done[j], aligned, fits) {
      if j < |s.done| - 1 { assert Granted(r0, s.plan[j], s.done[j], aligned, fits); }
    }
  }

  /** One more thing wanted in the open stretch, and served. */
  lemma Onwards(r0: Region, s: State, w: Want, t: State, aligned: bool, fits: bool)
    requires Good(r0, s, aligned, fits) && SameRegion(r0, t.r) && RegionOk(t.r)
    requires t.plan == Append(s.plan, w) && t.wins == s.wins
    requires |t.done| == |s.done| && forall j | 0 <= j < |s.done| - 1 :: t.done[j] == s.done[j]
    requires Granted(r0, Open(s.plan) + [w], Open(t.done), aligned, fits)
    requires Pos(t.r) == Follow(r0, Open(s.plan) + [w]).pos
    ensures Good(r0, t, aligned, fits)
  {
    StretchesOn(r0, s, w, t, aligned, fits);
    assert Open(t.plan) == Open(s.plan) + [w];
  }

  lemma AskKeeps(r0: Region, s: State, size: u32, aligned: bool, fits: bool)
    requires Good(r0, s, aligned, fits) && WantOk(r0, size, aligned, fits)
    ensures Good(r0, Ask(s, size), aligned, fits)
  {
    var plan := Open(s.plan);
    assert Granted(r0, plan, s.done[|s.done| - 1], aligned, fits);
    AskServes(r0, s.r, size, Follow(r0, plan), aligned, fits);
    FollowNext(r0, plan, Size(size));
    PlanGrows(r0, plan, Size(size), aligned, fits);
    Onwards(r0, s, Size(size), Ask(s, size), aligned, fits);
  }

  lemma {:induction false} AsksKeep(r0: Region, s: State, sizes: seq<u32>, aligned: bool, fits: bool)
    requires Good(r0, s, aligned, fits) && SizesOk(r0, sizes, aligned, fits)
    ensures Good(r0, Asks(s, sizes), aligned, fits)
    decreases |sizes|
  {
    if sizes != [] {
      AskKeeps(r0, s, sizes[0], aligned, fits);
      AsksKeep(r0, Ask(s, sizes[0]), sizes[1..], aligned, fits);
    }
  }

  lemma RoundServes(r0: Region, r: Region, t: Trace)
    requires SameRegion(r0, r) && RegionOk(r) && Pos(r) == t.pos
    ensures var u := Serve(End(r0), t, Round);
      SameRegion(r0, Rounded(r)) && RegionOk(Rounded(r)) && Pos(Rounded(r)) == u.pos == Up(t.pos, MIB) && u.got == t.got
  {
    RoundedIsUp(r);
    UpExact(Pos(r), MIB);
  }

  lemma RoundKeeps(r0: Region, s: State, aligned: bool, fits: bool)
    requires Good(r0, s, aligned, fits)
    ensures Good(r0, RoundUp(s), aligned, fits) && Pos(Rounded(s.r)) == Up(Pos(s.r), MIB)
  {
    var plan := Open(s.plan);
    assert Granted(r0, plan, s.done[|s.done| - 1], aligned, fits);
    RoundServes(r0, s.r, Follow(r0, plan));
    FollowNext(r0, plan, Round);
    PlanGrows(r0, plan, Round, aligned, fits);
    Onwards(r0, s, Round, RoundUp(s), aligned, fits);
  }

  lemma RestartKeeps(r0: Region, s: State, aligned: bool, fits: bool)
    requires Good(r0, s, aligned, fits)
    ensures Good(r0, Restart(s), aligned, fits)
  {
    ResetOk(s.r);
  }

  lemma {:induction false} ConfigureKeeps(r0: Region, s: State, n: Node, aligned: bool, fits: bool)
    requires Good(r0, s, aligned, fits) && NodeOk(r0, n, aligned, fits)
    ensures Good(r0, Configure(s, n), aligned, fits)
    decreases n, 0
  {
    AsksKeep(r0, s, n.sizes, aligned, fits);
    if n.Bridge? {
      var open := Asks(s, n.sizes);
      RoundKeeps(r0, open, aligned, fits);
      ScanKeeps(r0, RoundUp(open), n.below, aligned, fits);
      CloseKeeps(r0, s, open, Scan(RoundUp(open), n.below), aligned, fits);
    }
  }

  // The registers of a bridge, decoded.
  lemma BaseDecoded(r: Region)
    ensures BaseOf(BaseReg(Rounded(r))) == Low32(Up(Pos(r), MIB))
  {
    RoundedIsUp(r);
    BaseDecodes(Rounded(r));
  }

  lemma LimitDecoded(r: Region)
    ensures LimitOf(LimitReg(Rounded(r))) + 1 == Up(Pos(r), MIB) == Pos(Rounded(r))
  {
    RoundedIsUp(r);
    LimitDecodes(Rounded(r));
  }

  /** A window with these fields. */
  lemma WindowGood(r0: Region, w: Win, inner: State, m: nat, aligned: bool, fits: bool)
    requires Good(r0, inner, aligned, fits) && m < |inner.done| && PlanOk(r0, w.before, aligned, fits)
    requires w.behind == inner.done[m..] && w.wants == inner.plan[m..]
    requires BaseOf(w.base) == Low32(Up(Follow(r0, w.before).pos, MIB))
    requires LimitOf(w.limit) + 1 == Up(Pos(inner.r), MIB)
    ensures WinOk(r0, w, aligned, fits)
  {
    assert Open(w.wants) == Open(inner.plan);
    forall j | 0 <= j < |w.behind| ensures Granted(r0, w.wants[j], w.behind[j], aligned, fits) {
      assert Granted(r0, inner.plan[m + j], inner.done[m + j], aligned, fits);
    }
  }

  lemma OneMoreWindow(r0: Region, s: State, w: Win, aligned: bool, fits: bool)
    requires Good(r0, s, aligned, fits) && WinOk(r0, w, aligned, fits)
    ensures Good(r0, s.(wins := s.wins + [w]), aligned, fits)
  {}

  /** The window written when a bridge is closed. */
  lemma CloseKeeps(r0: Region, s: State, open: State, inner: State, aligned: bool, fits: bool)
    requires Good(r0, open, aligned, fits) && Good(r0, inner, aligned, fits)
    requires |s.done| == |s.plan| < |inner.done|
    ensures Good(r0, Closed(s, open, inner), aligned, fits)
  {
    RoundKeeps(r0, inner, aligned, fits);
    BaseDecoded(open.r);
    LimitDecoded(inner.r);
    assert Granted(r0, Open(open.plan), open.done[|open.done| - 1], aligned, fits);
    var w := Closed(s, open, inner).wins[|inner.wins|];
    WindowGood(r0, w, inner, |s.done|, aligned, fits);
    OneMoreWindow(r0, RoundUp(inner), w, aligned, fits);
  }

  lemma {:induction false} RestKeeps(r0: Region, s: State, bus: seq<Node>, i: nat, aligned: bool, fits: bool)
    requires Good(r0, s, aligned, fits) && BusOk(r0, bus, aligned, fits) && i <= |bus|
    ensures Good(r0, Rest(s, bus, i), aligned, fits)
    decreases bus, 1, |bus| - i
  {
    if i < |bus| {
      ConfigureKeeps(r0, s, bus[i], aligned, fits);
      RestKeeps(r0, Configure(s, bus[i]), bus, i + 1, aligned, fits);
    }
  }

  lemma {:induction false} ScanKeeps(r0: Region, s: State, bus: seq<Node>, aligned: bool, fits: bool)
    requires Good(r0, s, aligned, fits) && BusOk(r0, bus, aligned, fits)
    ensures Good(r0, Scan(s, bus), aligned, fits)
    decreases bus, 2
  {
    RestartKeeps(r0, s, aligned, fits);
    RestKeeps(r0, Restart(s), bus, 0, aligned, fits);
  }

  // ---- a whole tree ----

  /** The scan of the root bus and all below it. */
  ghost function Whole(r: Region, bus: seq<Node>): State { Scan(State(r, [], [], []), bus) }

  ghost predicate TreeOk(r: Region, bus: seq<Node>, aligned: bool, fits: bool) {
    BoundsOk(r, aligned) && BusOk(r, bus, aligned, fits)
  }

  /** Over a whole tree the driver's allocator, in wrapping 32-bit words and with the
      windows it writes, does what the plan says. */
  lemma TreeFollows(r: Region, bus: seq<Node>, aligned: bool, fits: bool)
    requires TreeOk(r, bus, aligned, fits)
    ensures Good(r, Whole(r, bus), aligned, fits)
  {
    ResetOk(r);
    RestKeeps(r, Restart(State(r, [], [], [])), bus, 0, aligned, fits);
  }

  ghost predicate Disjoint(a: Range, b: Range) { Top(a) <= b.addr || Top(b) <= a.addr }

  /** No two ranges of the tree overlap. */
  ghost predicate AllDisjoint(done: seq<Stretch>) {
    forall j, i, k, m | 0 <= j < |done| && 0 <= i < |done[j]| && 0 <= k < |done| && 0 <= m < |done[k]|
      && (j, i) != (k, m) :: Disjoint(done[j][i], done[k][m])
  }

  ghost predicate OneGrants(done: seq<Stretch>) {
    forall j, k | 0 <= j < k < |done| :: done[j] == [] || done[k] == []
  }

  lemma StretchesOk(r0: Region, s: State, aligned: bool, fits: bool)
    requires Good(r0, s, aligned, fits)
    ensures forall j | 0 <= j < |s.done| :: StretchOk(r0, s.done[j]) && (aligned ==> StartsLow(r0, s.done[j]))
  {
    forall j | 0 <= j < |s.done| ensures StretchOk(r0, s.done[j]) && (aligned ==> StartsLow(r0, s.done[j])) {
      FollowOk(r0, s.plan[j], aligned, fits);
    }
  }

  /** Between two resets all ranges are aligned, inside the region, ascending and so
      disjoint, on however many buses they lie. */
  lemma TreePacked(r: Region, bus: seq<Node>, j: nat, i: nat, k: nat)
    requires TreeOk(r, bus, false, false) && j < |Whole(r, bus).done| && i < k < |Whole(r, bus).done[j]|
    ensures var g := Whole(r, bus).done[j];
      && Within(g[i].addr, g[i].size, r.start, End(r)) && Within(g[k].addr, g[k].size, r.start, End(r))
      && Top(g[i]) <= g[k].addr
  {
    TreeFollows(r, bus, false, false);
    StretchesOk(r, Whole(r, bus), false, false);
    assert StretchOk(r, Whole(r, bus).done[j]);
  }

  /** Over a whole tree, exactly: in a region that starts at a multiple of every size
      and of the bridge granularity, no two ranges overlap if and only if all of them
      were granted between the same two resets. */
  lemma TreeDisjointExact(r: Region, bus: seq<Node>)
    requires TreeOk(r, bus, true, false)
    ensures AllDisjoint(Whole(r, bus).done) <==> OneGrants(Whole(r, bus).done)
  {
    TreeFollows(r, bus, true, false);
    StretchesOk(r, Whole(r, bus), true, false);
    StretchesDisjointExact(r, Whole(r, bus).done);
  }

  lemma StretchesDisjointExact(r: Region, done: seq<Stretch>)
    requires forall j | 0 <= j < |done| :: StretchOk(r, done[j]) && StartsLow(r, done[j])
    ensures AllDisjoint(done) <==> OneGrants(done)
  {
    if !OneGrants(done) {
      var j, k :| 0 <= j < k < |done| && done[j] != [] && done[k] != [];
      assert Within(done[j][0].addr, done[j][0].size, r.start, End(r));
      assert Within(done[k][0].addr, done[k][0].size, r.start, End(r));
      assert (j, 0) != (k, 0) && !Disjoint(done[j][0], done[k][0]);
    } else {
      forall j, i, k, m | 0 <= j < |done| && 0 <= i < |done[j]| && 0 <= k < |done| && 0 <= m < |done[k]|
        && (j, i) != (k, m) ensures Disjoint(done[j][i], done[k][m])
      {
        assert done[j] != [] && done[k] != [];
        assert j == k;
      }
    }
  }

  // ---- what a tree wants decides ----

  /** What s and t were asked for, and when, is the same. */
  ghost predicate SamePlans(s: State, t: State) {
    && s.plan == t.plan && |s.wins| == |t.wins|
    && forall k | 0 <= k < |s.wins| :: s.wins[k].before == t.wins[k].before && s.wins[k].wants == t.wins[k].wants
  }

  lemma {:induction false} AsksPlan(s: State, t: State, sizes: seq<u32>)
    requires SamePlans(s, t)
    ensures SamePlans(Asks(s, sizes), Asks(t, sizes))
    decreases |sizes|
  {
    if sizes != [] { AsksPlan(Ask(s, sizes[0]), Ask(t, sizes[0]), sizes[1..]); }
  }

  lemma {:induction false} ConfigurePlans(s: State, t: State, n: Node)
    requires SamePlans(s, t)
    ensures SamePlans(Configure(s, n), Configure(t, n))
    decreases n, 0
  {
    AsksPlan(s, t, n.sizes);
    if n.Bridge? { ScanPlans(RoundUp(Asks(s, n.sizes)), RoundUp(Asks(t, n.sizes)), n.below); }
  }

  lemma {:induction false} RestPlans(s: State, t: State, bus: seq<Node>, i: nat)
    requires SamePlans(s, t) && i <= |bus|
    ensures SamePlans(Rest(s, bus, i), Rest(t, bus, i))
    decreases bus, 1, |bus| - i
  {
    if i < |bus| {
      ConfigurePlans(s, t, bus[i]);
      RestPlans(Configure(s, bus[i]), Configure(t, bus[i]), bus, i + 1);
    }
  }

  lemma {:induction false} ScanPlans(s: State, t: State, bus: seq<Node>)
    requires SamePlans(s, t)
    ensures SamePlans(Scan(s, bus), Scan(t, bus))
    decreases bus, 2
  {
    RestPlans(Restart(s), Restart(t), bus, 0);
  }

  /** What is wanted in which stretch, and behind which bridge, depends on the tree
      alone: it is the same in every region. */
  lemma TreePlans(r: Region, bus: seq<Node>, other: Region)
    ensures SamePlans(Whole(r, bus), Whole(other, bus))
  {
    ScanPlans(State(r, [], [], []), State(other, [], [], []), bus);
  }

  ghost predicate OneAsks(plan: seq<seq<Want>>) {
    forall j, k | 0 <= j < k < |plan| :: Quiet(plan[j]) || Quiet(plan[k])
  }

  lemma OneExact(r0: Region, s: State)
    requires Good(r0, s, true, true)
    ensures OneGrants(s.done) <==> OneAsks(s.plan)
  {
    forall j | 0 <= j < |s.done| ensures s.done[j] == [] <==> Quiet(s.plan[j]) { QuietExact(r0, s.plan[j]); }
    if OneAsks(s.plan) {
      forall j, k | 0 <= j < k < |s.done| ensures s.done[j] == [] || s.done[k] == [] {
        assert Quiet(s.plan[j]) || Quiet(s.plan[k]);
      }
    }
    if OneGrants(s.done) {
      forall j, k | 0 <= j < k < |s.plan| ensures Quiet(s.plan[j]) || Quiet(s.plan[k]) {
        assert s.done[j] == [] || s.done[k] == [];
      }
    }
  }

  /** Where every request fits by itself, the tree decides beforehand: no two ranges
      overlap if and only if everything it asks for falls between the same two resets,
      and what it asks for when is the same in every region. */
  lemma TreeDecides(r: Region, bus: seq<Node>, other: Region)
    requires TreeOk(r, bus, true, true)
    ensures AllDisjoint(Whole(r, bus).done) <==> OneAsks(Whole(r, bus).plan)
    ensures Whole(r, bus).plan == Whole(other, bus).plan
  {
    TreeFollows(r, bus, true, true);
    StretchesOk(r, Whole(r, bus), true, true);
    StretchesDisjointExact(r, Whole(r, bus).done);
    OneExact(r, Whole(r, bus));
    TreePlans(r, bus, other);
  }

  // ---- bridge windows ----

  /** What the two registers forward holds every one of these ranges. */
  ghost predicate Encloses(base: nat, limit: nat, behind: seq<Stretch>) {
    forall j, i | 0 <= j < |behind| && 0 <= i < |behind[j]| ::
      BaseOf(base) <= behind[j][i].addr && Top(behind[j][i]) <= LimitOf(limit) + 1
  }

  /** The registers cover every range granted behind the bridge. */
  ghost predicate Covers(w: Win) { Encloses(w.base, w.limit, w.behind) }

  /** No stretch behind the bridge begins below its base. */
  ghost predicate BaseHolds(w: Win) {
    forall j | 0 <= j < |w.behind| && w.behind[j] != [] :: BaseOf(w.base) <= w.behind[j][0].addr
  }

  /** No stretch behind the bridge that a later reset ended reaches past its limit. */
  ghost predicate LimitHolds(w: Win) {
    forall j | 0 <= j < |w.behind| - 1 && w.behind[j] != [] ::
      Top(w.behind[j][|w.behind[j]| - 1]) <= LimitOf(w.limit) + 1
  }

  /** Following the plan up to the bridge puts the allocator, rounded up, at 4 GiB. */
  ghost predicate UsedUp(r: Region, before: seq<Want>) { Up(Follow(r, before).pos, MIB) == U32 }

  /** Following the plan, no stretch but the last ends above where the last one, rounded
      up, does. */
  ghost predicate LastReachesHighest(r: Region, wants: seq<seq<Want>>) {
    forall j | 0 <= j < |wants| - 1 :: Reached(r, wants[j]) <= Up(Follow(r, Open(wants)).pos, MIB)
  }

  lemma BehindOk(r: Region, w: Win, j: nat, aligned: bool, fits: bool)
    requires BoundsOk(r, aligned) && WinOk(r, w, aligned, fits) && j < |w.behind|
    ensures StretchOk(r, w.behind[j]) && TraceOk(r, Follow(r, w.wants[j]), aligned)
    ensures w.behind[j] == Follow(r, w.wants[j]).got
  {
    assert Granted(r, w.wants[j], w.behind[j], aligned, fits);
    FollowOk(r, w.wants[j], aligned, fits);
  }

  lemma EndsSuffice(r: Region, w: Win, aligned: bool, fits: bool)
    requires BoundsOk(r, aligned) && WinOk(r, w, aligned, fits) && BaseHolds(w) && LimitHolds(w)
    ensures Covers(w)
  {
    WindowEnds(r, w, aligned, fits);
    forall j, i | 0 <= j < |w.behind| && 0 <= i < |w.behind[j]|
      ensures BaseOf(w.base) <= w.behind[j][i].addr && Top(w.behind[j][i]) <= LimitOf(w.limit) + 1
    {
      BehindOk(r, w, j, aligned, fits);
      EndsBound(r, w.behind[j], i);
    }
  }

  lemma EndsNeeded(w: Win)
    requires Covers(w)
    ensures BaseHolds(w) && LimitHolds(w)
  {
    forall j | 0 <= j < |w.behind| && w.behind[j] != []
      ensures BaseOf(w.base) <= w.behind[j][0].addr
      ensures Top(w.behind[j][|w.behind[j]| - 1]) <= LimitOf(w.limit) + 1
    {
      var last := |w.behind[j]| - 1;
      assert 0 <= last < |w.behind[j]|;
    }
  }

  lemma CoversExact(r: Region, w: Win, aligned: bool, fits: bool)
    requires BoundsOk(r, aligned) && WinOk(r, w, aligned, fits)
    ensures Covers(w) <==> BaseHolds(w) && LimitHolds(w)
  {
    if Covers(w) { EndsNeeded(w); }
    if BaseHolds(w) && LimitHolds(w) { EndsSuffice(r, w, aligned, fits); }
  }

  lemma EndsBound(r: Region, g: Stretch, i: nat)
    requires StretchOk(r, g) && i < |g|
    ensures g[0].addr <= g[i].addr && Top(g[i]) <= Top(g[|g| - 1])
  {
    if i > 0 { assert Top(g[0]) <= g[i].addr; }
    if i < |g| - 1 { assert Top(g[i]) <= g[|g| - 1].addr; }
  }

  /** One stretch behind a bridge against an address no lower than the start. */
  lemma StretchEnds(r: Region, w: Win, j: nat, limit: nat, aligned: bool, fits: bool)
    requires BoundsOk(r, aligned) && WinOk(r, w, aligned, fits) && j < |w.behind| && r.start <= limit
    ensures Reached(r, w.wants[j]) <= limit <==>
      (w.behind[j] != [] ==> Top(w.behind[j][|w.behind[j]| - 1]) <= limit)
    ensures Quiet(w.wants[j]) ==> w.behind[j] == []
  {
    BehindOk(r, w, j, aligned, fits);
    if Quiet(w.wants[j]) { QuietGetsNothing(r, w.wants[j]); }
  }

  lemma LimitExact(r: Region, w: Win, aligned: bool, fits: bool)
    requires BoundsOk(r, aligned) && WinOk(r, w, aligned, fits)
    ensures LimitHolds(w) <==> LastReachesHighest(r, w.wants)
    ensures (forall j | 0 <= j < |w.wants| - 1 :: Quiet(w.wants[j])) ==> LimitHolds(w)
  {
    var limit := LimitOf(w.limit) + 1;
    WindowEnds(r, w, aligned, fits);
    forall j | 0 <= j < |w.wants| - 1
      ensures Reached(r, w.wants[j]) <= limit <==>
        (w.behind[j] != [] ==> Top(w.behind[j][|w.behind[j]| - 1]) <= limit)
      ensures Quiet(w.wants[j]) ==> w.behind[j] == []
    {
      StretchEnds(r, w, j, limit, aligned, fits);
    }
  }

  /** The last stretch behind a bridge ends inside its window. */
  lemma WindowEnds(r: Region, w: Win, aligned: bool, fits: bool)
    requires BoundsOk(r, aligned) && WinOk(r, w, aligned, fits)
    ensures r.start <= LimitOf(w.limit) + 1
    ensures var g := w.behind[|w.behind| - 1]; g != [] ==> r.start < Top(g[|g| - 1]) <= LimitOf(w.limit) + 1
  {
    var g := w.behind[|w.behind| - 1];
    BehindOk(r, w, |w.behind| - 1, aligned, fits);
    UpExact(Follow(r, Open(w.wants)).pos, MIB);
    if g != [] { assert Within(g[|g| - 1].addr, g[|g| - 1].size, r.start, End(r)); }
  }

  /** An aligned region's stretches begin at its start. */
  lemma BaseExact(r: Region, w: Win, fits: bool)
    requires BoundsOk(r, true) && WinOk(r, w, true, fits)
    ensures BaseHolds(w) <==> BaseOf(w.base) <= r.start || forall j | 0 <= j < |w.behind| :: w.behind[j] == []
  {
    forall j | 0 <= j < |w.behind| ensures StartsLow(r, w.behind[j]) { BehindOk(r, w, j, true, fits); }
  }

  lemma BaseDecides(r: Region, w: Win)
    requires BoundsOk(r, true) && WinOk(r, w, true, true)
    ensures BaseHolds(w) <==>
      Quiet(w.before) || UsedUp(r, w.before) || forall j | 0 <= j < |w.wants| :: Quiet(w.wants[j])
  {
    BaseExact(r, w, true);
    forall j | 0 <= j < |w.wants| ensures w.behind[j] == [] <==> Quiet(w.wants[j]) { QuietExact(r, w.wants[j]); }
    QuietExact(r, w.before);
    FollowOk(r, w.before, true, true);
    BaseLow(r, Follow(r, w.before));
  }

  /** A base at or below an aligned start. */
  lemma BaseLow(r: Region, t: Trace)
    requires BoundsOk(r, true) && TraceOk(r, t, true)
    ensures Low32(Up(t.pos, MIB)) <= r.start <==> t.pos == r.start || Up(t.pos, MIB) == U32
  {
    UpExact(t.pos, MIB);
    UpFixed(r.start, MIB);
    UpLeast(t.pos, MIB, U32);
  }

  /** Every bridge of every tree, exactly: its window covers all that was granted
      behind it, at any depth, if and only if no stretch there begins below the base
      and none but the last ends above the limit.  The second is so if and only if,
      following the plan, none reaches higher than the last one rounded up, as where
      those before the last ask for nothing; in an aligned region the first is so if
      and only if the base is not above the start or nothing is granted behind. */
  lemma TreeWindowsExact(r: Region, bus: seq<Node>, aligned: bool, k: nat)
    requires TreeOk(r, bus, aligned, false) && k < |Whole(r, bus).wins|
    ensures var w := Whole(r, bus).wins[k];
      && (Covers(w) <==> BaseHolds(w) && LimitHolds(w))
      && (LimitHolds(w) <==> LastReachesHighest(r, w.wants))
      && ((forall j | 0 <= j < |w.wants| - 1 :: Quiet(w.wants[j])) ==> LimitHolds(w))
      && (aligned ==> (BaseHolds(w) <==>
            BaseOf(w.base) <= r.start || forall j | 0 <= j < |w.behind| :: w.behind[j] == []))
  {
    TreeFollows(r, bus, aligned, false);
    var w := Whole(r, bus).wins[k];
    CoversExact(r, w, aligned, false);
    LimitExact(r, w, aligned, false);
    if aligned { BaseExact(r, w, false); }
  }

  /** Where every request fits by itself, the tree and the bounds of the region decide
      beforehand.  The window covers what is behind the bridge if and only if nothing
      is asked for on its bus or above since the reset before it, or that much that the
      base shows 4 GiB as 0, or nothing is asked for behind it; and behind it no
      stretch reaches higher than the last one rounded up.  What is asked for when is
      the same in every region. */
  lemma TreeWindowsDecide(r: Region, bus: seq<Node>, k: nat, other: Region)
    requires TreeOk(r, bus, true, true) && k < |Whole(r, bus).wins|
    ensures var w := Whole(r, bus).wins[k];
      Covers(w) <==>
        && (Quiet(w.before) || UsedUp(r, w.before) || forall j | 0 <= j < |w.wants| :: Quiet(w.wants[j]))
        && LastReachesHighest(r, w.wants)
    ensures SamePlans(Whole(r, bus), Whole(other, bus))
  {
    TreeFollows(r, bus, true, true);
    var w := Whole(r, bus).wins[k];
    CoversExact(r, w, true, true);
    LimitExact(r, w, true, true);
    BaseDecides(r, w);
    TreePlans(r, bus, other);
  }

  /** The last window is the bridge's own. */
  lemma LastWindow(r0: Region, s: State, n: Node, aligned: bool, fits: bool)
    requires Good(r0, Configure(s, n), aligned, fits) && n.Bridge?
    ensures var open := Asks(s, n.sizes);
      var inner := Scan(RoundUp(open), n.below);
      var t := Configure(s, n);
      && t == Closed(s, open, inner) && WinOk(r0, t.wins[|t.wins| - 1], aligned, fits)
  {
    var t := Configure(s, n);
    assert WinOk(r0, t.wins[|t.wins| - 1], aligned, fits);
  }

  /** What the two registers of a bridge decode to: the allocator rounded up before
      the bus behind it is scanned, 4 GiB showing as 0, and the last byte below the
      allocator rounded up afterwards. */
  lemma WindowDecodes(r0: Region, s: State, n: Node, aligned: bool)
    requires Good(r0, s, aligned, false) && NodeOk(r0, n, aligned, false) && n.Bridge?
    ensures var open := Asks(s, n.sizes);
      var inner := Scan(RoundUp(open), n.below);
      var t := Configure(s, n);
      t.wins != [] &&
        var w := t.wins[|t.wins| - 1];
        && WinOk(r0, w, aligned, false) && w.behind == inner.done[|s.done|..]
        && w.before == Open(open.plan) && w.wants == inner.plan[|s.plan|..]
        && BaseOf(w.base) == Low32(Up(Pos(open.r), MIB))
        && LimitOf(w.limit) + 1 == Up(Pos(inner.r), MIB) == Pos(t.r)
  {
    var open := Asks(s, n.sizes);
    AsksKeep(r0, s, n.sizes, aligned, false);
    BaseDecoded(open.r);
    LimitDecoded(Scan(RoundUp(open), n.below).r);
    ConfigureKeeps(r0, s, n, aligned, false);
    LastWindow(r0, s, n, aligned, false);
  }

  /** The window of a bridge met with the allocator at the start. */
  lemma OwnWindow(r0: Region, s: State, n: Node) returns (w: Win, pos: nat)
    requires Good(r0, s, true, false) && NodeOk(r0, n, true, false) && n.Bridge?
    requires Pos(Asks(s, n.sizes).r) == r0.start
    ensures var t := Configure(s, n); t.wins != [] && w == t.wins[|t.wins| - 1] && pos == Pos(t.r)
    ensures WinOk(r0, w, true, false) && BaseOf(w.base) == r0.start && LimitOf(w.limit) + 1 == pos
  {
    WindowDecodes(r0, s, n, true);
    StartShows(r0);
    var t := Configure(s, n);
    w, pos := t.wins[|t.wins| - 1], Pos(t.r);
  }

  lemma StartShows(r: Region)
    requires BoundsOk(r, true)
    ensures Low32(Up(r.start, MIB)) == r.start
  {
    UpFixed(r.start, MIB);
  }

  lemma FreshFacts(r: Region, w: Win, pos: nat)
    requires BoundsOk(r, true) && WinOk(r, w, true, false)
    requires BaseOf(w.base) == r.start && LimitOf(w.limit) + 1 == pos
    ensures (Covers(w) <==> LimitHolds(w)) && (LimitOf(w.limit) < BaseOf(w.base) <==> pos == r.start)
    ensures pos == r.start ==> w.behind[|w.behind| - 1] == []
  {
    CoversExact(r, w, true, false);
    BaseExact(r, w, false);
    WindowEnds(r, w, true, false);
  }

  /** A bridge met while the allocator stands at the start of an aligned region.  Its
      base is the start; it covers what is behind it unless a stretch that a later
      reset ended reaches past the limit; it is empty if and only if the allocator
      ended at the start, and then the last stretch granted nothing. */
  lemma FreshWindow(r0: Region, s: State, n: Node)
    requires Good(r0, s, true, false) && NodeOk(r0, n, true, false) && n.Bridge?
    requires Pos(Asks(s, n.sizes).r) == r0.start
    ensures var t := Configure(s, n);
      t.wins != [] &&
      var w := t.wins[|t.wins| - 1];
      && BaseOf(w.base) == r0.start && w.behind != [] && (Covers(w) <==> LimitHolds(w))
      && (LimitOf(w.limit) < BaseOf(w.base) <==> Pos(t.r) == r0.start)
      && (Pos(t.r) == r0.start ==> w.behind[|w.behind| - 1] == [])
  {
    var w, pos := OwnWindow(r0, s, n);
    FreshFacts(r0, w, pos);
  }

  lemma {:induction false} DevicesStay(s: State, bus: seq<Node>, i: nat)
    requires i <= |bus| && forall j | 0 <= j < |bus| :: bus[j].Device?
    ensures |Rest(s, bus, i).done| == |s.done|
    decreases |bus| - i
  {
    if i < |bus| { DevicesStay(Configure(s, bus[i]), bus, i + 1); }
  }

  /** With plain devices behind it the window of such a bridge covers them all. */
  lemma PlainWindow(r0: Region, s: State, n: Node)
    requires Good(r0, s, true, false) && NodeOk(r0, n, true, false) && n.Bridge?
    requires Pos(Asks(s, n.sizes).r) == r0.start
    requires forall j | 0 <= j < |n.below| :: n.below[j].Device?
    ensures var t := Configure(s, n); t.wins != [] && Covers(t.wins[|t.wins| - 1])
  {
    FreshWindow(r0, s, n);
    WindowDecodes(r0, s, n, true);
    DevicesStay(Restart(RoundUp(Asks(s, n.sizes))), n.below, 0);
  }

  // ---- two bridges behind a bridge ----

  /** A bridge with no BARs of its own and one device, asking for s bytes, behind it. */
  function Lone(s: u32): Node { Bridge([], [Device([s])]) }

  lemma LoneShape(s: State, size: u32)
    ensures Configure(s, Lone(size)) == Closed(s, s, Ask(Restart(RoundUp(s)), size))
  {
    var began := Restart(RoundUp(s));
    var one, below := Ask(began, size), [Device([size])];
    assert [size][1..] == [];
    assert Asks(one, []) == one;
    assert Asks(began, [size]) == one;
    assert Configure(began, below[0]) == one;
    assert Rest(one, below, 1) == one;
    assert Rest(began, below, 0) == one;
    assert Scan(RoundUp(s), below) == one;
    assert Asks(s, []) == s;
  }

  /** A request at the start of a region gets the start. */
  lemma FirstGets(r: Region, size: u32)
    requires End(r) <= U32 && r.start >= FLOOR
    requires Sizable(r.start, size) && r.start % size == 0 && r.start + size <= End(r)
    ensures Grant(Reset(r), size) == Some(r.start)
    ensures var t := After(Reset(r), size); SameRegion(t, r) && RegionOk(t) && Pos(t) == r.start + size
  {
    ResetOk(r);
    UpFixed(r.start, size);
    GrantExact(Reset(r), size);
  }

  /** t is s after a bridge whose only device got `size` bytes at the start. */
  ghost predicate LoneDone(s: State, size: u32, t: State) {
    && SameRegion(t.r, s.r) && Pos(t.r) == Up(s.r.start + size, MIB) && t.r.lower % MIB == 0
    && t.done == s.done + [[Range(s.r.start, size)]]
    && |t.wins| == |s.wins| + 1 && t.wins[..|s.wins|] == s.wins && |t.plan| >= |s.plan|
    && (var w := t.wins[|s.wins|];
        w.base == BaseReg(Rounded(s.r)) && w.limit == LimitReg(t.r) && w.behind == [[Range(s.r.start, size)]])
  }

  lemma LoneAsk(s: State, size: u32) returns (one: State)
    requires End(s.r) <= U32 && s.r.start >= FLOOR
    requires Sizable(s.r.start, size) && s.r.start % size == 0 && s.r.start + size <= End(s.r)
    ensures one == Ask(Restart(RoundUp(s)), size)
    ensures SameRegion(one.r, s.r) && Pos(one.r) == s.r.start + size
    ensures one.done == s.done + [[Range(s.r.start, size)]] && one.wins == s.wins
  {
    FirstGets(Rounded(s.r), size);
    AppendNew(s.done, Range(s.r.start, size));
    one := Ask(Restart(RoundUp(s)), size);
  }

  lemma LoneAfter(s: State, size: u32, one: State)
    requires SameRegion(one.r, s.r) && Pos(one.r) == s.r.start + size
    requires one.done == s.done + [[Range(s.r.start, size)]] && one.wins == s.wins && |one.plan| >= |s.plan|
    ensures LoneDone(s, size, Closed(s, s, one))
  {
    RoundedIsUp(one.r);
    assert one.done[|s.done|..] == [[Range(s.r.start, size)]];
  }

  /** Wherever the allocator stood, such a device gets the start of the region. */
  lemma LoneGets(s: State, size: u32)
    requires End(s.r) <= U32 && s.r.start >= FLOOR
    requires Sizable(s.r.start, size) && s.r.start % size == 0 && s.r.start + size <= End(s.r)
    ensures LoneDone(s, size, Configure(s, Lone(size)))
  {
    LoneShape(s, size);
    var one := LoneAsk(s, size);
    LoneAfter(s, size, one);
  }

  lemma NestedShape(s: State, s1: u32, s2: u32)
    ensures var c1 := Configure(Restart(RoundUp(s)), Lone(s1));
      Configure(s, Bridge([], [Lone(s1), Lone(s2)])) == Closed(s, s, Configure(c1, Lone(s2)))
  {
    var bus := [Lone(s1), Lone(s2)];
    var began := Restart(RoundUp(s));
    var c1 := Configure(began, bus[0]);
    var c2 := Configure(c1, bus[1]);
    assert Rest(c2, bus, 2) == c2;
    assert Rest(c1, bus, 1) == c2;
    assert Rest(began, bus, 0) == c2;
    assert Asks(s, []) == s;
  }

  lemma UpSum(a: nat, b: nat)
    requires a % MIB == 0 && b % MIB == 0
    ensures Up(a + b, MIB) == a + b && (a + b) % MIB == 0
  {}

  lemma NestedAfter(s: State, s1: u32, s2: u32, began: State, c1: State, c2: State)
    requires End(s.r) <= U32 && s.r.start >= FLOOR && s.r.start % MIB == 0 && Pos(s.r) == s.r.start
    requires s2 < s1 && s1 % MIB == 0 && s2 % MIB == 0 && s.r.start + s1 < End(s.r)
    requires SameRegion(began.r, s.r) && began.done == s.done + [[]] && began.wins == s.wins
    requires |began.plan| >= |s.plan| && LoneDone(began, s1, c1) && LoneDone(c1, s2, c2)
    ensures NestedWrong(s, s1, s2, Closed(s, s, c2))
  {
    var start, t := s.r.start, Closed(s, s, c2);
    assert c2.done[|s.done|..] == [[], [Range(start, s1)], [Range(start, s2)]];
    UpSum(start, 0);
    UpSum(start, s1);
    UpSum(start, s2);
    BaseAt(s.r, start);
    BaseAt(c1.r, start + s1);
    LimitAt(c2.r, start + s2);
    assert c2.wins[|s.wins| + 1] == t.wins[|s.wins| + 1];
    var w := t.wins[|s.wins| + 2];
    assert Top(w.behind[1][0]) == start + s1;
  }

  /** A region whose allocator stands, or will when rounded, at a megabyte. */
  lemma BaseAt(r: Region, x: nat)
    requires x % MIB == 0 && x < U32 && Pos(r) == Up(x, MIB)
    ensures BaseOf(BaseReg(Rounded(r))) == x
  {
    UpFixed(x, MIB);
    BaseDecoded(r);
  }

  lemma LimitAt(r: Region, x: nat)
    requires x % MIB == 0 && Pos(r) == Up(x, MIB) && r.lower % MIB == 0
    ensures LimitOf(LimitReg(r)) + 1 == LimitOf(LimitReg(Rounded(r))) + 1 == x
  {
    UpFixed(x, MIB);
    LimitDecoded(r);
    LimitDecodes(r);
  }

  /** The last three windows of t: the first inner bridge's, the second's, the outer. */
  ghost predicate NestedWrong(s: State, s1: nat, s2: nat, t: State) {
    && |t.wins| == |s.wins| + 3
    && (var start, inner, outer := s.r.start, t.wins[|s.wins| + 1], t.wins[|s.wins| + 2];
        && outer.behind == [[], [Range(start, s1)], [Range(start, s2)]]
        && BaseOf(outer.base) == start && LimitOf(outer.limit) + 1 == start + s2
        && BaseHolds(outer) && !Covers(outer)
        && inner.behind == [[Range(start, s2)]]
        && BaseOf(inner.base) == start + s1 && LimitOf(inner.limit) + 1 == start + s2)
  }

  /** A bridge over two bridges with a device each.  Nothing is taken before it, its
      base is right, and still its window ends below the first device when that is the
      larger one; the second inner bridge's own window is empty. */
  lemma NestedWindow(s: State, s1: u32, s2: u32)
    requires End(s.r) <= U32 && s.r.start >= FLOOR && s.r.start % MIB == 0 && Pos(s.r) == s.r.start
    requires Sizable(s.r.start, s1) && Sizable(s.r.start, s2) && s.r.start % s1 == 0 && s.r.start % s2 == 0
    requires s2 < s1 && s1 % MIB == 0 && s2 % MIB == 0 && s.r.start + s1 < End(s.r)
    ensures NestedWrong(s, s1, s2, Configure(s, Bridge([], [Lone(s1), Lone(s2)])))
  {
    NestedShape(s, s1, s2);
    var began := Restart(RoundUp(s));
    var c1 := Configure(began, Lone(s1));
    var c2 := Configure(c1, Lone(s2));
    LoneGets(began, s1);
    LoneGets(c1, s2);
    NestedAfter(s, s1, s2, began, c1, c2);
  }
}
