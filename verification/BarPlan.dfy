// What a region is asked for between two resets, and what an allocator without
// registers or word sizes would answer.

module BarPlan {
  import opened Words
  import opened SlotPool
  import opened Resources
  import opened BarAlloc

  datatype Range = Range(addr: nat, size: nat)

  function Top(g: Range): nat { g.addr + g.size }

  /** The ranges granted between two resets, in order. */
  type Stretch = seq<Range>

  /** A request, or a rounding to the bridge granularity. */
  datatype Want = Size(n: u32) | Round

  /** Where the allocator stands, and what it has granted. */
  datatype Trace = Trace(pos: nat, got: Stretch)

  /** The next multiple of the size if that fits below `end`; no bytes are granted only
      where the region ends at 4 GiB, and use it up. */
  ghost function Serve(end: nat, t: Trace, w: Want): Trace {
    match w
    case Round => t.(pos := Up(t.pos, MIB))
    case Size(n) =>
      if n == 0 then (if end == U32 then t.(pos := U32) else t)
      else
        var a := Up(t.pos, n);
        if a + n <= end then Trace(a + n, t.got + [Range(a, n)]) else t
  }

  /** All that is wanted, in order, from the start of the region; of the region only its
      bounds matter. */
  ghost function Follow(r: Region, wants: seq<Want>): Trace
    decreases |wants|
  {
    if wants == [] then Trace(r.start, [])
    else Serve(End(r), Follow(r, wants[..|wants| - 1]), wants[|wants| - 1])
  }

  lemma FollowNext(r: Region, wants: seq<Want>, w: Want)
    ensures Follow(r, wants + [w]) == Serve(End(r), Follow(r, wants), w)
  {
    assert (wants + [w])[..|wants|] == wants;
  }

  /** The end of the last range granted; the start of the region if none was. */
  ghost function Reached(r: Region, wants: seq<Want>): nat {
    var g := Follow(r, wants).got;
    if g == [] then r.start else Top(g[|g| - 1])
  }

  /** Nothing is asked for. */
  ghost predicate Quiet(wants: seq<Want>) { forall i | 0 <= i < |wants| :: wants[i].Round? }

  /** The request is one the region can be trusted with; `aligned`, its start is a
      multiple of it; `fits`, it is for something, and fits the region by itself. */
  ghost predicate WantOk(r: Region, n: u32, aligned: bool, fits: bool) {
    SizeOk(r.start, n, aligned) && (fits ==> 0 < n <= r.size)
  }

  ghost predicate PlanOk(r: Region, wants: seq<Want>, aligned: bool, fits: bool) {
    forall i | 0 <= i < |wants| && wants[i].Size? :: WantOk(r, wants[i].n, aligned, fits)
  }

  ghost predicate BoundsOk(r: Region, aligned: bool) {
    End(r) <= U32 && r.start >= FLOOR && (aligned ==> r.start % MIB == 0)
  }

  /** Ranges aligned to their sizes, inside the region, in ascending order. */
  ghost predicate StretchOk(r: Region, g: Stretch) {
    && (forall i | 0 <= i < |g| :: Within(g[i].addr, g[i].size, r.start, End(r)))
    && (forall i, j | 0 <= i < j < |g| :: Top(g[i]) <= g[j].addr)
  }

  /** A stretch that granted anything granted the region's start. */
  ghost predicate StartsLow(r: Region, g: Stretch) { g != [] ==> g[0].addr == r.start }

  lemma UpFixed(x: nat, p: nat)
    requires p > 0 && x % p == 0
    ensures Up(x, p) == x
  {}

  /** One more range at the end of a stretch. */
  lemma StretchGrows(r: Region, g: Stretch, a: nat, size: nat)
    requires StretchOk(r, g) && Within(a, size, r.start, End(r)) && (g != [] ==> Top(g[|g| - 1]) <= a)
    ensures StretchOk(r, g + [Range(a, size)])
  {
    forall i | 0 <= i < |g| ensures Top(g[i]) <= a {
      if i < |g| - 1 { assert Within(g[|g| - 1].addr, g[|g| - 1].size, r.start, End(r)); }
    }
  }

  /** The ranges lie in order between the start and the allocator; while there are none
      the allocator stands at an aligned start, or is used up. */
  ghost predicate TraceOk(r: Region, t: Trace, aligned: bool) {
    && r.start <= t.pos <= U32 && StretchOk(r, t.got)
    && (t.got != [] ==> Top(t.got[|t.got| - 1]) <= t.pos)
    && (aligned ==> StartsLow(r, t.got) && (t.got == [] ==> t.pos == r.start || t.pos == U32))
  }

  lemma RoundOk(r: Region, t: Trace, aligned: bool)
    requires BoundsOk(r, aligned) && TraceOk(r, t, aligned)
    ensures TraceOk(r, Serve(End(r), t, Round), aligned)
  {
    UpExact(t.pos, MIB);
    UpLeast(t.pos, MIB, U32);
  }

  lemma SizeServed(r: Region, t: Trace, n: u32, aligned: bool, fits: bool)
    requires BoundsOk(r, aligned) && TraceOk(r, t, aligned) && WantOk(r, n, aligned, fits)
    ensures TraceOk(r, Serve(End(r), t, Size(n)), aligned)
  {
    if n > 0 {
      var a := Up(t.pos, n);
      UpExact(t.pos, n);
      if a + n <= End(r) { StretchGrows(r, t.got, a, n); }
    }
  }

  lemma {:induction false} FollowOk(r: Region, wants: seq<Want>, aligned: bool, fits: bool)
    requires BoundsOk(r, aligned) && PlanOk(r, wants, aligned, fits)
    ensures TraceOk(r, Follow(r, wants), aligned)
    decreases |wants|
  {
    if wants != [] {
      var less, w := wants[..|wants| - 1], wants[|wants| - 1];
      FollowOk(r, less, aligned, fits);
      match w
      case Round => RoundOk(r, Follow(r, less), aligned);
      case Size(n) => SizeServed(r, Follow(r, less), n, aligned, fits);
    }
  }

  /** Where every request fits by itself something is granted if and only if something
      is asked for, and until then the allocator stands at the start. */
  lemma {:induction false} QuietExact(r: Region, wants: seq<Want>)
    requires BoundsOk(r, true) && PlanOk(r, wants, true, true)
    ensures var t := Follow(r, wants);
      (t.got == [] <==> Quiet(wants)) && (Quiet(wants) ==> t.pos == r.start)
    decreases |wants|
  {
    if wants != [] {
      var less := wants[..|wants| - 1];
      QuietExact(r, less);
      assert Quiet(wants) ==> Quiet(less);
      assert forall i | 0 <= i < |less| :: less[i] == wants[i];
    }
  }

  /** However the region is bounded, no requests, no ranges. */
  lemma {:induction false} QuietGetsNothing(r: Region, wants: seq<Want>)
    requires Quiet(wants)
    ensures Follow(r, wants).got == []
    decreases |wants|
  {
    if wants != [] { QuietGetsNothing(r, wants[..|wants| - 1]); }
  }
}
