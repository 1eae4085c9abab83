// The demux-slot pool of pci_irq.c: 32 slots shared by every device, as the
// search functions the two allocators implement.

module SlotPool {
  import opened Words

  datatype Option<+T> = None | Some(value: T)

  const SLOTS: nat := 32

  ghost function AllSlots(): set<nat> { Block(0, SLOTS) }

  ghost predicate Pool(used: set<nat>) {
    forall i | i in used :: i < SLOTS
  }

  // ---- any free slots (MSI-X) ----

  /** The first n free slots at or above `from`, fewer if the pool runs out. */
  ghost function FirstFree(used: set<nat>, from: nat, n: nat): seq<nat>
    decreases SLOTS - from, n, used
  {
    if from >= SLOTS || n == 0 then []
    else if from in used then FirstFree(used, from + 1, n)
    else [from] + FirstFree(used, from + 1, n - 1)
  }

  ghost function Elems(s: seq<nat>): set<nat> { set x | x in s }

  ghost predicate Ascending(s: seq<nat>) {
    forall i, j | 0 <= i < j < |s| :: s[i] < s[j]
  }

  ghost function FreeAbove(used: set<nat>, from: nat): set<nat>
  {
    set i: nat | i < SLOTS && Between(from, i) && i !in used
  }

  ghost predicate Between(from: nat, i: nat) { from <= i }

  lemma FreeAboveStep(used: set<nat>, from: nat)
    requires from < SLOTS
    ensures from !in FreeAbove(used, from + 1)
    ensures from in used ==> FreeAbove(used, from) == FreeAbove(used, from + 1)
    ensures from !in used ==> FreeAbove(used, from) == {from} + FreeAbove(used, from + 1)
  {}

  /** FirstFree takes distinct free slots and stops early only when no free
      slot is left. */
  lemma {:induction false} FirstFreeExact(used: set<nat>, from: nat, n: nat)
    ensures var r := FirstFree(used, from, n);
      && Ascending(r)
      && (forall i | 0 <= i < |r| :: r[i] in FreeAbove(used, from))
      && |r| == (if n <= |FreeAbove(used, from)| then n else |FreeAbove(used, from)|)
    decreases SLOTS - from
  {
    if from >= SLOTS {
      assert FreeAbove(used, from) == {};
    } else if n > 0 {
      FreeAboveStep(used, from);
      if from in used {
        FirstFreeExact(used, from + 1, n);
      } else {
        FirstFreeExact(used, from + 1, n - 1);
        var t := FirstFree(used, from + 1, n - 1);
        forall j | 0 <= j < |t| ensures t[j] > from { assert Between(from + 1, t[j]); }
      }
    }
  }

  /** The slots taken are the lowest free ones. */
  lemma {:induction false} FirstFreeLowest(used: set<nat>, from: nat, n: nat, x: nat)
    requires x in FreeAbove(used, from)
    ensures var r := FirstFree(used, from, n);
      x in r || (forall i | 0 <= i < |r| :: r[i] < x)
    decreases SLOTS - from
  {
    if n > 0 {
      FreeAboveStep(used, from);
      assert Between(from, x);
      if from in used {
        FirstFreeLowest(used, from + 1, n, x);
      } else if x != from {
        FirstFreeLowest(used, from + 1, n - 1, x);
      }
    }
  }

  lemma AscendingDistinct(s: seq<nat>)
    requires Ascending(s)
    ensures forall i, j | 0 <= i < |s| && 0 <= j < |s| && i != j :: s[i] != s[j]
  {}

  /** How many slots are free altogether. */
  ghost function FreeCount(used: set<nat>): nat { |FreeAbove(used, 0)| }

  // ---- an aligned block (multi-message MSI) ----

  ghost predicate FreeBlock(used: set<nat>, n: nat, b: nat)
    requires n > 0
  {
    b % n == 0 && b + n <= SLOTS && Block(b, n) !! used
  }

  ghost function LowestBlock(used: set<nat>, n: nat, base: nat): Option<nat>
    requires n > 0
    decreases SLOTS - base
  {
    if base + n > SLOTS then None
    else if Block(base, n) !! used then Some(base)
    else LowestBlock(used, n, base + n)
  }

  /** The search finds the lowest free aligned block, and fails iff there is none. */
  lemma {:induction false} LowestBlockExact(used: set<nat>, n: nat, base: nat)
    requires n > 0 && base % n == 0
    ensures var r := LowestBlock(used, n, base);
      && (r.Some? ==> r.value >= base && FreeBlock(used, n, r.value)
                      && forall b | base <= b < r.value :: !FreeBlock(used, n, b))
      && (r.None? ==> forall b | base <= b :: !FreeBlock(used, n, b))
    decreases SLOTS - base
  {
    if base + n <= SLOTS && !(Block(base, n) !! used) {
      NextMultiple(base, n);
      LowestBlockExact(used, n, base + n);
      forall b | base <= b < base + n ensures !FreeBlock(used, n, b) {
        NoMultipleBetween(base, b, n);
      }
    } else if base + n > SLOTS {
    }
  }

  lemma NextMultiple(base: nat, n: nat)
    requires n > 0 && base % n == 0
    ensures (base + n) % n == 0
  {
    assert base == n * (base / n);
    MulDist(n, base / n);
    DivUnique(base + n, n, base / n + 1, 0);
  }

  lemma MulDist(n: nat, q: nat)
    ensures n * (q + 1) == n * q + n
  {}

  lemma NoMultipleBetween(base: nat, b: nat, n: nat)
    requires n > 0 && base % n == 0 && base <= b < base + n
    ensures b % n == 0 <==> b == base
  {
    assert base == n * (base / n);
    DivUnique(b, n, base / n, b - base);
  }

  // ---- block sizes ----

  ghost predicate IsPow2(n: nat) {
    n > 0 && (n == 1 || (n % 2 == 0 && IsPow2(n / 2)))
  }

  /** The block sizes a 32-slot pool can serve. */
  lemma {:induction false} BlockSizes(n: nat)
    requires IsPow2(n) && n <= 32
    ensures n == 1 || n == 2 || n == 4 || n == 8 || n == 16 || n == 32
  {
    if n > 1 { BlockSizes(n / 2); }
  }

  /** Largest power of two not above v. */
  function RoundDownPow2(v: nat): nat
    requires v > 0
  {
    if v == 1 then 1 else 2 * RoundDownPow2(v / 2)
  }

  lemma {:induction false} RoundDownPow2Exact(v: nat)
    requires v > 0
    ensures IsPow2(RoundDownPow2(v))
    ensures RoundDownPow2(v) <= v < 2 * RoundDownPow2(v)
    ensures forall n: nat | IsPow2(n) && n <= v :: n <= RoundDownPow2(v)
  {
    if v > 1 {
      RoundDownPow2Exact(v / 2);
      forall n: nat | IsPow2(n) && n <= v ensures n <= RoundDownPow2(v) {
        if n > 1 { assert IsPow2(n / 2) && n / 2 <= v / 2; }
      }
    }
  }

  /** The halving search of pci_msi_alloc: block size and base. */
  ghost function LargestBlock(used: set<nat>, n: nat, min: nat): Option<(nat, nat)>
    requires IsPow2(n) && min > 0
    decreases n
  {
    if n < min then None
    else
      var b := LowestBlock(used, n, 0);
      if b.Some? then Some((n, b.value))
      else if n == 1 then None
      else LargestBlock(used, n / 2, min)
  }

  lemma {:induction false} Pow2Halves(n: nat, m: nat)
    requires IsPow2(n) && IsPow2(m) && m < n
    ensures m <= n / 2
    decreases n
  {
    if m > 1 && n > 1 { Pow2Halves(n / 2, m / 2); }
  }

  /** The halving search yields the largest size in range with a free aligned
      block, at its lowest place, and fails iff no size in range has one. */
  lemma {:induction false} LargestBlockExact(used: set<nat>, n: nat, min: nat)
    requires IsPow2(n) && min > 0
    ensures var r := LargestBlock(used, n, min);
      && (r.Some? ==>
            && IsPow2(r.value.0) && min <= r.value.0 <= n
            && FreeBlock(used, r.value.0, r.value.1)
            && (forall b | FreeBlock(used, r.value.0, b) :: r.value.1 <= b)
            && (forall m: nat, b | IsPow2(m) && r.value.0 < m <= n :: !FreeBlock(used, m, b)))
      && (r.None? ==> forall m: nat, b | IsPow2(m) && min <= m <= n :: !FreeBlock(used, m, b))
    decreases n
  {
    if n >= min {
      LowestBlockExact(used, n, 0);
      var b := LowestBlock(used, n, 0);
      if b.None? && n > 1 {
        LargestBlockExact(used, n / 2, min);
        forall m: nat | IsPow2(m) && m < n ensures m <= n / 2 { Pow2Halves(n, m); }
      }
    }
  }

  lemma Pow2IsPow2(k: nat)
    ensures IsPow2(Pow2(k))
  {}

  /** log2 of a power of two (`__builtin_ctz`). */
  ghost function Log2(n: nat): nat
    requires IsPow2(n)
  {
    if n == 1 then 0 else 1 + Log2(n / 2)
  }

  lemma {:induction false} Log2Exact(n: nat)
    requires IsPow2(n)
    ensures Pow2(Log2(n)) == n
  {
    if n > 1 { Log2Exact(n / 2); }
  }
}
