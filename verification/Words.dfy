// Unsigned machine words.  A word is a natural number below 2^32 and the C bit
// operators are defined bit by bit, so that one definition serves both the
// bitmap code (a word is a set of positions) and the address code (a word is a
// number).

module Words {
  const U32: nat := 0x1_0000_0000
  const U64: nat := 0x1_0000_0000_0000_0000

  type u32 = n: nat | n < U32
  type u64 = n: nat | n < U64

  function Pow2(k: nat): nat {
    if k == 0 then 1 else 2 * Pow2(k - 1)
  }

  predicate Bit(w: nat, i: nat) {
    if i == 0 then w % 2 == 1 else Bit(w / 2, i - 1)
  }

  function And(a: nat, b: nat): nat {
    if a == 0 || b == 0 then 0
    else 2 * And(a / 2, b / 2) + (if a % 2 == 1 && b % 2 == 1 then 1 else 0)
  }

  function Or(a: nat, b: nat): nat {
    if a == 0 then b else if b == 0 then a
    else 2 * Or(a / 2, b / 2) + (if a % 2 == 1 || b % 2 == 1 then 1 else 0)
  }

  /** `a & ~b` */
  function AndNot(a: nat, b: nat): nat {
    if a == 0 then 0
    else 2 * AndNot(a / 2, b / 2) + (if a % 2 == 1 && b % 2 == 0 then 1 else 0)
  }

  /** The position of the lowest set bit (`__builtin_ctz`). */
  function Ctz(w: nat): nat
    requires w > 0
  {
    if w % 2 == 1 then 0 else 1 + Ctz(w / 2)
  }

  // ---- numbers ----

  lemma Pow2Positive(k: nat)
    ensures Pow2(k) > 0
  {}

  lemma {:induction false} Pow2Add(a: nat, b: nat)
    ensures Pow2(a + b) == Pow2(a) * Pow2(b)
  {
    if a > 0 { Pow2Add(a - 1, b); assert a + b - 1 == (a - 1) + b; }
  }

  lemma {:induction false} Pow2Monotone(a: nat, b: nat)
    requires a <= b
    ensures Pow2(a) <= Pow2(b)
  {
    if a < b { Pow2Monotone(a, b - 1); Pow2Positive(b - 1); }
  }

  lemma Pow2Order(k: nat, n: nat)
    ensures Pow2(k) <= Pow2(n) <==> k <= n
  {
    Pow2Positive(n);
    if n < k { Pow2Monotone(n + 1, k); } else { Pow2Monotone(k, n); }
  }

  /** The powers this hardware's registers are cut at. */
  lemma Powers()
    ensures Pow2(0) == 1 && Pow2(1) == 2 && Pow2(2) == 4 && Pow2(3) == 8 && Pow2(4) == 16 && Pow2(10) == 0x400
    ensures Pow2(12) == 0x1000 && Pow2(14) == 0x4000 && Pow2(15) == 0x8000 && Pow2(16) == 0x1_0000
    ensures Pow2(20) == 0x10_0000 && Pow2(24) == 0x100_0000 && Pow2(30) == 0x4000_0000
  {
    assert Pow2(8) == 0x100;
    Pow2Add(8, 2);
    Pow2Add(8, 4);
    Pow2Add(8, 8);
    Pow2Add(10, 4);
    assert Pow2(15) == 2 * Pow2(14);
    Pow2Add(16, 4);
    Pow2Add(20, 4);
    Pow2Add(20, 10);
  }

  // ---- bits ----

  lemma {:induction false} BitOfZero(i: nat)
    ensures !Bit(0, i)
  {
    if i > 0 { BitOfZero(i - 1); }
  }

  lemma {:induction false} BitAnd(a: nat, b: nat, i: nat)
    ensures Bit(And(a, b), i) <==> Bit(a, i) && Bit(b, i)
  {
    BitOfZero(i);
    if a != 0 && b != 0 && i > 0 { BitAnd(a / 2, b / 2, i - 1); }
  }

  lemma {:induction false} BitOr(a: nat, b: nat, i: nat)
    ensures Bit(Or(a, b), i) <==> Bit(a, i) || Bit(b, i)
  {
    BitOfZero(i);
    if a != 0 && b != 0 && i > 0 { BitOr(a / 2, b / 2, i - 1); }
  }

  lemma {:induction false} BitAndNot(a: nat, b: nat, i: nat)
    ensures Bit(AndNot(a, b), i) <==> Bit(a, i) && !Bit(b, i)
  {
    BitOfZero(i);
    if a != 0 && i > 0 { BitAndNot(a / 2, b / 2, i - 1); }
  }

  lemma {:induction false} BitPow2(k: nat, i: nat)
    ensures Bit(Pow2(k), i) <==> i == k
  {
    if k > 0 && i > 0 { BitPow2(k - 1, i - 1); assert Pow2(k) / 2 == Pow2(k - 1); }
    else if k == 0 && i > 0 { BitOfZero(i - 1); assert Bit(1, i) == Bit(0, i - 1); }
  }

  lemma HalfLess(q: nat, p: nat)
    requires q == 2 * p && p >= 1
    ensures (q - 1) / 2 == p - 1 && (q - 1) % 2 == 1
  {}

  lemma {:induction false} LowMaskBit(n: nat, i: nat, p: nat)
    requires p == Pow2(n)
    ensures p >= 1 && (Bit(p - 1, i) <==> i < n)
    decreases n
  {
    Pow2Positive(n);
    if n == 0 { BitOfZero(i); }
    else if i > 0 {
      LowMaskBit(n - 1, i - 1, Pow2(n - 1));
      HalfLess(p, Pow2(n - 1));
    }
  }

  lemma BitLowMask(n: nat, i: nat)
    ensures Pow2(n) >= 1
    ensures Bit(Pow2(n) - 1, i) <==> i < n
  {
    LowMaskBit(n, i, Pow2(n));
  }

  lemma {:induction false} BitShift(w: nat, k: nat, i: nat)
    ensures Bit(w * Pow2(k), i) <==> i >= k && Bit(w, i - k)
  {
    if k > 0 {
      assert w * Pow2(k) == 2 * (w * Pow2(k - 1));
      if i > 0 {
        BitShift(w, k - 1, i - 1);
        assert w * Pow2(k) / 2 == w * Pow2(k - 1);
      }
    }
  }

  lemma {:induction false} BitAbove(w: nat, n: nat, i: nat)
    requires w < Pow2(n) && n <= i
    ensures !Bit(w, i)
  {
    if w == 0 { BitOfZero(i); } else if n > 0 { BitAbove(w / 2, n - 1, i - 1); }
  }

  /** Words with the same bits are equal. */
  lemma {:induction false} BitExt(a: nat, b: nat)
    requires forall i: nat :: Bit(a, i) <==> Bit(b, i)
    ensures a == b
    decreases a + b
  {
    assert Bit(a, 0) <==> Bit(b, 0);
    if a + b > 0 {
      forall i: nat ensures Bit(a / 2, i) <==> Bit(b / 2, i) {
        assert Bit(a, i + 1) <==> Bit(b, i + 1);
      }
      BitExt(a / 2, b / 2);
    }
  }

  lemma {:induction false} OrBound(a: nat, b: nat, n: nat)
    requires a < Pow2(n) && b < Pow2(n)
    ensures Or(a, b) < Pow2(n)
  {
    if a != 0 && b != 0 && n > 0 { OrBound(a / 2, b / 2, n - 1); }
  }

  lemma {:induction false} AndBound(a: nat, b: nat)
    ensures And(a, b) <= a && And(a, b) <= b
  {
    if a != 0 && b != 0 { AndBound(a / 2, b / 2); }
  }

  lemma {:induction false} AndNotBound(a: nat, b: nat)
    ensures AndNot(a, b) <= a
  {
    if a != 0 { AndNotBound(a / 2, b / 2); }
  }

  // ---- words as numbers ----

  lemma MulOrder(d: nat, a: nat, b: nat)
    ensures a < b ==> d * a + d <= d * b
  {
    if a < b {
      assert d * b == d * (a + 1) + d * (b - a - 1);
      assert d * (a + 1) == d * a + d;
      assert d * (b - a - 1) >= 0;
    }
  }

  lemma DivUnique(y: nat, d: nat, q: nat, t: nat)
    requires t < d && y == d * q + t
    ensures y / d == q && y % d == t
  {
    var q' := y / d;
    assert y == d * q' + y % d;
    MulOrder(d, q', q);
    MulOrder(d, q, q');
  }

  /** Halving first: quotient and remainder by 2p from those of y / 2 by p. */
  lemma HalfMod(y: nat, p: nat)
    requires p > 0
    ensures y % (2 * p) == 2 * (y / 2 % p) + y % 2
  {
    var q, r := y / 2 / p, y / 2 % p;
    assert y / 2 == p * q + r;
    assert y == (2 * p) * q + (2 * r + y % 2) by { assert 2 * (p * q) == (2 * p) * q; }
    DivUnique(y, 2 * p, q, 2 * r + y % 2);
  }

  lemma HalfDiv(y: nat, p: nat)
    requires p > 0
    ensures y / (2 * p) == y / 2 / p
  {
    var q, r := y / 2 / p, y / 2 % p;
    assert y / 2 == p * q + r;
    assert y == (2 * p) * q + (2 * r + y % 2) by { assert 2 * (p * q) == (2 * p) * q; }
    DivUnique(y, 2 * p, q, 2 * r + y % 2);
  }

  /** Bit i is the last of what is left when i bits are taken off. */
  lemma {:induction false} BitExact(w: nat, i: nat, p: nat)
    requires p == Pow2(i)
    ensures p > 0 && (Bit(w, i) <==> w / p % 2 == 1)
  {
    Pow2Positive(i);
    if i > 0 {
      Pow2Positive(i - 1);
      BitExact(w / 2, i - 1, Pow2(i - 1));
      HalfDiv(w, Pow2(i - 1));
    }
  }

  // `m << k` and `w >> k`, a bit at a time.
  function Shl(m: nat, k: nat): nat { if k == 0 then m else 2 * Shl(m, k - 1) }
  function Shr(w: nat, k: nat): nat { if k == 0 then w else Shr(w / 2, k - 1) }

  lemma TwiceProduct(m: nat, h: nat)
    ensures 2 * (m * h) == m * (2 * h)
  {}

  lemma {:induction false} ShlExact(m: nat, k: nat)
    ensures Shl(m, k) == m * Pow2(k)
  {
    if k > 0 {
      ShlExact(m, k - 1);
      TwiceProduct(m, Pow2(k - 1));
    } else {
      assert m * 1 == m;
    }
  }

  lemma {:induction false} ShrExact(w: nat, k: nat, p: nat)
    requires p == Pow2(k)
    ensures p > 0 && Shr(w, k) == w / p
  {
    Pow2Positive(k);
    if k > 0 {
      Pow2Positive(k - 1);
      ShrExact(w / 2, k - 1, Pow2(k - 1));
      HalfDiv(w, Pow2(k - 1));
    }
  }

  /** A mask from bit k on is the mask from bit 0 on what is left. */
  lemma {:induction false} AndShift(w: nat, m: nat, k: nat)
    ensures And(w, Shl(m, k)) == Shl(And(Shr(w, k), m), k)
    decreases k
  {
    if k > 0 {
      HalfAnd(w, Shl(m, k - 1));
      AndShift(w / 2, m, k - 1);
    }
  }

  /** A field of n bits from bit k on. */
  lemma FieldExact(w: nat, n: nat, q: nat, k: nat, p: nat, mask: nat)
    requires q == Pow2(n) && p == Pow2(k) && q > 0 && p > 0 && mask == (q - 1) * p
    ensures And(w, mask) == w / p % q * p
  {
    ShlExact(q - 1, k);
    AndShift(w, q - 1, k);
    ShrExact(w, k, p);
    AndLowMask(w / p, n, q);
    ShlExact(w / p % q, k);
  }

  lemma HalfOr(y: nat, p: nat)
    requires p > 0
    ensures Or(y, 2 * p - 1) == 2 * Or(y / 2, p - 1) + 1
  {}

  lemma HalfAnd(y: nat, b: nat)
    ensures And(y, 2 * b) == 2 * And(y / 2, b)
    ensures And(y, 2 * b + 1) == 2 * And(y / 2, b) + y % 2
  {}

  /** `y | (2^k - 1)` rounds up to the end of the 2^k block y lies in. */
  lemma {:induction false} OrLowMask(y: nat, k: nat, p: nat)
    requires p == Pow2(k)
    ensures p >= 1 && Or(y, p - 1) == y - y % p + p - 1
  {
    Pow2Positive(k);
    if k > 0 {
      var h := Pow2(k - 1);
      Pow2Positive(k - 1);
      OrLowMask(y / 2, k - 1, h);
      HalfOr(y, h);
      HalfMod(y, h);
    } else {
      assert y % 1 == 0;
    }
  }

  /** `y & (2^k - 1)` is the remainder. */
  lemma {:induction false} AndLowMask(y: nat, k: nat, p: nat)
    requires p == Pow2(k)
    ensures p >= 1 && And(y, p - 1) == y % p
  {
    Pow2Positive(k);
    if k > 0 {
      var h := Pow2(k - 1);
      Pow2Positive(k - 1);
      AndLowMask(y / 2, k - 1, h);
      HalfAnd(y, h - 1);
      HalfMod(y, h);
    }
  }

  /** A mask of the bits k .. n-1 rounds an n-bit number down to a multiple of 2^k. */
  lemma {:induction false} AndHighMask(y: nat, n: nat, k: nat, p: nat)
    requires k <= n && y < Pow2(n) && p == Pow2(k)
    ensures Pow2(n) >= p >= 1 && And(y, Pow2(n) - p) == y - y % p
  {
    Pow2Monotone(k, n);
    Pow2Positive(k);
    if k > 0 {
      var h, g := Pow2(k - 1), Pow2(n - 1);
      Pow2Positive(k - 1);
      AndHighMask(y / 2, n - 1, k - 1, h);
      HalfAnd(y, g - h);
      HalfMod(y, h);
    } else {
      var q := Pow2(n);
      AndLowMask(y, n, q);
      DivUnique(y, q, 0, y);
      assert y % 1 == 0;
    }
  }

  lemma {:induction false} AndNotZero(y: nat)
    ensures AndNot(y, 0) == y
  {
    if y != 0 { AndNotZero(y / 2); }
  }

  /** OR of a multiple of 2^k with something below 2^k is their sum. */
  lemma {:induction false} OrDisjoint(a: nat, b: nat, k: nat)
    requires b < Pow2(k)
    ensures Or(a * Pow2(k), b) == a * Pow2(k) + b
  {
    if k > 0 && a != 0 && b != 0 {
      var p := Pow2(k - 1);
      Pow2Positive(k - 1);
      assert a * Pow2(k) == 2 * (a * p);
      OrDisjoint(a, b / 2, k - 1);
      assert a * p > 0;
    }
  }

  // ---- words as sets ----

  ghost function BitSet(w: nat): (s: set<nat>)
  {
    set i: nat | i < 32 && Bit(w, i)
  }

  /** The positions base .. base + n - 1. */
  ghost function Block(base: nat, n: nat): set<nat> {
    set i: nat | i < base + n && BlockHas(base, n, i)
  }

  ghost predicate BlockHas(base: nat, n: nat, i: nat) {
    base <= i < base + n
  }

  lemma {:induction false} BlockCount(base: nat, n: nat)
    ensures |Block(base, n)| == n
  {
    if n > 0 {
      BlockCount(base, n - 1);
      var x := base + n - 1;
      forall i: nat | i != x ensures BlockHas(base, n, i) <==> BlockHas(base, n - 1, i) {}
      assert BlockHas(base, n, x) && !BlockHas(base, n - 1, x);
      assert Block(base, n) == Block(base, n - 1) + {x};
    }
  }

  lemma Pow2_32()
    ensures Pow2(32) == U32
  {
    Pow2Add(16, 16);
    Pow2Add(8, 8);
    assert Pow2(8) == 256;
  }

  /** A word is determined by the set of its bits. */
  lemma BitSetInjective(a: u32, b: u32)
    requires BitSet(a) == BitSet(b)
    ensures a == b
  {
    Pow2_32();
    forall i: nat ensures Bit(a, i) <==> Bit(b, i) {
      if i < 32 {
        assert i in BitSet(a) <==> i in BitSet(b);
      } else {
        BitAbove(a, 32, i);
        BitAbove(b, 32, i);
      }
    }
    BitExt(a, b);
  }

  lemma OrSet(a: u32, b: u32)
    ensures Or(a, b) < U32
    ensures BitSet(Or(a, b)) == BitSet(a) + BitSet(b)
  {
    Pow2_32();
    OrBound(a, b, 32);
    forall i: nat | i < 32 ensures i in BitSet(Or(a, b)) <==> i in BitSet(a) + BitSet(b) {
      BitOr(a, b, i);
    }
  }

  lemma AndNotSet(a: u32, b: u32)
    ensures AndNot(a, b) < U32
    ensures BitSet(AndNot(a, b)) == BitSet(a) - BitSet(b)
  {
    AndNotBound(a, b);
    forall i: nat | i < 32 ensures i in BitSet(AndNot(a, b)) <==> i in BitSet(a) - BitSet(b) {
      BitAndNot(a, b, i);
    }
  }

  lemma AndSet(a: u32, b: u32)
    ensures And(a, b) < U32
    ensures BitSet(And(a, b)) == BitSet(a) * BitSet(b)
  {
    AndBound(a, b);
    forall i: nat | i < 32 ensures i in BitSet(And(a, b)) <==> i in BitSet(a) * BitSet(b) {
      BitAnd(a, b, i);
    }
  }

  lemma SetOfZero()
    ensures BitSet(0) == {}
  {
    forall i: nat | i < 32 ensures i !in BitSet(0) { BitOfZero(i); }
  }

  lemma SetOfPow2(k: nat)
    requires k < 32
    ensures Pow2(k) < U32 && BitSet(Pow2(k)) == {k}
  {
    Pow2_32();
    Pow2Monotone(k, 31);
    forall i: nat | i < 32 ensures i in BitSet(Pow2(k)) <==> i == k { BitPow2(k, i); }
  }

  lemma BlockBound(n: nat, base: nat)
    requires n + base <= 32
    ensures Pow2(n) >= 1
    ensures 0 <= (Pow2(n) - 1) * Pow2(base) < U32
  {
    Pow2Positive(n);
    Pow2Positive(base);
    Pow2Add(n, base);
    Pow2_32();
    Pow2Monotone(n + base, 32);
    MulBelow(Pow2(n), Pow2(base), U32);
  }

  lemma MulBelow(p: nat, q: nat, bound: nat)
    requires p >= 1 && q >= 1 && p * q <= bound
    ensures 0 <= (p - 1) * q < bound
  {}

  /** `((1 << n) - 1) << base` holds exactly the positions of one block. */
  lemma SetOfBlock(n: nat, base: nat)
    requires n + base <= 32
    ensures Pow2(n) >= 1
    ensures 0 <= (Pow2(n) - 1) * Pow2(base) < U32
    ensures BitSet((Pow2(n) - 1) * Pow2(base)) == Block(base, n)
  {
    BlockBound(n, base);
    var m := Pow2(n) - 1;
    var w := m * Pow2(base);
    forall i: nat | i < 32 ensures Bit(w, i) <==> BlockHas(base, n, i) {
      BitShift(m, base, i);
      if i >= base { BitLowMask(n, i - base); }
    }
  }

  lemma EmptySetIsZero(w: u32)
    ensures BitSet(w) == {} <==> w == 0
  {
    SetOfZero();
    if BitSet(w) == {} { BitSetInjective(w, 0); }
  }

  /** `w & (w - 1)` drops exactly the lowest set bit, the one `ctz` names. */
  lemma {:induction false} DropLowest(w: nat, i: nat)
    requires w > 0
    ensures Bit(w, Ctz(w))
    ensures i < Ctz(w) ==> !Bit(w, i)
    ensures Bit(And(w, w - 1), i) <==> Bit(w, i) && i != Ctz(w)
  {
    BitAnd(w, w - 1, i);
    if w % 2 == 1 {
      if i > 0 { assert (w - 1) / 2 == w / 2; }
    } else if i > 0 {
      assert (w - 1) / 2 == w / 2 - 1;
      DropLowest(w / 2, i - 1);
      BitAnd(w / 2, w / 2 - 1, i - 1);
    } else {
      DropLowest(w / 2, 0);
    }
  }

  lemma DropLowestSet(w: u32)
    requires w > 0
    ensures And(w, w - 1) < U32
    ensures Ctz(w) < 32 && Ctz(w) in BitSet(w)
    ensures BitSet(And(w, w - 1)) == BitSet(w) - {Ctz(w)}
    ensures forall i | i in BitSet(w) :: Ctz(w) <= i
  {
    AndBound(w, w - 1);
    Pow2_32();
    DropLowest(w, 0);
    if Ctz(w) >= 32 { BitAbove(w, 32, Ctz(w)); }
    forall i: nat | i < 32
      ensures i in BitSet(And(w, w - 1)) <==> i in BitSet(w) - {Ctz(w)}
      ensures i in BitSet(w) ==> Ctz(w) <= i
    {
      DropLowest(w, i);
    }
  }
}
