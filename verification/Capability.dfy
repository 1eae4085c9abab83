// The capability lists in configuration space and the two walkers of
// pci_capability.c, for every space, cyclic and corrupt ones included (section 6.7
// of PCI Local Bus Specification 3.0).

module Capability {
  import opened Words
  import opened SlotPool

  type u8 = n: nat | n < 0x100

  // ---- following links ----

  /** The node n links after x, if the list goes on that far. */
  ghost function Hop(next: map<nat, nat>, x: nat, n: nat): Option<nat>
    decreases n
  {
    if n == 0 then Some(x)
    else if x in next then Hop(next, next[x], n - 1)
    else None
  }

  lemma {:induction false} HopAdd(next: map<nat, nat>, x: nat, m: nat, n: nat)
    ensures Hop(next, x, m + n) ==
      if Hop(next, x, m).Some? then Hop(next, Hop(next, x, m).value, n) else None
    decreases m
  {
    if m > 0 && x in next {
      HopAdd(next, next[x], m - 1, n);
      assert m + n - 1 == (m - 1) + n;
    }
  }

  ghost predicate Closed(next: map<nat, nat>, places: set<nat>) {
    forall x | x in next && x in places :: next[x] in places
  }

  lemma {:induction false} HopStays(next: map<nat, nat>, places: set<nat>, x: nat, n: nat)
    requires Closed(next, places) && x in places
    ensures Hop(next, x, n).Some? ==> Hop(next, x, n).value in places
    decreases n
  {
    if n > 0 && x in next { HopStays(next, places, next[x], n - 1); }
  }

  /** Of more values than there are places, two are the same. */
  lemma {:induction false} Pigeonhole(s: seq<nat>, places: set<nat>)
    requires |s| > |places| && forall i | 0 <= i < |s| :: s[i] in places
    ensures exists i, j :: 0 <= i < j < |s| && s[i] == s[j]
    decreases |places|
  {
    var rest := s[1..];
    if i :| 0 <= i < |rest| && rest[i] == s[0] {
      assert s[0] == s[i + 1];
    } else {
      var others := places - {s[0]};
      forall i | 0 <= i < |rest| ensures rest[i] in others { assert rest[i] == s[i + 1]; }
      Pigeonhole(rest, others);
      var i, j :| 0 <= i < j < |rest| && rest[i] == rest[j];
      assert s[i + 1] == s[j + 1];
    }
  }

  /** However long a walk, what it comes to is come to within as many links as there
      are places. */
  lemma {:induction false} Shortcut(next: map<nat, nat>, places: set<nat>, x: nat, n: nat) returns (m: nat)
    requires Closed(next, places) && x in places && Hop(next, x, n).Some?
    ensures m < |places| && Hop(next, x, m) == Hop(next, x, n)
    decreases n
  {
    if n < |places| { return n; }
    forall k: nat | k <= n ensures Hop(next, x, k).Some? && Hop(next, x, k).value in places {
      HopAdd(next, x, k, n - k);
      HopStays(next, places, x, k);
    }
    var s := seq(|places| + 1, k requires 0 <= k <= |places| => Hop(next, x, k).value);
    Pigeonhole(s, places);
    var i, j :| 0 <= i < j < |s| && s[i] == s[j];
    HopAdd(next, x, j, n - j);
    HopAdd(next, x, i, n - j);
    m := Shortcut(next, places, x, i + (n - j));
  }

  // ---- the standard list ----

  const STD_SIZE: nat := 0x100        // PCI_CFG_SPACE_SIZE
  const HEADER: nat := 0x40           // PCI_STD_HEADER_SIZEOF
  const TTL: nat := 0x48              // PCI_FIND_CAP_TTL

  ghost predicate StdSpace(c: seq<u8>) { |c| == STD_SIZE }

  function Dword(p: nat): nat { p - p % 4 }

  /** A pointer that leads to an entry: past the header, and the entry is no 0xff. */
  ghost predicate Leads(c: seq<u8>, p: u8)
    requires StdSpace(c)
  {
    p >= HEADER && c[Dword(p)] != 0xff
  }

  ghost function Places(): set<nat> { set k: nat | k < 48 :: HEADER + 4 * k }

  ghost function Links(c: seq<u8>): map<nat, nat>
    requires StdSpace(c)
  {
    map p | p in Places() && p < 0xfd && Leads(c, c[p + 1]) :: Dword(c[p + 1])
  }

  lemma {:induction false} PlacesCount(n: nat)
    ensures |(set k: nat | k < n :: HEADER + 4 * k)| == n
  {
    if n > 0 {
      PlacesCount(n - 1);
      assert (set k: nat | k < n :: HEADER + 4 * k) ==
        (set k: nat | k < n - 1 :: HEADER + 4 * k) + {HEADER + 4 * (n - 1)};
    }
  }

  lemma IsPlace(p: nat)
    requires HEADER <= p < STD_SIZE
    ensures Dword(p) in Places() && Dword(p) < 0xfd
  {
    assert Dword(p) == HEADER + 4 * ((p - HEADER) / 4);
  }

  /** The n-th entry of the list that the pointer `first` heads. */
  ghost function Entry(c: seq<u8>, first: u8, n: nat): Option<nat>
    requires StdSpace(c)
  {
    if Leads(c, first) then Hop(Links(c), Dword(first), n) else None
  }

  lemma EntryNext(c: seq<u8>, first: u8, n: nat)
    requires StdSpace(c) && Entry(c, first, n).Some?
    ensures var p := Entry(c, first, n).value;
      && p in Places() && p < 0xfd
      && Entry(c, first, n + 1) == if Leads(c, c[p + 1]) then Some(Dword(c[p + 1])) else None
  {
    HeadIsPlace(c, first);
    HopStays(Links(c), Places(), Dword(first), n);
    HopAdd(Links(c), Dword(first), n, 1);
    var p := Entry(c, first, n).value;
    var k: nat :| k < 48 && p == HEADER + 4 * k;
    assert Hop(Links(c), p, 1) == if p in Links(c) then Some(Links(c)[p]) else None;
  }

  /** The list, byte by byte: the head and each link are pointers rounded down to a whole
      word, and lead on if they are past the header and the entry there is no 0xff. */
  ghost function Follow(c: seq<u8>, p: u8): Option<nat>
    requires StdSpace(c)
  {
    if p >= 0x40 && c[p - p % 4] != 0xff then Some(p - p % 4) else None
  }

  lemma EntryExact(c: seq<u8>, first: u8, n: nat)
    requires StdSpace(c)
    ensures Entry(c, first, 0) == Follow(c, first)
    ensures Entry(c, first, n).Some? ==>
      var p := Entry(c, first, n).value;
      p + 1 < 0x100 && Id(c, p) == c[p] && Entry(c, first, n + 1) == Follow(c, c[p + 1])
  {
    if Entry(c, first, n).Some? { EntryNext(c, first, n); }
  }

  lemma HeadIsPlace(c: seq<u8>, first: u8)
    requires StdSpace(c) && Leads(c, first)
    ensures Closed(Links(c), Places()) && Dword(first) in Places()
  {
    IsPlace(first);
    forall p | p in Links(c) ensures Links(c)[p] in Places() { IsPlace(c[p + 1]); }
  }

  /** r is the answer to a search for cap: the first entry with that id on the whole
      list, however it goes on, or 0 if there is none. */
  ghost predicate FirstMatch(c: seq<u8>, first: u8, cap: u8, r: nat)
    requires StdSpace(c)
  {
    if r == 0 then forall n: nat | Entry(c, first, n).Some? :: Id(c, Entry(c, first, n).value) != cap
    else exists n: nat :: IsFirst(c, first, cap, r, n)
  }

  ghost function Id(c: seq<u8>, p: nat): nat
    requires StdSpace(c)
  {
    if p < STD_SIZE then c[p] else 0xff
  }

  ghost predicate IsFirst(c: seq<u8>, first: u8, cap: u8, r: nat, n: nat)
    requires StdSpace(c)
  {
    && Entry(c, first, n) == Some(r) && Id(c, r) == cap
    && forall m: nat | m < n && Entry(c, first, m).Some? :: Id(c, Entry(c, first, m).value) != cap
  }

  lemma EntriesEnd(c: seq<u8>, first: u8, k: nat, n: nat)
    requires StdSpace(c) && Entry(c, first, k).None? && k <= n
    ensures Entry(c, first, n).None?
  {
    if Leads(c, first) { HopAdd(Links(c), Dword(first), k, n - k); }
  }

  /** 48 entries without a match are enough to know there is none. */
  lemma NoMatchAnywhere(c: seq<u8>, first: u8, cap: u8)
    requires StdSpace(c)
    requires forall m: nat | m < TTL && Entry(c, first, m).Some? :: Id(c, Entry(c, first, m).value) != cap
    ensures FirstMatch(c, first, cap, 0)
  {
    forall n: nat | Entry(c, first, n).Some? ensures Id(c, Entry(c, first, n).value) != cap {
      HeadIsPlace(c, first);
      PlacesCount(48);
      var m := Shortcut(Links(c), Places(), Dword(first), n);
      assert Entry(c, first, m) == Entry(c, first, n);
    }
  }

  /** The first k entries of the list that `first` heads do not match, and `pos` points to
      what follows them. */
  ghost predicate Searched(c: seq<u8>, first: u8, cap: u8, pos: u8, k: nat)
    requires StdSpace(c)
  {
    && Entry(c, first, k) == (if Leads(c, pos) then Some(Dword(pos)) else None)
    && forall m: nat | m < k && Entry(c, first, m).Some? :: Id(c, Entry(c, first, m).value) != cap
  }

  /** One turn of the walk: the answer, or the next pointer. */
  method FindStep(c: seq<u8>, ghost first: u8, cap: u8, pos: u8, ghost k: nat) returns (r: Option<nat>, next: u8)
    requires StdSpace(c) && Searched(c, first, cap, pos, k)
    ensures r.None? ==> Searched(c, first, cap, next, k + 1)
    ensures r.Some? ==> FirstMatch(c, first, cap, r.value)
    ensures r.Some? && r.value != 0 ==> HEADER <= r.value < STD_SIZE && r.value % 4 == 0 && c[r.value] == cap
  {
    if pos < HEADER || c[Dword(pos)] == 0xff {
      forall n: nat | k <= n ensures Entry(c, first, n).None? { EntriesEnd(c, first, k, n); }
      return Some(0), 0;
    }
    EntryNext(c, first, k);
    var p := Dword(pos);
    if c[p] == cap {
      assert IsFirst(c, first, cap, p, k);
      return Some(p), 0;
    }
    return None, c[p + 1];
  }

  /** pci_find_next_capability.  Sound and complete on every configuration space. */
  method FindNextCapability(c: seq<u8>, at: nat, cap: u8) returns (r: nat)
    requires StdSpace(c) && at < STD_SIZE
    ensures FirstMatch(c, c[at], cap, r)
    ensures r != 0 ==> HEADER <= r < STD_SIZE && r % 4 == 0 && c[r] == cap
  {
    var pos: u8 := c[at];
    var ttl := TTL;
    while ttl > 0
      invariant 0 <= ttl <= TTL && Searched(c, c[at], cap, pos, TTL - ttl)
    {
      var found;
      found, pos := FindStep(c, c[at], cap, pos, TTL - ttl);
      if found.Some? { return found.value; }
      ttl := ttl - 1;
    }
    NoMatchAnywhere(c, c[at], cap);
    return 0;
  }

  /** pci_find_capability: the list exists only if the status register says so, and
      its head pointer depends on the header type. */
  method FindCapability(c: seq<u8>, cap: u8) returns (r: nat)
    requires StdSpace(c)
    ensures var list, at := c[0x06] / 0x10 % 2 == 1, if c[0x0e] % 0x80 == 2 then 0x14 else 0x34;
      if list then FirstMatch(c, c[at], cap, r) else r == 0
  {
    if c[0x06] / 0x10 % 2 == 0 { return 0; }
    r := FindNextCapability(c, if c[0x0e] % 0x80 == 2 then 0x14 else 0x34, cap);
  }

  // ---- the extended list ----

  const EXT_WORDS: nat := 1024        // PCI_CFG_SPACE_EXP_SIZE / 4
  const EXT_TTL: nat := 480           // (PCI_CFG_SPACE_EXP_SIZE - PCI_CFG_SPACE_SIZE) / 8

  ghost predicate ExtSpace(h: seq<u32>) { |h| == EXT_WORDS }

  function Header(h: seq<u32>, p: nat): nat { if p / 4 < |h| then h[p / 4] else 0 }
  function ExtId(header: nat): nat { And(header, 0xffff) }
  function ExtNext(header: nat): nat { And(header / 0x10_0000, 0xffc) }

  ghost function ExtPlaces(): set<nat> { set k: nat | k < 960 :: STD_SIZE + 4 * k }

  lemma {:induction false} ExtPlacesCount(n: nat)
    ensures |(set k: nat | k < n :: STD_SIZE + 4 * k)| == n
  {
    if n > 0 {
      ExtPlacesCount(n - 1);
      assert (set k: nat | k < n :: STD_SIZE + 4 * k) ==
        (set k: nat | k < n - 1 :: STD_SIZE + 4 * k) + {STD_SIZE + 4 * (n - 1)};
    }
  }

  lemma NextField(w: nat, q: nat, t: nat)
    requires w < 0x1000 && w == 4 * q + t && t < 4
    ensures And(w, 0xffc) == 4 * q
  {
    assert Pow2(2) == 4 && Pow2(12) == 0x1000;
    AndHighMask(w, 12, 2, 4);
    DivUnique(w, 4, q, t);
  }

  /** A header's id is its low 16 bits, the next entry the whole words of its top 12. */
  lemma ExtFields(header: u32)
    ensures ExtId(header) == header % 0x1_0000
    ensures ExtNext(header) == header / 0x10_0000 - header / 0x10_0000 % 4
  {
    Powers();
    AndLowMask(header, 16, 0x1_0000);
    var w := header / 0x10_0000;
    NextField(w, w / 4, w % 4);
  }

  lemma ExtNextRange(header: u32)
    ensures ExtNext(header) < 0x1000
    ensures ExtNext(header) >= STD_SIZE ==> ExtNext(header) in ExtPlaces()
  {
    ExtFields(header);
    if ExtNext(header) >= STD_SIZE { IsExtPlace(ExtNext(header), header / 0x10_0000 / 4); }
  }

  lemma IsExtPlace(p: nat, q: nat)
    requires p == 4 * q && STD_SIZE <= p < 0x1000
    ensures p in ExtPlaces()
  {
    assert p == STD_SIZE + 4 * (q - 64);
  }

  ghost function ExtLinks(h: seq<u32>): map<nat, nat>
    requires ExtSpace(h)
  {
    map p | p in ExtPlaces() && ExtNext(Header(h, p)) >= STD_SIZE :: ExtNext(Header(h, p))
  }

  /** The n-th entry of the extended list, which starts at 0x100 and is empty when
      the header there is 0. */
  ghost function ExtEntry(h: seq<u32>, n: nat): Option<nat>
    requires ExtSpace(h)
  {
    if Header(h, STD_SIZE) != 0 then Hop(ExtLinks(h), STD_SIZE, n) else None
  }

  lemma ExtClosed(h: seq<u32>)
    requires ExtSpace(h)
    ensures Closed(ExtLinks(h), ExtPlaces()) && STD_SIZE in ExtPlaces()
  {
    assert STD_SIZE == STD_SIZE + 4 * 0;
    forall p | p in ExtLinks(h) ensures ExtLinks(h)[p] in ExtPlaces() { ExtNextRange(Header(h, p)); }
  }

  lemma ExtEntryNext(h: seq<u32>, n: nat)
    requires ExtSpace(h) && ExtEntry(h, n).Some?
    ensures var p := ExtEntry(h, n).value;
      && p in ExtPlaces()
      && ExtEntry(h, n + 1) == if ExtNext(Header(h, p)) >= STD_SIZE then Some(ExtNext(Header(h, p))) else None
  {
    ExtClosed(h);
    HopStays(ExtLinks(h), ExtPlaces(), STD_SIZE, n);
    HopAdd(ExtLinks(h), STD_SIZE, n, 1);
    var p := ExtEntry(h, n).value;
    assert Hop(ExtLinks(h), p, 1) == if p in ExtLinks(h) then Some(ExtLinks(h)[p]) else None;
  }

  /** The extended list, word by word: it starts at 0x100 unless that word is 0; the top 12
      bits of an entry's word, rounded down to whole words, are the next entry's place,
      and below 0x100 there is none. */
  lemma ExtEntryExact(h: seq<u32>, n: nat)
    requires ExtSpace(h)
    ensures ExtEntry(h, 0) == if h[0x40] != 0 then Some(0x100) else None
    ensures ExtEntry(h, n).Some? ==>
      var p := ExtEntry(h, n).value;
      p % 4 == 0 && p / 4 < |h| &&
      (var q := h[p / 4] / 0x10_0000 - h[p / 4] / 0x10_0000 % 4;
       ExtEntry(h, n + 1) == if q >= 0x100 then Some(q) else None)
  {
    if ExtEntry(h, n).Some? {
      ExtEntryNext(h, n);
      ExtFields(Header(h, ExtEntry(h, n).value));
    }
  }

  ghost predicate ExtHit(h: seq<u32>, cap: nat, n: nat)
    requires ExtSpace(h)
  {
    ExtEntry(h, n).Some? && ExtId(Header(h, ExtEntry(h, n).value)) == cap
  }

  ghost predicate ExtFirst(h: seq<u32>, cap: nat, r: nat, n: nat)
    requires ExtSpace(h)
  {
    ExtEntry(h, n) == Some(r) && ExtHit(h, cap, n) && forall m: nat | m < n :: !ExtHit(h, cap, m)
  }

  /** pci_find_next_ext_capability from the start: the first match among the first
      480 entries, 0 if they hold none. */
  method FindExtCapability(h: seq<u32>, cap: nat) returns (r: nat)
    requires ExtSpace(h)
    ensures r != 0 ==> exists n: nat :: n < EXT_TTL && ExtFirst(h, cap, r, n)
    ensures r == 0 ==> forall n: nat | n < EXT_TTL :: !ExtHit(h, cap, n)
  {
    var pos: nat := STD_SIZE;
    var header := Header(h, pos);
    if header == 0 { return 0; }
    var ttl := EXT_TTL;
    while ttl > 0
      invariant 0 <= ttl <= EXT_TTL && header == Header(h, pos) && pos >= STD_SIZE
      invariant ExtEntry(h, EXT_TTL - ttl) == Some(pos)
      invariant forall m: nat | m < EXT_TTL - ttl :: !ExtHit(h, cap, m)
    {
      ghost var k := EXT_TTL - ttl;
      ttl := ttl - 1;
      if ExtId(header) == cap {
        assert ExtFirst(h, cap, pos, k);
        return pos;
      }
      ExtEntryNext(h, k);
      pos := ExtNext(header);
      if pos < STD_SIZE {
        forall n: nat | k < n ensures !ExtHit(h, cap, n) { HopAdd(ExtLinks(h), STD_SIZE, k + 1, n - (k + 1)); }
        return 0;
      }
      header := Header(h, pos);
    }
    return 0;
  }

  /** Nothing lies past the 480 entries looked at: the chain ends, or comes back on
      itself, by then. */
  ghost predicate ShortChain(h: seq<u32>)
    requires ExtSpace(h)
  {
    forall n: nat | ExtEntry(h, n).Some? :: Early(h, ExtEntry(h, n).value)
  }

  ghost predicate Early(h: seq<u32>, p: nat)
    requires ExtSpace(h)
  {
    exists m: nat :: m < EXT_TTL && ExtEntry(h, m) == Some(p)
  }

  /** Entries that take their eight bytes each, overlapping none, make a short chain. */
  ghost predicate Spaced(h: seq<u32>)
    requires ExtSpace(h)
  {
    forall m: nat, n: nat | ExtEntry(h, m).Some? && ExtEntry(h, n).Some? ::
      SpacedPair(ExtEntry(h, m).value, ExtEntry(h, n).value)
  }

  ghost predicate SpacedPair(x: nat, y: nat) { x == y || x + 8 <= y || y + 8 <= x }

  ghost predicate Visited(h: seq<u32>, p: nat)
    requires ExtSpace(h)
  {
    exists n: nat :: ExtEntry(h, n) == Some(p)
  }

  ghost function Chain(h: seq<u32>): set<nat>
    requires ExtSpace(h)
  {
    set p | p in ExtPlaces() && Visited(h, p)
  }

  ghost function Eighths(s: set<nat>): set<nat> { set p | p in s :: p / 8 }

  lemma EighthsMore(t: set<nat>, x: nat)
    ensures Eighths(t + {x}) == Eighths(t) + {x / 8}
    ensures t + {x} - {x} == t - {x}
  {}

  lemma {:induction false} EighthsCount(s: set<nat>)
    requires forall x, y | x in s && y in s :: SpacedPair(x, y)
    ensures |Eighths(s)| == |s|
    decreases |s|
  {
    if x :| x in s {
      var t := s - {x};
      EighthsCount(t);
      EighthsMore(t, x);
      assert t + {x} == s;
      forall y | y in t ensures y / 8 != x / 8 { assert SpacedPair(x, y); }
    }
  }

  lemma {:induction false} SubsetCount(a: set<nat>, b: set<nat>)
    requires a <= b
    ensures |a| <= |b|
    decreases |a|
  {
    if x :| x in a { SubsetCount(a - {x}, b - {x}); }
  }

  lemma SpacedChain(h: seq<u32>)
    requires ExtSpace(h) && Spaced(h)
    ensures |Chain(h)| <= EXT_TTL
  {
    var v := Chain(h);
    forall x, y | x in v && y in v ensures SpacedPair(x, y) {
      var m: nat :| ExtEntry(h, m) == Some(x);
      var n: nat :| ExtEntry(h, n) == Some(y);
    }
    EighthsCount(v);
    var r := Block(32, EXT_TTL);
    BlockCount(32, EXT_TTL);
    forall e | e in Eighths(v) ensures e in r {
      var p :| p in v && e == p / 8;
      var k: nat :| k < 960 && p == STD_SIZE + 4 * k;
      assert BlockHas(32, EXT_TTL, 32 + k / 2);
    }
    SubsetCount(Eighths(v), r);
  }

  lemma ChainClosed(h: seq<u32>)
    requires ExtSpace(h)
    ensures Closed(ExtLinks(h), Chain(h))
    ensures ExtEntry(h, 0).Some? ==> STD_SIZE in Chain(h)
  {
    ExtClosed(h);
    if ExtEntry(h, 0).Some? { assert ExtEntry(h, 0) == Some(STD_SIZE); }
    forall x | x in ExtLinks(h) && x in Chain(h) ensures ExtLinks(h)[x] in Chain(h) {
      var n: nat :| ExtEntry(h, n) == Some(x);
      ExtEntryNext(h, n);
      assert ExtEntry(h, n + 1) == Some(ExtLinks(h)[x]);
      ExtNextRange(Header(h, x));
    }
  }

  /** The entries among the first n of the chain. */
  ghost function Seen(h: seq<u32>, n: nat): (r: set<nat>)
    requires ExtSpace(h)
    ensures |r| <= n
  {
    if n == 0 then {}
    else Seen(h, n - 1) + (if ExtEntry(h, n - 1).Some? then {ExtEntry(h, n - 1).value} else {})
  }

  lemma {:induction false} SeenHas(h: seq<u32>, n: nat, m: nat)
    requires ExtSpace(h) && m < n && ExtEntry(h, m).Some?
    ensures ExtEntry(h, m).value in Seen(h, n)
  {
    if m < n - 1 { SeenHas(h, n - 1, m); }
  }

  /** A chain has nothing past its first 480 entries if and only if it has at most 480
      different ones. */
  lemma ShortChainExact(h: seq<u32>)
    requires ExtSpace(h)
    ensures ShortChain(h) <==> |Chain(h)| <= EXT_TTL
  {
    if |Chain(h)| <= EXT_TTL {
      ChainClosed(h);
      forall n: nat | ExtEntry(h, n).Some? ensures Early(h, ExtEntry(h, n).value) {
        var m := Shortcut(ExtLinks(h), Chain(h), STD_SIZE, n);
        assert ExtEntry(h, m) == ExtEntry(h, n);
      }
    }
    if ShortChain(h) {
      forall p | p in Chain(h) ensures p in Seen(h, EXT_TTL) {
        var n: nat :| ExtEntry(h, n) == Some(p);
        assert Early(h, p);
        var m: nat :| m < EXT_TTL && ExtEntry(h, m) == Some(p);
        SeenHas(h, EXT_TTL, m);
      }
      SubsetCount(Chain(h), Seen(h, EXT_TTL));
    }
  }

  /** Of a chain of at most 480 different entries, cyclic or not, the walk misses
      nothing: what the first 480 do not hold, no entry does. */
  lemma ExtComplete(h: seq<u32>, cap: nat, n: nat)
    requires ExtSpace(h) && |Chain(h)| <= EXT_TTL && forall m: nat | m < EXT_TTL :: !ExtHit(h, cap, m)
    ensures !ExtHit(h, cap, n)
  {
    ShortChainExact(h);
    if ExtEntry(h, n).Some? {
      var p := ExtEntry(h, n).value;
      assert Early(h, p);
      var m: nat :| m < EXT_TTL && ExtEntry(h, m) == Some(p);
      assert !ExtHit(h, cap, m);
    }
  }

  /** Entries of eight bytes each, overlapping none, make a chain that short. */
  lemma SpacedIsShort(h: seq<u32>)
    requires ExtSpace(h) && Spaced(h)
    ensures |Chain(h)| <= EXT_TTL && ShortChain(h)
  {
    SpacedChain(h);
    ShortChainExact(h);
  }

  // ---- a chain the extended walk gives up on ----

  /** 481 four-byte entries in a row, the last with id 2. */
  function LongHeader(i: nat): u32 {
    if 64 <= i < 544 then 4 * (i + 1) * 0x10_0000 + 1 else if i == 544 then 2 else 0
  }

  ghost predicate IsLong(h: seq<u32>) {
    ExtSpace(h) && forall i | 0 <= i < EXT_WORDS :: h[i] == LongHeader(i)
  }

  lemma LongHeaderReads(i: nat)
    requires 64 <= i < 544
    ensures ExtNext(LongHeader(i)) == 4 * (i + 1) && ExtId(LongHeader(i)) == 1
  {
    var w := LongHeader(i);
    LongParts(i, w);
    Pow2Add(8, 8);
    assert Pow2(8) == 256;
    NextField(w / 0x10_0000, i + 1, 0);
    AndLowMask(w, 16, 0x1_0000);
  }

  lemma LongParts(i: nat, w: nat)
    requires 64 <= i < 544 && w == 4 * (i + 1) * 0x10_0000 + 1
    ensures w / 0x10_0000 == 4 * (i + 1) && w % 0x1_0000 == 1 && 4 * (i + 1) % 4 == 0
  {}

  lemma LongAt(h: seq<u32>, n: nat)
    requires IsLong(h) && n <= EXT_TTL
    ensures Header(h, STD_SIZE + 4 * n) == LongHeader(64 + n)
  {}

  lemma {:induction false} LongEntries(h: seq<u32>, n: nat)
    requires IsLong(h) && n <= EXT_TTL
    ensures ExtEntry(h, n) == Some(STD_SIZE + 4 * n)
  {
    if n == 0 {
      LongAt(h, 0);
    } else {
      LongEntries(h, n - 1);
      ExtEntryNext(h, n - 1);
      LongAt(h, n - 1);
      LongHeaderReads(64 + (n - 1));
    }
  }

  lemma IdOfTwo()
    ensures ExtId(2) == 2
  {}

  /** The walk can miss a capability that is there: of 960 positions it looks at 480
      entries. */
  lemma LongChainMissed() returns (h: seq<u32>)
    ensures ExtSpace(h) && ExtHit(h, 2, EXT_TTL)
    ensures forall n: nat | n < EXT_TTL :: !ExtHit(h, 2, n)
  {
    h := seq(EXT_WORDS, i requires 0 <= i < EXT_WORDS => LongHeader(i));
    assert IsLong(h);
    LongEntries(h, EXT_TTL);
    LongAt(h, EXT_TTL);
    IdOfTwo();
    forall n: nat | n < EXT_TTL ensures !ExtHit(h, 2, n) {
      LongEntries(h, n);
      LongAt(h, n);
      LongHeaderReads(64 + n);
    }
  }
}
