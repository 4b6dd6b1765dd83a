/**
 The slab allocator on top of the buddy allocator: sizing of a cache, the chain
 of free object numbers threaded through each slab's index array, and the full
 and partial lists of slabs. A slab is known by the page that heads its block;
 its header, index array and objects lie in that block in this order.
 */
module Slab {
  import opened Wrappers
  import opened BuddyBlocks
  import opened BuddyAllocator

  const HEADER: nat := 24
  const SLAB_HEADER_SIZE: nat := 28
  const MAX_NAME: nat := 32
  const FREE_END: nat := 0xFFFF_FFFF
  const PAGE_START: nat := 0x8060_0000
  const WRAP: nat := 0x1_0000_0000

  // ----- sizing -----

  datatype Config = Config(objectSize: nat, alignment: nat, order: nat)

  ghost predicate PowerOfTwo(a: nat) {
    exists k: nat :: a == Pow2(k)
  }

  function SlabSize(order: nat): nat {
    PAGE_SIZE * Pow2(order)
  }

  /** slab_size_limits: the largest object for each order. */
  function Limit(order: nat): int {
    SlabSize(order) / 9 - (SLAB_HEADER_SIZE / 8 + 1) - 4
  }

  function Align(alignment: nat): nat {
    if alignment == 0 then 4 else alignment
  }

  lemma FloorBounds(x: nat, a: nat)
    requires a > 0
    ensures 0 <= x / a * a <= x < x / a * a + a && (x / a * a) % a == 0
  {
    DivModUnique(x, a, x / a, x % a);
    DivModUnique(x / a * a, a, x / a, 0);
    MulOrder(-1, x / a, a);
  }

  /** Masking with a power of two: the largest multiple up to x. */
  function Floor(x: nat, a: nat): (r: nat)
    requires a > 0
    ensures r <= x < r + a && r % a == 0
  {
    FloorBounds(x, a);
    x / a * a
  }

  /** The object size in 32-bit arithmetic. */
  function ObjectSize(size: nat, alignment: nat): nat
    requires alignment < WRAP
  {
    Floor((size + Align(alignment) - 1) % WRAP, Align(alignment))
  }

  /** A cache whose objects have a size, are aligned and fit the slab as planned. */
  ghost predicate Sound(c: Config) {
    && 1 <= c.objectSize <= Limit(c.order) && c.order <= PAGE_MAX_ORDER
    && c.objectSize % Align(c.alignment) == 0
  }

  /** The number of objects in a slab, for a cache whose alignment is smaller than its slabs. */
  function Capacity(c: Config): nat {
    if SlabSize(c.order) >= SLAB_HEADER_SIZE + c.alignment then
      (SlabSize(c.order) - SLAB_HEADER_SIZE - c.alignment) / (c.objectSize + 4)
    else 0
  }

  lemma QuotientBound(x: nat, d: nat, q: nat)
    requires d > 0
    ensures x / d * d <= x
    ensures q * d <= x ==> q <= x / d
  {
    DivModUnique(x, d, x / d, x % d);
    if q * d <= x { MulOrder(x / d, q, d); }
  }

  lemma CapacityBounds(x: nat, s: nat)
    requires 8 * (s + 4) <= x && s > 0
    ensures var n := x / (s + 4); 8 <= n <= x && 4 * n + n * s <= x
  {
    QuotientBound(x, s + 4, 8);
    var n := x / (s + 4);
    assert n * (s + 4) == n * s + 4 * n;
    MulOrder(0, n, s);
  }

  lemma MultipleAtLeast(x: nat, a: nat)
    requires a > 0 && x > 0 && x % a == 0
    ensures x >= a
  {
    if x < a { DivModUnique(x, a, 0, x); }
  }

  lemma SmallOrder(k: nat)
    requires k <= PAGE_MAX_ORDER
    ensures Pow2(k) <= MAX_BLOCK
  {
    assert Pow2(10) == 1024 by {
      assert Pow2(5) == 32;
    }
    Pow2Grows(k, PAGE_MAX_ORDER);
  }

  lemma {:induction false} Pow2Grows(k: nat, m: nat)
    requires k <= m
    ensures Pow2(k) <= Pow2(m)
    decreases m - k
  {
    if k < m { Pow2Grows(k + 1, m); }
  }

  /** An accepted cache has at least eight objects in a slab, and they fit it whatever the alignment. */
  lemma EightObjects(c: Config)
    requires Sound(c)
    ensures Capacity(c) >= 8
    ensures SLAB_HEADER_SIZE + 4 * Capacity(c) + c.alignment + Capacity(c) * c.objectSize <= SlabSize(c.order)
    ensures Capacity(c) < FREE_END
  {
    SmallOrder(c.order);
    hide Pow2;
    MultipleAtLeast(c.objectSize, Align(c.alignment));
    var x, d := SlabSize(c.order) - SLAB_HEADER_SIZE - c.alignment, c.objectSize + 4;
    CapacityBounds(x, c.objectSize);
  }

  /** No further object fits: one more with its entry, header, end mark and alignment is longer than the slab. */
  lemma CapacityLargest(c: Config)
    requires Sound(c)
    ensures 24 + 4 * (Capacity(c) + 2) + c.alignment + (Capacity(c) + 1) * c.objectSize > 4096 * Pow2(c.order)
  {
    EightObjects(c);
    SmallOrder(c.order);
    var x, d, n := SlabSize(c.order) - SLAB_HEADER_SIZE - c.alignment, c.objectSize + 4, Capacity(c);
    hide Pow2, Sound, Limit;
    NextTooLong(x, c.objectSize);
    assert n == x / d;
  }

  lemma NextTooLong(x: nat, s: nat)
    ensures 4 * (x / (s + 4) + 1) + (x / (s + 4) + 1) * s > x
  {
    var n := x / (s + 4);
    FloorBounds(x, s + 4);
    assert (n + 1) * (s + 4) == n * (s + 4) + (s + 4);
    assert (n + 1) * (s + 4) == (n + 1) * s + 4 * (n + 1);
  }

  /** The limits for the eleven orders. */
  lemma LimitTable(order: nat)
    requires order <= 10
    ensures Limit(order) == [447, 902, 1812, 3632, 7273, 14555, 29119, 58246, 116500, 233008, 466025][order]
    ensures 9 * (Limit(order) + 8) <= SlabSize(order) < 9 * (Limit(order) + 9)
  {
    assert Pow2(5) == 32;
    assert Pow2(9) == 512;
  }

  /** Without a wrap the rounded size is the least multiple of the alignment that covers the request. */
  lemma SizeLeast(size: nat, alignment: nat, y: nat)
    requires alignment < WRAP && size + Align(alignment) - 1 < WRAP && size <= y && y % Align(alignment) == 0
    ensures size <= ObjectSize(size, alignment) <= y
  {
    hide Floor;
    FloorLeast(size, Align(alignment), y);
  }

  lemma FloorLeast(size: nat, a: nat, y: nat)
    requires a > 0 && size <= y && y % a == 0
    ensures size <= Floor(size + a - 1, a) <= y
  {
    hide Floor;
    var r := Floor(size + a - 1, a);
    if y < r { MultipleGap(y, r, a); }
  }

  /** What is rounded to: four bytes when no alignment is asked for. */
  lemma SizeRounded(size: nat, alignment: nat)
    requires alignment < WRAP && size + Align(alignment) - 1 < WRAP
    ensures alignment == 0 ==> ObjectSize(size, alignment) % 4 == 0 && ObjectSize(size, alignment) < size + 4
    ensures alignment != 0 ==> ObjectSize(size, alignment) % alignment == 0 && ObjectSize(size, alignment) < size + alignment
  {
    hide Floor;
  }

  lemma MultipleGap(x: nat, y: nat, a: nat)
    requires a > 0 && x % a == 0 && y % a == 0 && x < y
    ensures x + a <= y
  {
    MulOrder(x / a, y / a, a);
  }

  /** The rounded size covers the request exactly when rounding does not wrap. */
  lemma SizeCovers(size: nat, alignment: nat)
    requires 0 < size < WRAP && alignment < WRAP && (alignment == 0 || PowerOfTwo(alignment))
    ensures ObjectSize(size, alignment) % Align(alignment) == 0
    ensures ObjectSize(size, alignment) >= size <==> size + Align(alignment) - 1 < WRAP
    ensures size + Align(alignment) - 1 >= WRAP ==> ObjectSize(size, alignment) == 0
  {
    var a := Align(alignment);
    var y := (size + a - 1) % WRAP;
    var r := Floor(y, a);
    hide Floor;
    if size + a - 1 >= WRAP && r > 0 {
      MultipleAtLeast(r, a);
    }
  }

  /** A size at the top of the 32-bit range wraps and is accepted with objects of no size. */
  lemma SizeWraps()
    ensures ObjectSize(0xFFFF_FFFF, 0) == 0 <= Limit(0) && !Sound(Config(0, 0, 0))
  {
    SizeCovers(0xFFFF_FFFF, 0);
  }

  /** slab_cache_create, apart from taking a cache structure. */
  method Create(nameLength: nat, size: nat, alignment: nat) returns (r: Option<Config>)
    requires size < WRAP && alignment < WRAP && (alignment == 0 || PowerOfTwo(alignment))
    ensures r.Some? ==> r.value.objectSize == ObjectSize(size, alignment) && r.value.alignment == alignment && size > 0
    ensures r.Some? ==> (Sound(r.value) <==> size + Align(alignment) - 1 < WRAP)
    ensures r.Some? ==> forall j: nat :: j < r.value.order ==> ObjectSize(size, alignment) > Limit(j)
    ensures r.None? <==> size == 0 || nameLength >= MAX_NAME || forall j: nat :: j <= PAGE_MAX_ORDER ==> ObjectSize(size, alignment) > Limit(j)
  {
    if size == 0 {
      return None;
    }
    if nameLength >= MAX_NAME {
      return None;
    }
    SizeCovers(size, alignment);
    hide Limit, ObjectSize;
    var objectSize := ObjectSize(size, alignment);
    var i := 0;
    while i < PAGE_MAX_DEPTH
      invariant 0 <= i <= PAGE_MAX_DEPTH && forall j: nat :: j < i ==> objectSize > Limit(j)
    {
      if objectSize <= Limit(i) {
        return Some(Config(objectSize, alignment, i));
      }
      i := i + 1;
    }
    return None;
  }

  // ----- where objects lie -----

  function Base(h: nat): nat {
    PAGE_START + PAGE_SIZE * h
  }

  /** header->object for the slab headed by page h. */
  function ObjectStart(c: Config, h: nat): nat
  {
    var raw := Base(h) + HEADER + 4 * (Capacity(c) + 1);
    if c.alignment != 0 then Floor(raw + c.alignment - 1, c.alignment) else raw
  }

  function Address(c: Config, h: nat, i: nat): nat
  {
    ObjectStart(c, h) + c.objectSize * i
  }

  lemma StartBounds(c: Config, h: nat)
    requires Sound(c)
    ensures Base(h) + HEADER + 4 * (Capacity(c) + 1) <= ObjectStart(c, h) <= Base(h) + HEADER + 4 * (Capacity(c) + 1) + c.alignment
    ensures c.alignment != 0 ==> ObjectStart(c, h) % c.alignment == 0
    ensures ObjectStart(c, h) < Base(h) + HEADER + 4 * (Capacity(c) + 1) + if c.alignment == 0 then 1 else c.alignment
  {
    EightObjects(c);
    hide Capacity, SlabSize, Sound, Floor;
  }

  /** An object lies in its slab, behind the header and the index array, and is aligned. */
  lemma ObjectInSlab(c: Config, h: nat, i: nat)
    requires Sound(c) && i < Capacity(c)
    ensures Base(h) + HEADER + 4 * (Capacity(c) + 1) <= Address(c, h, i)
    ensures Address(c, h, i) + c.objectSize <= Base(h) + SlabSize(c.order)
    ensures c.alignment != 0 ==> Address(c, h, i) % c.alignment == 0
  {
    EightObjects(c);
    StartBounds(c, h);
    var n, s, a := Capacity(c), c.objectSize, c.alignment;
    AlignedMultiple(ObjectStart(c, h), s, i, a);
    LastObjectFits(n, s, i);
    hide Capacity, SlabSize, ObjectStart, Limit;
    assert Address(c, h, i) == ObjectStart(c, h) + s * i;
  }

  lemma LastObjectFits(n: nat, s: nat, i: nat)
    requires i < n && s > 0
    ensures s * i + s <= n * s && s * i >= 0
  {
    MulOrder(i, n, s);
  }

  lemma AlignedMultiple(x: nat, s: nat, i: nat, a: nat)
    ensures a != 0 && x % a == 0 && s % a == 0 ==> (x + s * i) % a == 0
  {
    if a != 0 && x % a == 0 && s % a == 0 {
      var p, q := x / a, s / a;
      assert x == p * a && s == q * a;
      assert x + s * i == (p + q * i) * a;
      DivModUnique(x + s * i, a, p + q * i, 0);
    }
  }

  /** The number of an object is recovered from its address. */
  lemma IndexRecovered(c: Config, h: nat, i: nat)
    requires Sound(c)
    ensures (Address(c, h, i) - ObjectStart(c, h)) / c.objectSize == i
  {
    DivModUnique(c.objectSize * i, c.objectSize, i, 0);
  }

  /** The page of an object lies in the block of its slab. */
  lemma PageInBlock(c: Config, h: nat, i: nat)
    requires Sound(c) && i < Capacity(c)
    ensures PAGE_START <= Address(c, h, i) && h <= (Address(c, h, i) - PAGE_START) / PAGE_SIZE < h + Pow2(c.order)
  {
    ObjectInSlab(c, h, i);
    hide Capacity, ObjectStart, Limit, Pow2, Address;
    var a, p := Address(c, h, i), Pow2(c.order);
    assert a < Base(h) + PAGE_SIZE * p;
  }

  /** Objects of blocks that do not overlap, and different objects of one slab, do not overlap. */
  lemma ObjectsApart(c: Config, h: nat, i: nat, g: nat, j: nat)
    requires Sound(c) && i < Capacity(c) && j < Capacity(c)
    requires (h, i) != (g, j) && (h != g ==> h + Pow2(c.order) <= g || g + Pow2(c.order) <= h)
    ensures Address(c, h, i) + c.objectSize <= Address(c, g, j) || Address(c, g, j) + c.objectSize <= Address(c, h, i)
  {
    if h == g {
      MulOrder(i, j, c.objectSize);
      MulOrder(j, i, c.objectSize);
      hide Capacity, ObjectStart, Limit, Pow2;
    } else {
      ObjectInSlab(c, h, i);
      ObjectInSlab(c, g, j);
      hide Capacity, ObjectStart, Limit, Pow2, Address;
      var p := Pow2(c.order);
      assert h + p <= g ==> Base(h) + PAGE_SIZE * p <= Base(g);
      assert g + p <= h ==> Base(g) + PAGE_SIZE * p <= Base(h);
    }
  }

  // ----- the chain of free objects of one slab -----

  /** `free` is the index array, `head` the entry header->free points at. */
  datatype SlabState = SlabState(free: seq<nat>, head: nat, start: nat)

  function After(chain: seq<nat>, n: nat, i: nat): nat {
    if i < |chain| then chain[i] else n
  }

  ghost predicate ChainAt(free: seq<nat>, chain: seq<nat>, n: nat, i: nat) {
    i < |chain| && chain[i] < n < |free| && free[chain[i]] == After(chain, n, i + 1)
  }

  /** Following the index array from the head visits `chain`, the free objects, and ends at entry n, the sentinel. */
  ghost predicate Chained(s: SlabState, chain: seq<nat>, n: nat) {
    && |s.free| == n + 1 && s.free[n] == FREE_END && n < FREE_END && s.head == After(chain, n, 0)
    && (forall i: nat :: i < |chain| ==> ChainAt(s.free, chain, n, i))
    && (forall i, j :: 0 <= i < j < |chain| ==> chain[i] != chain[j])
    && (forall a: nat :: a < n && a !in chain ==> s.free[a] == FREE_END)
  }

  /** The test of the head entry against the end mark is the test for no free object. */
  lemma HeadAtEnd(s: SlabState, chain: seq<nat>, n: nat)
    requires Chained(s, chain, n)
    ensures s.head <= n && (s.free[s.head] == FREE_END <==> chain == [])
    ensures chain != [] ==> s.head < n
  {
    if chain != [] { assert ChainAt(s.free, chain, n, 0); assert |chain| > 1 ==> ChainAt(s.free, chain, n, 1); }
  }

  lemma TakeKeeps(s: SlabState, chain: seq<nat>, n: nat, s': SlabState)
    requires Chained(s, chain, n) && chain != [] && s.head <= n
    requires s' == s.(free := s.free[s.head := FREE_END], head := s.free[s.head])
    ensures Chained(s', chain[1..], n)
  {
    assert ChainAt(s.free, chain, n, 0);
    forall i: nat | i < |chain| - 1 ensures ChainAt(s'.free, chain[1..], n, i) {
      assert ChainAt(s.free, chain, n, i + 1);
    }
    forall a: nat | a < n && a !in chain[1..] ensures s'.free[a] == FREE_END {
      assert chain == [chain[0]] + chain[1..];
    }
  }

  lemma GiveKeeps(s: SlabState, chain: seq<nat>, n: nat, a: nat, s': SlabState)
    requires Chained(s, chain, n) && a < n && a !in chain
    requires s' == s.(free := s.free[a := s.head], head := a)
    ensures Chained(s', [a] + chain, n)
    ensures s.head <= n && (s'.free[s.head] == FREE_END <==> chain == [])
  {
    HeadAtEnd(s, chain, n);
    if chain != [] { assert chain[0] in chain; }
    var chain' := [a] + chain;
    forall i: nat | i < |chain'| ensures ChainAt(s'.free, chain', n, i) {
      if i > 0 { assert ChainAt(s.free, chain, n, i - 1); assert chain[i - 1] in chain; }
    }
    forall b: nat | b < n && b !in chain' ensures s'.free[b] == FREE_END {
      assert forall x :: x in chain ==> x in chain';
    }
  }

  lemma {:induction false} FreshChain(free: seq<nat>, n: nat, start: nat)
    requires |free| == n + 1 && n < FREE_END && free[n] == FREE_END && forall i :: 0 <= i < n ==> free[i] == i + 1
    ensures Chained(SlabState(free, 0, start), seq(n, i => i), n)
  {
    var chain := seq(n, i => i);
    forall a: nat | a < n ensures a in chain { assert chain[a] == a; }
    forall i: nat | i < |chain| ensures ChainAt(free, chain, n, i) { }
  }

  /** slab_new: the index array of a new slab. */
  method NewIndex(n: nat) returns (free: array<nat>)
    ensures fresh(free) && free.Length == n + 1 && free[n] == FREE_END && forall i :: 0 <= i < n ==> free[i] == i + 1
  {
    free := new nat[n + 1];
    var i := 0;
    while i < n
      invariant 0 <= i <= n && forall j :: 0 <= j < i ==> free[j] == j + 1
    {
      free[i] := i + 1;
      i := i + 1;
    }
    free[n] := FREE_END;
  }

  // ----- the slabs of a cache -----

  ghost predicate SlabOk(c: Config, h: nat, s: SlabState, chain: seq<nat>) {
    Chained(s, chain, Capacity(c)) && s.start == ObjectStart(c, h)
  }

  ghost predicate SlabsInv(c: Config, slabs: map<nat, SlabState>, chains: map<nat, seq<nat>>) {
    slabs.Keys == chains.Keys && forall h :: h in slabs && h in chains ==> SlabOk(c, h, slabs[h], chains[h])
  }

  /** Every slab is on exactly one list, once: on `full` exactly when it has no free object. */
  ghost predicate ListsInv(partial: seq<nat>, full: seq<nat>, chains: map<nat, seq<nat>>) {
    && (forall h :: h in partial <==> h in chains && chains[h] != [])
    && (forall h :: h in full <==> h in chains && chains[h] == [])
    && Distinct(partial) && Distinct(full)
  }

  /** The block of every slab is granted by the buddy allocator. */
  ghost predicate Owned(pg: seq<Page>, heads: set<nat>, order: nat) {
    forall h :: h in heads ==> h < |pg| && pg[h].first && pg[h].order == order
  }

  /** Other users of the buddy allocator leave the slabs alone. */
  lemma OwnedKept(pg: seq<Page>, pg': seq<Page>, except: Option<nat>, heads: set<nat>, order: nat)
    requires Owned(pg, heads, order) && KeepsOthers(pg, pg', except) && (except.Some? ==> except.value !in heads)
    ensures Owned(pg', heads, order)
  {
  }

  /** Object i of slab h is allocated. */
  ghost predicate IsLive(c: Config, chains: map<nat, seq<nat>>, h: nat, i: nat) {
    h in chains && i < Capacity(c) && i !in chains[h]
  }

  /** The blocks of two slabs do not overlap. */
  lemma BlocksApart(pg: seq<Page>, blocks: map<nat, nat>, heads: set<nat>, order: nat, h: nat, g: nat)
    requires BlockInv(pg, blocks, None) && Owned(pg, heads, order) && h in heads && g in heads && h != g
    ensures h + Pow2(order) <= g || g + Pow2(order) <= h
  {
    hide Pow2, Aligned, Coalesced, FreeBlocks;
    assert h in blocks && g in blocks;
  }

  /** Page h headed no granted block. */
  ghost predicate NewBlock(pg: seq<Page>, h: nat) {
    h < |pg| && !pg[h].first
  }

  lemma KeepsAll(pg: seq<Page>)
    ensures KeepsOthers(pg, pg, None)
  {
  }

  /** Objects of two caches over one buddy allocator are apart. */
  lemma CachesApart(c: Config, d: Config, pg: seq<Page>, blocks: map<nat, nat>, cs: set<nat>, ds: set<nat>, h: nat, i: nat, g: nat, j: nat)
    requires Sound(c) && Sound(d) && BlockInv(pg, blocks, None) && Owned(pg, cs, c.order) && Owned(pg, ds, d.order) && cs !! ds
    requires h in cs && g in ds && i < Capacity(c) && j < Capacity(d)
    ensures Address(c, h, i) + c.objectSize <= Address(d, g, j) || Address(d, g, j) + d.objectSize <= Address(c, h, i)
  {
    GrantedApart(pg, blocks, h, g);
    ObjectInSlab(c, h, i);
    ObjectInSlab(d, g, j);
    hide Capacity, ObjectStart, Limit, Pow2, Address, BlockInv;
    var p, q := Pow2(c.order), Pow2(d.order);
    assert h + p <= g ==> Base(h) + PAGE_SIZE * p <= Base(g);
    assert g + q <= h ==> Base(g) + PAGE_SIZE * q <= Base(h);
  }

  lemma GrantedApart(pg: seq<Page>, blocks: map<nat, nat>, h: nat, g: nat)
    requires BlockInv(pg, blocks, None) && h < |pg| && g < |pg| && pg[h].first && pg[g].first && h != g
    ensures h + Pow2(pg[h].order) <= g || g + Pow2(pg[g].order) <= h
  {
    hide Pow2, Aligned, Coalesced, FreeBlocks;
    assert h in blocks && g in blocks;
  }

  /** Any two live objects are apart. */
  lemma LiveApart(c: Config, pg: seq<Page>, blocks: map<nat, nat>, chains: map<nat, seq<nat>>, h: nat, i: nat, g: nat, j: nat)
    requires Sound(c) && BlockInv(pg, blocks, None) && Owned(pg, chains.Keys, c.order)
    requires IsLive(c, chains, h, i) && IsLive(c, chains, g, j) && (h, i) != (g, j)
    ensures Address(c, h, i) + c.objectSize <= Address(c, g, j) || Address(c, g, j) + c.objectSize <= Address(c, h, i)
  {
    hide BlockInv, Owned, Address, Sound;
    EightObjects(c);
    if h != g { BlocksApart(pg, blocks, chains.Keys, c.order, h, g); }
    ObjectsApart(c, h, i, g, j);
  }

  lemma FitOrderExact(order: nat, k: nat)
    requires order <= PAGE_MAX_ORDER && FitOrder(SlabSize(order), k)
    ensures k == order
  {
    if order < k {
    } else if k < order {
      Pow2Grows(k + 1, order);
    }
  }

  /** One slab and its chain change. */
  lemma SetSlab(c: Config, slabs: map<nat, SlabState>, chains: map<nat, seq<nat>>, h: nat, s: SlabState, chain: seq<nat>)
    requires SlabsInv(c, slabs, chains) && SlabOk(c, h, s, chain)
    ensures SlabsInv(c, slabs[h := s], chains[h := chain])
  {
    hide SlabOk;
  }

  lemma AtSlab(c: Config, slabs: map<nat, SlabState>, chains: map<nat, seq<nat>>, h: nat)
    requires SlabsInv(c, slabs, chains) && h in chains
    ensures h in slabs && SlabOk(c, h, slabs[h], chains[h])
    ensures slabs[h].head < |slabs[h].free| == Capacity(c) + 1 && slabs[h].start == ObjectStart(c, h)
    ensures chains[h] != [] ==> slabs[h].head == chains[h][0]
    ensures slabs[h].free[slabs[h].head] == FREE_END <==> chains[h] == []
  {
    HeadAtEnd(slabs[h], chains[h], Capacity(c));
  }

  /** The first free object of a slab is taken. */
  ghost predicate Takes(s: SlabState, chain: seq<nat>, s': SlabState) {
    && chain != [] && s.head < |s.free|
    && s' == s.(free := s.free[s.head := FREE_END], head := s.free[s.head])
  }

  lemma TakeSlab(c: Config, h: nat, s: SlabState, chain: seq<nat>, s': SlabState)
    requires SlabOk(c, h, s, chain) && Takes(s, chain, s')
    ensures SlabOk(c, h, s', chain[1..])
  {
    hide Capacity;
    TakeKeeps(s, chain, Capacity(c), s');
  }

  lemma TakeLive(c: Config, chains: map<nat, seq<nat>>, h: nat, s: SlabState, chain: seq<nat>, chains': map<nat, seq<nat>>)
    requires h in chains && chains[h] == chain && chain != [] && SlabOk(c, h, s, chain) && chains' == chains[h := chain[1..]]
    ensures IsLive(c, chains', h, chain[0]) && !IsLive(c, chains, h, chain[0])
    ensures forall g: nat, j: nat :: IsLive(c, chains', g, j) <==> IsLive(c, chains, g, j) || (g, j) == (h, chain[0])
  {
    hide Capacity;
    assert ChainAt(s.free, chain, Capacity(c), 0);
    assert chain == [chain[0]] + chain[1..];
    assert chain[0] !in chain[1..];
  }

  /** Object a returns to the front of the chain. */
  ghost predicate Gives(s: SlabState, a: nat, s': SlabState) {
    a < |s.free| && s' == s.(free := s.free[a := s.head], head := a)
  }

  lemma GiveSlab(c: Config, h: nat, s: SlabState, chain: seq<nat>, a: nat, s': SlabState)
    requires SlabOk(c, h, s, chain) && Gives(s, a, s') && a < Capacity(c) && a !in chain
    ensures SlabOk(c, h, s', [a] + chain)
    ensures s.head < |s'.free| && (s'.free[s.head] == FREE_END <==> chain == [])
  {
    hide Capacity;
    GiveKeeps(s, chain, Capacity(c), a, s');
  }

  lemma GiveLive(c: Config, chains: map<nat, seq<nat>>, h: nat, a: nat, chains': map<nat, seq<nat>>)
    requires IsLive(c, chains, h, a) && chains' == chains[h := [a] + chains[h]]
    ensures forall g: nat, j: nat :: IsLive(c, chains', g, j) <==> IsLive(c, chains, g, j) && (g, j) != (h, a)
  {
  }

  /** The full list without slab h, which was at place k. */
  ghost predicate FullLoses(full: seq<nat>, h: nat, k: nat, full': seq<nat>) {
    k < |full| && full[k] == h && full' == RemoveAt(full, k)
  }

  class Cache {
    const buddy: Buddy
    const c: Config
    var slabs: map<nat, SlabState>
    var partial: seq<nat>
    var full: seq<nat>
    /** The free objects of each slab, in the order in which they will be handed out. */
    ghost var chains: map<nat, seq<nat>>

    ghost predicate Valid()
      reads this, buddy, buddy.pages, buddy.heads
    {
      && Sound(c) && buddy.Valid() && SlabsInv(c, slabs, chains) && ListsInv(partial, full, chains)
      && Owned(buddy.pages[..], chains.Keys, c.order)
    }

    ghost predicate Live(h: nat, i: nat)
      reads `chains
    {
      IsLive(c, chains, h, i)
    }

    constructor (buddy: Buddy, c: Config)
      requires Sound(c) && buddy.Valid()
      ensures Valid() && this.buddy == buddy && this.c == c && chains == map[]
    {
      this.buddy, this.c := buddy, c;
      slabs, partial, full, chains := map[], [], [], map[];
    }

    /** Object i was the first free one of the first partial slab h, which is full now if it was the last. */
    ghost predicate Took(chains0: map<nat, seq<nat>>, partial0: seq<nat>, full0: seq<nat>, h: nat, i: nat)
      reads this
    {
      && partial0 != [] && h == partial0[0] && h in chains0 && chains0[h] != [] && i == chains0[h][0]
      && chains == chains0[h := chains0[h][1..]]
      && partial == (if |chains0[h]| == 1 then partial0[1..] else partial0)
      && full == (if |chains0[h]| == 1 then [h] + full0 else full0)
    }

    /** slab_new, for an empty partial list. */
    method NewSlab() returns (h: Option<nat>)
      requires Valid() && partial == []
      modifies this, buddy.pages, buddy.heads, buddy`lists, buddy`blocks
      ensures Valid() && full == old(full)
      ensures h.None? ==> partial == [] && chains == old(chains) && slabs == old(slabs) && !old(HasRoom(buddy.pages[..], c.order))
      ensures h.Some? ==> h.value !in old(chains) && chains == old(chains)[h.value := All(Capacity(c))] && partial == [h.value]
      ensures KeepsOthers(old(buddy.pages[..]), buddy.pages[..], h) && (h.Some? ==> NewBlock(old(buddy.pages[..]), h.value))
    {
      hide SlabsInv, SlabOk, Capacity, FitOrder, BlockInv, ListInv, Chained;
      EightObjects(c);
      ghost var order;
      ghost var pg := buddy.pages[..];
      h, order := buddy.Alloc(SlabSize(c.order));
      FitOrderExact(c.order, order);
      if h.None? {
        assert KeepsOthers(pg, buddy.pages[..], None);
        OwnedKept(pg, buddy.pages[..], None, chains.Keys, c.order);
        return;
      }
      OwnedKept(pg, buddy.pages[..], h, chains.Keys, c.order);
      var free := NewIndex(Capacity(c));
      var s := SlabState(free[..], 0, ObjectStart(c, h.value));
      FreshSlab(c, h.value, s);
      SetSlab(c, slabs, chains, h.value, s, All(Capacity(c)));
      NewListed(full, chains, h.value, All(Capacity(c)));
      slabs := slabs[h.value := s];
      chains := chains[h.value := All(Capacity(c))];
      partial := [h.value];
    }

    /** The part of slab_cache_alloc that takes the first free object of the first partial slab. */
    method TakeFirst() returns (r: nat, ghost h: nat, ghost i: nat)
      requires Valid() && partial != []
      modifies `slabs, `partial, `full, `chains
      ensures Valid() && chains.Keys == old(chains.Keys)
      ensures r == Address(c, h, i) && !old(Live(h, i))
      ensures forall g: nat, j: nat :: Live(g, j) <==> old(Live(g, j)) || (g, j) == (h, i)
      ensures Took(old(chains), old(partial), old(full), h, i)
    {
      hide SlabsInv, SlabOk, Capacity, BlockInv, ListInv, Owned, ListsInv, IsLive, Sound, ObjectStart, Distinct;
      var header := partial[0];
      PartialHead(partial, full, chains);
      AtSlab(c, slabs, chains, header);
      var s := slabs[header];
      var index := s.head;
      var next := s.free[index];
      var s' := s.(free := s.free[index := FREE_END], head := next);
      ghost var chain := chains[header];
      TakeSlab(c, header, s, chain, s');
      SetSlab(c, slabs, chains, header, s', chain[1..]);
      TakeLive(c, chains, header, s, chain, chains[header := chain[1..]]);
      TakeLists(partial, full, chains, header, chain[1..]);
      slabs := slabs[header := s'];
      ghost var keys := chains.Keys;
      chains := chains[header := chain[1..]];
      assert chains.Keys == keys;
      AtSlab(c, slabs, chains, header);
      if s'.free[s'.head] == FREE_END {
        partial, full := partial[1..], [header] + full;
      }
      h, i := header, index;
      r := s'.start + c.objectSize * index;
    }

    /**
     slab_cache_alloc. None is the panic of an exhausted buddy allocator. `grown`
     is the block taken for a new slab; no other granted block changes.
     */
    method Alloc() returns (r: Option<nat>, ghost h: nat, ghost i: nat, ghost grown: Option<nat>)
      requires Valid()
      modifies this, buddy.pages, buddy.heads, buddy`lists, buddy`blocks
      ensures Valid()
      ensures r.None? ==> chains == old(chains) && slabs == old(slabs) && old(partial) == [] && !old(HasRoom(buddy.pages[..], c.order))
      ensures r.Some? ==> r.value == Address(c, h, i) && !old(Live(h, i))
      ensures r.Some? ==> forall g: nat, j: nat :: Live(g, j) <==> old(Live(g, j)) || (g, j) == (h, i)
      ensures old(partial) != [] ==> r.Some? && grown.None? && Took(old(chains), old(partial), old(full), h, i)
      ensures old(partial) != [] ==> buddy.pages[..] == old(buddy.pages[..])
      ensures r.Some? && old(partial) == [] ==> grown == Some(h) && Took(old(chains)[h := All(Capacity(c))], [h], old(full), h, i)
      ensures KeepsOthers(old(buddy.pages[..]), buddy.pages[..], grown)
      ensures grown.Some? ==> NewBlock(old(buddy.pages[..]), grown.value)
      ensures chains.Keys == old(chains.Keys) + (if grown.Some? then {grown.value} else {})
    {
      hide SlabsInv, SlabOk, Capacity, BlockInv, ListInv, Owned, ListsInv, IsLive, Sound, KeepsOthers, NewBlock;
      h, i, grown := 0, 0, None;
      KeepsAll(buddy.pages[..]);
      if partial == [] {
        var slab := NewSlab();
        grown := slab;
        if slab.None? {
          return None, 0, 0, None;
        }
        FreshLive(c, old(chains), slab.value, chains);
      }
      var obj;
      obj, h, i := TakeFirst();
      r := Some(obj);
    }

    /** The header and the number of a live object, from its address. */
    method Locate(obj: nat, ghost h: nat, ghost i: nat) returns (header: nat, index: nat)
      requires Valid() && Live(h, i) && obj == Address(c, h, i)
      ensures header == h && index == i
    {
      hide SlabsInv, SlabOk, Capacity, BlockInv, ListInv, ListsInv, Sound, Address, Pow2;
      LiveFacts(c, buddy.pages[..], chains, h, i);
      var page := (obj - PAGE_START) / PAGE_SIZE;
      LivePage(c, buddy.pages[..], buddy.blocks, chains, h, page);
      var head := buddy.FindHead(page);
      header := head.value;
      AtSlab(c, slabs, chains, header);
      index := (obj - slabs[header].start) / c.objectSize;
    }

    /** The search of the full list; its end is the "broken slab" panic, which is not reached. */
    method FromFull(header: nat) returns (k: nat)
      requires header in full
      ensures k < |full| && full[k] == header
    {
      k := 0;
      while k < |full| && full[k] != header
        invariant 0 <= k <= |full| && forall j :: 0 <= j < k ==> full[j] != header
      {
        k := k + 1;
      }
    }

    /** slab_cache_free of a live object. */
    method Free(obj: nat, ghost h: nat, ghost i: nat)
      requires Valid() && Live(h, i) && obj == Address(c, h, i)
      modifies this
      ensures Valid() && chains.Keys == old(chains.Keys)
      ensures forall g: nat, j: nat :: Live(g, j) <==> old(Live(g, j)) && (g, j) != (h, i)
      ensures h in old(chains) && chains == old(chains)[h := [i] + old(chains[h])]
      ensures old(chains[h]) != [] ==> partial == old(partial) && full == old(full)
      ensures old(chains[h]) == [] ==> partial == [h] + old(partial) && exists k: nat :: FullLoses(old(full), h, k, full)
    {
      hide SlabsInv, SlabOk, Capacity, BlockInv, ListInv, ListsInv, Sound, Address, Pow2, Owned;
      var header, index := Locate(obj, h, i);
      AtSlab(c, slabs, chains, header);
      var s := slabs[header];
      var next := s.head;
      var s' := s.(free := s.free[index := next], head := index);
      ghost var chain, keys := chains[h], chains.Keys;
      GiveSlab(c, h, s, chain, i, s');
      SetSlab(c, slabs, chains, h, s', [i] + chain);
      GiveLive(c, chains, h, i, chains[h := [i] + chain]);
      hide IsLive;
      GiveLists(partial, full, chains, h, [i] + chain);
      if s'.free[next] == FREE_END {
        var k := FromFull(header);
        GiveFull(partial, full, chains, h, [i] + chain, k);
        ghost var full0 := full;
        partial, full := [header] + partial, full[..k] + full[k + 1..];
        assert FullLoses(full0, h, k, full);
      }
      slabs := slabs[header := s'];
      chains := chains[h := [i] + chain];
      assert chains.Keys == keys;
    }
  }

  /** Allocating from one cache leaves another one over the same buddy allocator valid, with slabs of its own. */
  method AllocBeside(cache: Cache, other: Cache) returns (r: Option<nat>)
    requires cache.Valid() && other.Valid() && cache != other && cache.buddy == other.buddy && cache.chains.Keys !! other.chains.Keys
    modifies cache, cache.buddy.pages, cache.buddy.heads, cache.buddy`lists, cache.buddy`blocks
    ensures cache.Valid() && other.Valid() && cache.chains.Keys !! other.chains.Keys && other.chains == old(other.chains)
  {
    hide SlabsInv, ListsInv, BlockInv, ListInv, Sound;
    ghost var pg := cache.buddy.pages[..];
    ghost var h, i, grown;
    r, h, i, grown := cache.Alloc();
    OwnedKept(pg, cache.buddy.pages[..], grown, other.chains.Keys, other.c.order);
  }

  /** Freeing an object of one cache leaves another one over the same buddy allocator valid, with slabs of its own. */
  method FreeBeside(cache: Cache, other: Cache, obj: nat, ghost h: nat, ghost i: nat)
    requires cache.Valid() && other.Valid() && cache != other && cache.buddy == other.buddy && cache.chains.Keys !! other.chains.Keys
    requires cache.Live(h, i) && obj == Address(cache.c, h, i)
    modifies cache
    ensures cache.Valid() && other.Valid() && cache.chains.Keys !! other.chains.Keys && other.chains == old(other.chains)
  {
    hide SlabsInv, ListsInv, BlockInv, ListInv, Sound;
    cache.Free(obj, h, i);
  }

  function All(n: nat): seq<nat> {
    seq(n, i => i)
  }

  lemma FreshSlab(c: Config, h: nat, s: SlabState)
    requires |s.free| == Capacity(c) + 1 && Capacity(c) < FREE_END && s.free[Capacity(c)] == FREE_END && s.head == 0
    requires (forall i :: 0 <= i < Capacity(c) ==> s.free[i] == i + 1) && s.start == ObjectStart(c, h)
    ensures SlabOk(c, h, s, All(Capacity(c)))
  {
    FreshChain(s.free, Capacity(c), s.start);
  }

  lemma NewListed(full: seq<nat>, chains: map<nat, seq<nat>>, h: nat, chain: seq<nat>)
    requires ListsInv([], full, chains) && h !in chains && chain != []
    ensures ListsInv([h], full, chains[h := chain])
  {
  }

  /** A new slab brings no live object. */
  lemma FreshLive(c: Config, chains: map<nat, seq<nat>>, h: nat, chains': map<nat, seq<nat>>)
    requires h !in chains && chains' == chains[h := All(Capacity(c))]
    ensures forall g: nat, j: nat :: IsLive(c, chains', g, j) <==> IsLive(c, chains, g, j)
  {
    var n := Capacity(c);
    hide Capacity;
    forall j: nat | j < n ensures j in All(n) { assert All(n)[j] == j; }
  }

  lemma PartialHead(partial: seq<nat>, full: seq<nat>, chains: map<nat, seq<nat>>)
    requires ListsInv(partial, full, chains) && partial != []
    ensures partial[0] in chains && chains[partial[0]] != []
  {
    assert partial[0] in partial;
  }

  lemma TakeLists(partial: seq<nat>, full: seq<nat>, chains: map<nat, seq<nat>>, h: nat, chain: seq<nat>)
    requires ListsInv(partial, full, chains) && partial != [] && partial[0] == h
    ensures chain != [] ==> ListsInv(partial, full, chains[h := chain])
    ensures chain == [] ==> ListsInv(partial[1..], [h] + full, chains[h := chain])
  {
    assert partial == [h] + partial[1..];
    assert h in partial && h !in full && h !in partial[1..];
  }

  lemma LiveFacts(c: Config, pg: seq<Page>, chains: map<nat, seq<nat>>, h: nat, i: nat)
    requires Sound(c) && IsLive(c, chains, h, i) && Owned(pg, chains.Keys, c.order)
    ensures h in chains && i < Capacity(c) && i !in chains[h] && h < |pg|
    ensures PAGE_START <= Address(c, h, i) && h <= (Address(c, h, i) - PAGE_START) / PAGE_SIZE < h + Pow2(c.order)
    ensures c.objectSize > 0 && ObjectStart(c, h) <= Address(c, h, i)
    ensures (Address(c, h, i) - ObjectStart(c, h)) / c.objectSize == i
  {
    assert c.objectSize > 0;
    PageInBlock(c, h, i);
    IndexRecovered(c, h, i);
    assert h in chains.Keys;
    MulOrder(-1, i, c.objectSize);
    hide Capacity, ObjectStart, Sound, SlabSize;
  }

  lemma LivePage(c: Config, pg: seq<Page>, blocks: map<nat, nat>, chains: map<nat, seq<nat>>, h: nat, page: nat)
    requires h in chains && Owned(pg, chains.Keys, c.order) && BlockInv(pg, blocks, None) && h <= page < h + Pow2(c.order)
    ensures page < |pg| && Covers(UsedBlocks(pg), h, page)
  {
    hide Pow2, Aligned, Coalesced, FreeBlocks;
    assert h in chains.Keys;
    assert h in blocks && blocks[h] == c.order;
    TilingBlock(blocks, |pg|, h);
  }

  lemma GiveLists(partial: seq<nat>, full: seq<nat>, chains: map<nat, seq<nat>>, h: nat, chain: seq<nat>)
    requires ListsInv(partial, full, chains) && h in chains && chain != []
    ensures chains[h] != [] ==> ListsInv(partial, full, chains[h := chain])
    ensures chains[h] == [] ==> h in full
  {
  }

  /** A full slab gets a free object and moves to the front of the partial list. */
  lemma GiveFull(partial: seq<nat>, full: seq<nat>, chains: map<nat, seq<nat>>, h: nat, chain: seq<nat>, k: nat)
    requires ListsInv(partial, full, chains) && h in chains && chains[h] == [] && chain != [] && k < |full| && full[k] == h
    ensures ListsInv([h] + partial, full[..k] + full[k + 1..], chains[h := chain])
  {
    FullMoves(full, h, k);
    assert h !in partial;
  }

  lemma FullMoves(full: seq<nat>, h: nat, k: nat)
    requires Distinct(full) && k < |full| && full[k] == h
    ensures var full' := full[..k] + full[k + 1..]; Distinct(full') && forall g :: g in full' <==> g in full && g != h
  {
    var full' := full[..k] + full[k + 1..];
    assert full == full[..k] + [h] + full[k + 1..];
    assert h !in full[..k] && h !in full[k + 1..];
  }
}
