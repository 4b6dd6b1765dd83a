/**
 The kernel heap: the first-fit allocator over a circular, address-ordered list
 of free blocks. Addresses and sizes are counted in header-sized units (16
 bytes), so a page is 256 units. `base` is the static list head of size zero;
 it lies below all pages.
 */
module Kmalloc {
  import opened Wrappers

  const PAGE_UNITS: nat := 256
  const MAX_BYTES: nat := 4080

  datatype Header = Header(ptr: nat, size: nat)

  // ----- sets of blocks: address -> size -----

  type Blocks = map<nat, nat>

  ghost predicate Spans(b: Blocks, a: nat, u: nat) {
    a in b && a <= u < a + b[a]
  }

  ghost predicate Spanned(b: Blocks, u: nat) {
    exists a :: Spans(b, a, u)
  }

  /** Non-empty blocks that do not overlap. */
  ghost predicate Apart(b: Blocks) {
    && (forall a :: a in b ==> b[a] >= 1)
    && (forall a, c :: a in b && c in b && a < c ==> a + b[a] <= c)
  }

  ghost predicate InPages(pages: set<nat>, u: nat) {
    u / PAGE_UNITS in pages
  }

  /** The blocks are exactly the units of the pages obtained, each unit in one block. */
  ghost predicate Exact(b: Blocks, pages: set<nat>) {
    Apart(b) && forall u: nat :: Spanned(b, u) <==> InPages(pages, u)
  }

  lemma SplitBlock(b: Blocks, pages: set<nat>, a: nat, n: nat, c: nat)
    requires Exact(b, pages) && a in b && 0 < n < b[a] && c == a + (b[a] - n)
    ensures c !in b && Exact(b[a := b[a] - n][c := n], pages)
  {
    var b' := b[a := b[a] - n][c := n];
    forall u: nat ensures Spanned(b', u) <==> Spanned(b, u) {
      if Spanned(b, u) {
        var x :| Spans(b, x, u);
        assert Spans(b', if x == a && u >= c then c else x, u);
      }
      if Spanned(b', u) {
        var x :| Spans(b', x, u);
        assert Spans(b, if x == c then a else x, u);
      }
    }
  }

  lemma JoinBlocks(b: Blocks, pages: set<nat>, a: nat, c: nat)
    requires Exact(b, pages) && a in b && c in b && c == a + b[a]
    ensures Exact((b - {c})[a := b[a] + b[c]], pages)
  {
    var b' := (b - {c})[a := b[a] + b[c]];
    forall u: nat ensures Spanned(b', u) <==> Spanned(b, u) {
      if Spanned(b, u) {
        var x :| Spans(b, x, u);
        assert Spans(b', if x == c then a else x, u);
      }
      if Spanned(b', u) {
        var x :| Spans(b', x, u);
        assert Spans(b, if x == a && u >= c then c else x, u);
      }
    }
  }

  lemma AddPage(b: Blocks, pages: set<nat>, p: nat, a: nat)
    requires Exact(b, pages) && p !in pages && a == p * PAGE_UNITS
    ensures a !in b && Exact(b[a := PAGE_UNITS], pages + {p})
  {
    var b' := b[a := PAGE_UNITS];
    if a in b { assert Spans(b, a, a); assert Spanned(b, a); }
    forall x | x in b ensures x + b[x] <= a || a + PAGE_UNITS <= x {
      var y := if x >= a then x else if x + b[x] > a then a else x;
      assert Spans(b, x, x) && Spanned(b, x);
      if x < a < x + b[x] { assert Spans(b, x, a); assert Spanned(b, a); }
    }
    forall u: nat ensures Spanned(b', u) <==> InPages(pages + {p}, u) {
      if Spanned(b', u) {
        var x :| Spans(b', x, u);
        if x != a { assert Spans(b, x, u); assert Spanned(b, u); }
      }
      if InPages(pages, u) {
        assert Spanned(b, u);
        var x :| Spans(b, x, u);
        assert Spans(b', x, u);
      } else if u / PAGE_UNITS == p {
        assert Spans(b', a, u);
      }
    }
  }

  // ----- the free list -----

  function Next(free: seq<nat>, i: nat): nat
    requires i < |free|
  {
    free[if i + 1 < |free| then i + 1 else 0]
  }

  /** Entry i is a header whose ptr is the next entry around the ring. */
  ghost predicate RingAt(hdr: map<nat, Header>, free: seq<nat>, i: nat) {
    i < |free| && free[i] in hdr && hdr[free[i]].ptr == Next(free, i)
  }

  /** Entry i lies before entry j with a gap between them: never adjacent. */
  ghost predicate GapAt(hdr: map<nat, Header>, free: seq<nat>, i: nat, j: nat) {
    i < j < |free| && free[i] in hdr && free[i] + hdr[free[i]].size < free[j]
  }

  /** The list starts at base, is a single ring, and is in address order without adjacent blocks. */
  ghost predicate ListInv(hdr: map<nat, Header>, free: seq<nat>, base: nat) {
    && |free| >= 1 && free[0] == base
    && (forall i :: 0 <= i < |free| ==> RingAt(hdr, free, i))
    && (forall i, j :: 0 <= i < j < |free| ==> GapAt(hdr, free, i, j))
    && base in hdr && hdr[base].size == 0
  }

  ghost function FreeMap(hdr: map<nat, Header>, free: seq<nat>, base: nat): Blocks {
    map a | a in free && a != base && a in hdr :: hdr[a].size
  }

  ghost predicate HeapInv(hdr: map<nat, Header>, free: seq<nat>, alloc: Blocks, pages: set<nat>, base: nat) {
    && ListInv(hdr, free, base)
    && alloc.Keys !! FreeMap(hdr, free, base).Keys
    && (forall a :: a in alloc ==> a in hdr && hdr[a].size == alloc[a])
    && Exact(alloc + FreeMap(hdr, free, base), pages)
    && (forall p :: p in pages ==> p * PAGE_UNITS > base)
  }

  // ----- list surgery -----

  lemma ListEntry(hdr: map<nat, Header>, free: seq<nat>, base: nat, i: nat)
    requires ListInv(hdr, free, base) && i < |free|
    ensures free[i] in hdr && hdr[free[i]].ptr == Next(free, i) && free[0] == base
    ensures i + 1 < |free| ==> free[i] + hdr[free[i]].size < free[i + 1]
    ensures i > 0 ==> base < free[i]
  {
    assert RingAt(hdr, free, i);
    if i + 1 < |free| { assert GapAt(hdr, free, i, i + 1); }
    if i > 0 { assert GapAt(hdr, free, 0, i); }
  }

  lemma ListOrder(hdr: map<nat, Header>, free: seq<nat>, base: nat, i: nat, j: nat)
    requires ListInv(hdr, free, base) && i < |free| && j < |free|
    ensures i < j ==> free[i] < free[j]
    ensures free[i] == free[j] ==> i == j
  {
    if i < j { assert GapAt(hdr, free, i, j); }
    if j < i { assert GapAt(hdr, free, j, i); }
  }

  /** Headers that are not on the list do not matter to it. */
  lemma ListFrame(hdr: map<nat, Header>, free: seq<nat>, base: nat, hdr': map<nat, Header>)
    requires ListInv(hdr, free, base) && forall a :: a in free && a in hdr ==> a in hdr' && hdr'[a] == hdr[a]
    ensures ListInv(hdr', free, base) && FreeMap(hdr', free, base) == FreeMap(hdr, free, base)
  {
    forall i | 0 <= i < |free| ensures RingAt(hdr', free, i) { assert RingAt(hdr, free, i); }
    forall i, j | 0 <= i < j < |free| ensures GapAt(hdr', free, i, j) { assert GapAt(hdr, free, i, j); }
    forall a | a in free ensures a in hdr {
      var i :| 0 <= i < |free| && free[i] == a;
      assert RingAt(hdr, free, i);
    }
  }

  lemma ListResize(hdr: map<nat, Header>, free: seq<nat>, base: nat, k: nat, size: nat, hdr': map<nat, Header>)
    requires ListInv(hdr, free, base) && 0 < k < |free| && size >= 1 && free[k] in hdr
    requires k + 1 < |free| ==> free[k] + size < free[k + 1]
    requires hdr' == hdr[free[k] := hdr[free[k]].(size := size)]
    ensures ListInv(hdr', free, base) && free[k] != base && FreeMap(hdr', free, base) == FreeMap(hdr, free, base)[free[k] := size]
  {
    ListOrder(hdr, free, base, 0, k);
    forall i | 0 <= i < |free| ensures RingAt(hdr', free, i) { assert RingAt(hdr, free, i); }
    forall i, j | 0 <= i < j < |free| ensures GapAt(hdr', free, i, j) {
      assert GapAt(hdr, free, i, j);
      ListOrder(hdr, free, base, i, k);
      if i == k && j > k + 1 { assert GapAt(hdr, free, k + 1, j); }
    }
  }

  function With(free: seq<nat>, k: nat, b: nat): (r: seq<nat>)
    requires k <= |free|
    ensures |r| == |free| + 1 && r[k] == b && forall i :: 0 <= i < |r| && i != k ==> r[i] == free[if i < k then i else i - 1]
  {
    free[..k] + [b] + free[k..]
  }

  /** The entry after entry k leaves the list. */
  lemma ListRemove(hdr: map<nat, Header>, free: seq<nat>, base: nat, k: nat, hdr': map<nat, Header>)
    requires ListInv(hdr, free, base) && k + 1 < |free| && free[k] in hdr
    requires hdr' == hdr[free[k] := hdr[free[k]].(ptr := Next(free, k + 1))]
    ensures free[k + 1] in hdr && free[k + 1] != base && ListInv(hdr', RemoveAt(free, k + 1), base)
    ensures FreeMap(hdr', RemoveAt(free, k + 1), base) == FreeMap(hdr, free, base) - {free[k + 1]}
  {
    var free' := RemoveAt(free, k + 1);
    ListEntry(hdr, free, base, k + 1);
    forall i | 0 <= i < |free'| ensures RingAt(hdr', free', i) {
      assert RingAt(hdr, free, if i < k + 1 then i else i + 1);
      ListOrder(hdr, free, base, if i < k + 1 then i else i + 1, k);
    }
    forall i, j | 0 <= i < j < |free'| ensures GapAt(hdr', free', i, j) {
      assert GapAt(hdr, free, if i < k + 1 then i else i + 1, if j < k + 1 then j else j + 1);
    }
    forall a ensures a in free' <==> a in free && a != free[k + 1] {
      if a in free && a != free[k + 1] {
        var i :| 0 <= i < |free| && free[i] == a;
        assert free'[if i < k + 1 then i else i - 1] == a;
      }
      if a in free' {
        var i :| 0 <= i < |free'| && free'[i] == a;
        ListOrder(hdr, free, base, if i < k + 1 then i else i + 1, k + 1);
      }
    }
  }

  ghost predicate Enters(hdr: map<nat, Header>, free: seq<nat>, base: nat, k: nat, b: nat, size: nat, hdr': map<nat, Header>) {
    && ListInv(hdr, free, base) && k < |free| && free[k] in hdr && size >= 1
    && free[k] + hdr[free[k]].size < b && (k + 1 < |free| ==> b + size < free[k + 1])
    && hdr' == hdr[b := Header(Next(free, k), size)][free[k] := hdr[free[k]].(ptr := b)]
  }

  lemma EntersOrder(hdr: map<nat, Header>, free: seq<nat>, base: nat, k: nat, b: nat, size: nat, hdr': map<nat, Header>, i: nat)
    requires Enters(hdr, free, base, k, b, size, hdr') && i < |free|
    ensures RingAt(hdr, free, i) && free[i] != b && (i != k ==> free[i] != free[k])
    ensures i <= k ==> free[i] + hdr[free[i]].size < b
    ensures i > k ==> b + size < free[i]
  {
    assert RingAt(hdr, free, i);
    ListOrder(hdr, free, base, i, k);
    if i < k { assert GapAt(hdr, free, i, k); }
    if i > k + 1 { assert GapAt(hdr, free, k + 1, i); }
  }

  lemma EntersRing(hdr: map<nat, Header>, free: seq<nat>, base: nat, k: nat, b: nat, size: nat, hdr': map<nat, Header>, i: nat)
    requires Enters(hdr, free, base, k, b, size, hdr') && i <= |free|
    ensures RingAt(hdr', With(free, k + 1, b), i)
  {
    hide ListInv, With, GapAt;
    if i != k + 1 {
      EntersOrder(hdr, free, base, k, b, size, hdr', if i < k + 1 then i else i - 1);
    }
  }

  lemma EntersGap(hdr: map<nat, Header>, free: seq<nat>, base: nat, k: nat, b: nat, size: nat, hdr': map<nat, Header>, i: nat, j: nat)
    requires Enters(hdr, free, base, k, b, size, hdr') && i < j <= |free|
    ensures GapAt(hdr', With(free, k + 1, b), i, j)
  {
    var x, y := if i < k + 1 then i else i - 1, if j < k + 1 then j else j - 1;
    if i != k + 1 { EntersOrder(hdr, free, base, k, b, size, hdr', x); }
    if j != k + 1 { EntersOrder(hdr, free, base, k, b, size, hdr', y); }
    if i != k + 1 && j != k + 1 { assert GapAt(hdr, free, x, y); }
    hide ListInv, With, RingAt;
  }

  /** Block b of the given size enters the list after entry k. */
  lemma ListInsert(hdr: map<nat, Header>, free: seq<nat>, base: nat, k: nat, b: nat, size: nat, hdr': map<nat, Header>)
    requires Enters(hdr, free, base, k, b, size, hdr')
    ensures b !in free && ListInv(hdr', With(free, k + 1, b), base)
    ensures FreeMap(hdr', With(free, k + 1, b), base) == FreeMap(hdr, free, base)[b := size]
  {
    hide With, RingAt, GapAt, Next;
    var free' := With(free, k + 1, b);
    forall i | 0 <= i < |free'| ensures RingAt(hdr', free', i) {
      EntersRing(hdr, free, base, k, b, size, hdr', i);
    }
    forall i, j | 0 <= i < j < |free'| ensures GapAt(hdr', free', i, j) {
      EntersGap(hdr, free, base, k, b, size, hdr', i, j);
    }
    forall i | 0 <= i < |free| ensures free[i] in hdr && free[i] != b {
      EntersOrder(hdr, free, base, k, b, size, hdr', i);
    }
    EntersOrder(hdr, free, base, k, b, size, hdr', 0);
    WithMembers(free, k + 1, b);
  }

  lemma WithMembers(free: seq<nat>, k: nat, b: nat)
    requires k <= |free|
    ensures forall a :: a in With(free, k, b) <==> a in free || a == b
  {
    var free' := With(free, k, b);
    forall a ensures a in free' <==> a in free || a == b {
      if a in free {
        var i :| 0 <= i < |free| && free[i] == a;
        assert free'[if i < k then i else i + 1] == a;
      }
      assert free'[k] == b;
    }
  }

  // ----- kmfree on the whole heap -----

  ghost function AllBlocks(hdr: map<nat, Header>, free: seq<nat>, alloc: Blocks, base: nat): Blocks {
    alloc + FreeMap(hdr, free, base)
  }

  /** Entry k is where b belongs: the last entry below it. */
  ghost predicate Spot(free: seq<nat>, k: nat, b: nat) {
    k < |free| && free[k] < b && (k + 1 < |free| ==> b < free[k + 1])
  }

  lemma FreePlace(hdr: map<nat, Header>, free: seq<nat>, alloc: Blocks, pages: set<nat>, base: nat, k: nat, b: nat)
    requires HeapInv(hdr, free, alloc, pages, base) && b in alloc && Spot(free, k, b)
    ensures free[k] in hdr && free[k] + hdr[free[k]].size <= b && (k == 0 ==> hdr[free[k]].size == 0)
    ensures alloc[b] >= 1 && b !in free
    ensures k + 1 < |free| ==> free[k + 1] in hdr && b + alloc[b] <= free[k + 1] && hdr[free[k + 1]].size >= 1
    ensures k + 1 < |free| ==> free[k + 1] != base
    ensures k > 0 ==> free[k] != base
  {
    ListEntry(hdr, free, base, k);
    var all := AllBlocks(hdr, free, alloc, base);
    assert b in all && all[b] == alloc[b];
    if k > 0 { assert free[k] in FreeMap(hdr, free, base); }
    if k + 1 < |free| {
      ListEntry(hdr, free, base, k + 1);
      assert free[k + 1] in FreeMap(hdr, free, base);
    }
    assert b != base;
  }

  /** The headers after kmfree(b) at entry k, merging with the next (right) and the previous (left) block. */
  function FreedHdr(hdr: map<nat, Header>, p: nat, b: nat, right: bool, left: bool): map<nat, Header>
    requires p in hdr && b in hdr && hdr[p].ptr in hdr
  {
    var nx := hdr[p].ptr;
    var h1 := if right then hdr[b := Header(hdr[nx].ptr, hdr[b].size + hdr[nx].size)] else hdr[b := Header(nx, hdr[b].size)];
    if left then h1[p := Header(h1[b].ptr, hdr[p].size + h1[b].size)] else h1[p := Header(b, hdr[p].size)]
  }

  function FreedList(free: seq<nat>, k: nat, b: nat, right: bool, left: bool): seq<nat>
    requires k < |free| && (right ==> k + 1 < |free|)
  {
    var f1 := if right then RemoveAt(free, k + 1) else free;
    if left then f1 else With(f1, k + 1, b)
  }

  /** Putting a heap back together after b has left the allocated blocks and only b and p have new headers. */
  lemma HeapAfterFree(hdr: map<nat, Header>, free: seq<nat>, alloc: Blocks, pages: set<nat>, base: nat, k: nat, b: nat,
                      hdr': map<nat, Header>, free': seq<nat>, f': Blocks)
    requires HeapInv(hdr, free, alloc, pages, base) && k < |free| && b in alloc
    requires ListInv(hdr', free', base) && FreeMap(hdr', free', base) == f' && (alloc - {b}).Keys !! f'.Keys
    requires Exact((alloc - {b}) + f', pages)
    requires forall a :: a in hdr && a != b && a != free[k] ==> a in hdr' && hdr'[a] == hdr[a]
    ensures HeapInv(hdr', free', alloc - {b}, pages, base)
  {
    NotAllocated(hdr, free, alloc, pages, base, k);
    hide ListInv, Exact, FreeMap;
  }

  lemma NotAllocated(hdr: map<nat, Header>, free: seq<nat>, alloc: Blocks, pages: set<nat>, base: nat, k: nat)
    requires HeapInv(hdr, free, alloc, pages, base) && k < |free|
    ensures free[k] !in alloc
  {
    ListEntry(hdr, free, base, k);
    var all := AllBlocks(hdr, free, alloc, base);
    assert base in alloc ==> Spans(all, base, base);
    assert Spanned(all, base) ==> InPages(pages, base);
    if k > 0 {
      assert free[k] in FreeMap(hdr, free, base);
    }
  }

  ghost predicate FreeCase(hdr: map<nat, Header>, free: seq<nat>, alloc: Blocks, pages: set<nat>, base: nat, k: nat, b: nat,
                           right: bool, left: bool)
  {
    && HeapInv(hdr, free, alloc, pages, base) && b in alloc && Spot(free, k, b) && free[k] in hdr
    && (right <==> k + 1 < |free| && b + alloc[b] == free[k + 1])
    && (left <==> free[k] + hdr[free[k]].size == b)
  }

  lemma FreeCaseFacts(hdr: map<nat, Header>, free: seq<nat>, alloc: Blocks, pages: set<nat>, base: nat, k: nat, b: nat,
                      right: bool, left: bool)
    requires FreeCase(hdr, free, alloc, pages, base, k, b, right, left)
    ensures b in hdr && hdr[b].size == alloc[b] >= 1 && hdr[free[k]].ptr == Next(free, k) && Next(free, k) in hdr
    ensures free[k] + hdr[free[k]].size <= b && b !in free && free[k] != b && (left ==> k > 0) && free[k] !in alloc
    ensures k + 1 < |free| ==> free[k + 1] in hdr && hdr[free[k + 1]].ptr == Next(free, k + 1) && hdr[free[k + 1]].size >= 1
    ensures k + 1 < |free| ==> b + alloc[b] <= free[k + 1] && free[k + 1] !in alloc
    ensures k + 1 < |free| ==> free[k + 1] in FreeMap(hdr, free, base) && FreeMap(hdr, free, base)[free[k + 1]] == hdr[free[k + 1]].size
    ensures k + 2 < |free| ==> free[k + 1] + hdr[free[k + 1]].size < free[k + 2]
    ensures k > 0 ==> free[k] in FreeMap(hdr, free, base) && FreeMap(hdr, free, base)[free[k]] == hdr[free[k]].size
    ensures ListInv(hdr, free, base) && alloc.Keys !! FreeMap(hdr, free, base).Keys
    ensures Exact(AllBlocks(hdr, free, alloc, base), pages)
  {
    hide Exact;
    FreePlace(hdr, free, alloc, pages, base, k, b);
    NotAllocated(hdr, free, alloc, pages, base, k);
    if k + 1 < |free| {
      NotAllocated(hdr, free, alloc, pages, base, k + 1);
      ListEntry(hdr, free, base, k + 1);
    }
    ListEntry(hdr, free, base, k);
    ListEntry(hdr, free, base, 0);
  }

  lemma FreeAlone(hdr: map<nat, Header>, free: seq<nat>, alloc: Blocks, pages: set<nat>, base: nat, k: nat, b: nat)
    requires FreeCase(hdr, free, alloc, pages, base, k, b, false, false)
    ensures b in hdr && hdr[free[k]].ptr in hdr
    ensures HeapInv(FreedHdr(hdr, free[k], b, false, false), FreedList(free, k, b, false, false), alloc - {b}, pages, base)
  {
    hide HeapInv, ListInv, Exact, FreeMap, Next, With, RemoveAt;
    FreeCaseFacts(hdr, free, alloc, pages, base, k, b, false, false);
    var f := FreeMap(hdr, free, base);
    var hdr', free' := FreedHdr(hdr, free[k], b, false, false), With(free, k + 1, b);
    ListInsert(hdr, free, base, k, b, alloc[b], hdr');
    assert (alloc - {b}) + f[b := alloc[b]] == alloc + f;
    HeapAfterFree(hdr, free, alloc, pages, base, k, b, hdr', free', f[b := alloc[b]]);
  }

  lemma FreeLeft(hdr: map<nat, Header>, free: seq<nat>, alloc: Blocks, pages: set<nat>, base: nat, k: nat, b: nat)
    requires FreeCase(hdr, free, alloc, pages, base, k, b, false, true)
    ensures b in hdr && hdr[free[k]].ptr in hdr
    ensures HeapInv(FreedHdr(hdr, free[k], b, false, true), FreedList(free, k, b, false, true), alloc - {b}, pages, base)
  {
    hide HeapInv, ListInv, Exact, FreeMap, Next, With, RemoveAt;
    FreeCaseFacts(hdr, free, alloc, pages, base, k, b, false, true);
    var p, f := free[k], FreeMap(hdr, free, base);
    var size := hdr[p].size + alloc[b];
    var hdr1, hdr' := hdr[p := hdr[p].(size := size)], FreedHdr(hdr, p, b, false, true);
    ListResize(hdr, free, base, k, size, hdr1);
    ListFrame(hdr1, free, base, hdr');
    var all: Blocks := alloc + f;
    JoinBlocks(all, pages, p, b);
    assert (alloc - {b}) + f[p := size] == (all - {b})[p := all[p] + all[b]];
    HeapAfterFree(hdr, free, alloc, pages, base, k, b, hdr', free, f[p := size]);
  }

  lemma FreeRight(hdr: map<nat, Header>, free: seq<nat>, alloc: Blocks, pages: set<nat>, base: nat, k: nat, b: nat)
    requires FreeCase(hdr, free, alloc, pages, base, k, b, true, false)
    ensures b in hdr && hdr[free[k]].ptr in hdr
    ensures HeapInv(FreedHdr(hdr, free[k], b, true, false), FreedList(free, k, b, true, false), alloc - {b}, pages, base)
  {
    hide HeapInv, ListInv, Exact, FreeMap, With;
    FreeCaseFacts(hdr, free, alloc, pages, base, k, b, true, false);
    var p, nx, f := free[k], free[k + 1], FreeMap(hdr, free, base);
    var size := alloc[b] + hdr[nx].size;
    var hdr1, free1 := hdr[p := hdr[p].(ptr := Next(free, k + 1))], RemoveAt(free, k + 1);
    var hdr' := FreedHdr(hdr, p, b, true, false);
    ListRemove(hdr, free, base, k, hdr1);
    ListInsert(hdr1, free1, base, k, b, size, hdr');
    var all: Blocks := alloc + f;
    JoinBlocks(all, pages, b, nx);
    assert (alloc - {b}) + (f - {nx})[b := size] == (all - {nx})[b := all[b] + all[nx]];
    HeapAfterFree(hdr, free, alloc, pages, base, k, b, hdr', With(free1, k + 1, b), (f - {nx})[b := size]);
  }

  lemma FreeBoth(hdr: map<nat, Header>, free: seq<nat>, alloc: Blocks, pages: set<nat>, base: nat, k: nat, b: nat)
    requires FreeCase(hdr, free, alloc, pages, base, k, b, true, true)
    ensures b in hdr && hdr[free[k]].ptr in hdr
    ensures HeapInv(FreedHdr(hdr, free[k], b, true, true), FreedList(free, k, b, true, true), alloc - {b}, pages, base)
  {
    hide HeapInv, ListInv, Exact, FreeMap, With;
    FreeCaseFacts(hdr, free, alloc, pages, base, k, b, true, true);
    var p, nx, f := free[k], free[k + 1], FreeMap(hdr, free, base);
    var n, m := alloc[b], hdr[nx].size;
    var hdr1, free1 := hdr[p := hdr[p].(ptr := Next(free, k + 1))], RemoveAt(free, k + 1);
    var size := hdr[p].size + (n + m);
    var hdr2, hdr' := hdr1[p := hdr1[p].(size := size)], FreedHdr(hdr, p, b, true, true);
    ListRemove(hdr, free, base, k, hdr1);
    ListResize(hdr1, free1, base, k, size, hdr2);
    ListFrame(hdr2, free1, base, hdr');
    var all: Blocks := alloc + f;
    JoinBlocks(all, pages, b, nx);
    var all1: Blocks := (all - {nx})[b := n + m];
    JoinBlocks(all1, pages, p, b);
    assert (alloc - {b}) + (f - {nx})[p := size] == (all1 - {b})[p := all1[p] + all1[b]];
    HeapAfterFree(hdr, free, alloc, pages, base, k, b, hdr', free1, (f - {nx})[p := size]);
  }

  // ----- kmalloc on the whole heap -----

  lemma TakeWhole(hdr: map<nat, Header>, free: seq<nat>, alloc: Blocks, pages: set<nat>, base: nat, k: nat, hdr': map<nat, Header>)
    requires HeapInv(hdr, free, alloc, pages, base) && k + 1 < |free| && free[k] in hdr
    requires hdr' == hdr[free[k] := hdr[free[k]].(ptr := Next(free, k + 1))]
    ensures free[k + 1] in hdr && free[k + 1] !in alloc
    ensures HeapInv(hdr', RemoveAt(free, k + 1), alloc[free[k + 1] := hdr[free[k + 1]].size], pages, base)
  {
    hide Exact;
    NotAllocated(hdr, free, alloc, pages, base, k);
    NotAllocated(hdr, free, alloc, pages, base, k + 1);
    ListRemove(hdr, free, base, k, hdr');
    ListOrder(hdr, free, base, k, k + 1);
    var b, f := free[k + 1], FreeMap(hdr, free, base);
    assert b in f;
    hide ListInv, FreeMap, RemoveAt;
    assert alloc[b := hdr[b].size] + (f - {b}) == alloc + f;
  }

  lemma TakeTail(hdr: map<nat, Header>, free: seq<nat>, alloc: Blocks, pages: set<nat>, base: nat, k: nat, n: nat, b: nat,
                 hdr': map<nat, Header>)
    requires HeapInv(hdr, free, alloc, pages, base) && 0 < k < |free| && free[k] in hdr && 0 < n < hdr[free[k]].size
    requires b == free[k] + (hdr[free[k]].size - n)
    requires hdr'.Keys == hdr.Keys + {b}
    requires hdr'[b].size == n && hdr'[free[k]] == hdr[free[k]].(size := hdr[free[k]].size - n)
    requires forall a :: a in hdr && a != b && a != free[k] ==> hdr'[a] == hdr[a]
    ensures b !in alloc && HeapInv(hdr', free, alloc[b := n], pages, base)
  {
    hide Exact;
    NotAllocated(hdr, free, alloc, pages, base, k);
    ListEntry(hdr, free, base, k);
    var p, f := free[k], FreeMap(hdr, free, base);
    var m := hdr[p].size - n;
    assert p in f;
    var all: Blocks := alloc + f;
    SplitBlock(all, pages, p, n, b);
    assert b !in free by { ListTail(hdr, free, base, k, b); }
    var hdr1 := hdr[p := hdr[p].(size := m)];
    ListResize(hdr, free, base, k, m, hdr1);
    ListFrame(hdr1, free, base, hdr');
    hide ListInv, FreeMap;
    assert alloc[b := n] + f[p := m] == all[p := all[p] - n][b := n];
  }

  lemma ListTail(hdr: map<nat, Header>, free: seq<nat>, base: nat, k: nat, b: nat)
    requires ListInv(hdr, free, base) && k < |free| && free[k] in hdr && free[k] < b < free[k] + hdr[free[k]].size
    ensures b !in free
  {
    forall i | 0 <= i < |free| ensures free[i] != b {
      ListOrder(hdr, free, base, i, k);
      if i > k { assert GapAt(hdr, free, k, i); }
    }
  }

  // ----- ring positions -----

  /** Steps from entry i forward around the ring to entry k. */
  function Dist(n: nat, i: nat, k: nat): nat
    requires i < n && k < n
  {
    if i <= k then k - i else k + n - i
  }

  /** There is a spot for every block above base. */
  lemma {:induction false} FindSpot(hdr: map<nat, Header>, free: seq<nat>, base: nat, b: nat, from: nat) returns (k: nat)
    requires ListInv(hdr, free, base) && from < |free| && free[from] < b && b !in free
    ensures Spot(free, k, b)
    decreases |free| - from
  {
    if from + 1 == |free| || b < free[from + 1] {
      k := from;
    } else {
      k := FindSpot(hdr, free, base, b, from + 1);
    }
  }

  ghost predicate SmallAt(hdr: map<nat, Header>, free: seq<nat>, j: int, nunits: nat) {
    0 <= j < |free| && free[j] in hdr && hdr[free[j]].size < nunits
  }

  /** From entry f of the ring the entries after it are too small up to the one m places on, and the next is large enough. */
  ghost predicate FirstLarge(hdr: map<nat, Header>, free: seq<nat>, f: nat, m: nat, nunits: nat) {
    && m < |free| && f < |free|
    && (forall q :: 0 < q <= m ==> SmallAt(hdr, free, Around(|free|, f, q), nunits))
    && !SmallAt(hdr, free, Around(|free|, f, m + 1), nunits)
  }

  /** The entry after entry i is the first large enough one on the way around the ring from `start`. */
  ghost predicate NextFit(hdr: map<nat, Header>, free: seq<nat>, start: nat, i: nat, nunits: nat) {
    i < |free| && exists f: nat, m: nat :: FirstLarge(hdr, free, f, m, nunits) && free[f] == start && i == Around(|free|, f, m)
  }

  /** The end of the block after entry i. */
  ghost function FitEnd(hdr: map<nat, Header>, free: seq<nat>, i: nat): nat
  {
    if i < |free| && Next(free, i) in hdr then Next(free, i) + hdr[Next(free, i)].size else 0
  }

  class Heap {
    const base: nat
    var hdr: map<nat, Header>
    var freep: Option<nat>
    ghost var free: seq<nat>
    ghost var alloc: Blocks
    ghost var pages: set<nat>

    ghost predicate Valid()
      reads this
    {
      if freep.None? then alloc == map[] && pages == {} && free == []
      else HeapInv(hdr, free, alloc, pages, base) && freep.value in free
    }

    constructor (base: nat)
      ensures Valid() && alloc == map[] && pages == {} && this.base == base
    {
      this.base := base;
      hdr, freep := map[], None;
      free, alloc, pages := [], map[], {};
    }

    /** The search of kmfree: the list entry after which b belongs. */
    method FindPlace(b: nat) returns (p: nat, ghost k: nat)
      requires freep.Some? && Valid() && b in alloc
      ensures Spot(free, k, b) && p == free[k] && p in hdr && hdr[p].ptr == Next(free, k) && hdr[p].ptr in hdr
    {
      hide HeapInv, ListInv;
      HeapList(hdr, free, alloc, pages, base, b);
      k := FindSpot(hdr, free, base, b, 0);
      p := freep.value;
      ghost var i :| 0 <= i < |free| && free[i] == p;
      RingEntry(hdr, free, base, i);
      while !(b > p && b < hdr[p].ptr)
        invariant 0 <= i < |free| && p == free[i] && p in hdr && hdr[p].ptr == Next(free, i) && hdr[p].ptr in hdr
        decreases Dist(|free|, i, k)
      {
        RingEntry(hdr, free, base, i);
        SpotOrder(hdr, free, base, k, b, i);
        if p >= hdr[p].ptr && (b > p || b < hdr[p].ptr) {
          break;
        }
        p := hdr[p].ptr;
        i := if i + 1 < |free| then i + 1 else 0;
        RingEntry(hdr, free, base, i);
      }
      RingEntry(hdr, free, base, i);
      SpotOrder(hdr, free, base, k, b, i);
      if i + 1 < |free| { SpotOrder(hdr, free, base, k, b, i + 1); }
    }

    /** kmfree of the block whose header is at b. */
    method Kmfree(b: nat)
      requires freep.Some? && Valid() && b in alloc
      modifies `hdr, `freep, `free, `alloc
      ensures Valid() && freep.Some? && alloc == old(alloc) - {b}
      ensures freep.value in hdr && hdr[freep.value].ptr in hdr
      ensures exists k: nat :: Spot(old(free), k, b) && freep == Some(old(free)[k])
      ensures hdr[freep.value].size >= old(alloc[b]) || hdr[hdr[freep.value].ptr].size >= old(alloc[b])
    {
      hide HeapInv, ListInv;
      ghost var k;
      var p;
      p, k := FindPlace(b);
      ghost var hdr0, free0 := hdr, free;
      ghost var right := k + 1 < |free| && b + alloc[b] == free[k + 1];
      ghost var left := p + hdr[p].size == b;
      FreedHeap(hdr, free, alloc, pages, base, k, b, right, left);
      hide FreeCase;
      var nx := hdr[p].ptr;
      if b + hdr[b].size == nx {
        hdr := hdr[b := Header(hdr[nx].ptr, hdr[b].size + hdr[nx].size)];
      } else {
        hdr := hdr[b := Header(nx, hdr[b].size)];
      }
      if p + hdr[p].size == b {
        hdr := hdr[p := Header(hdr[b].ptr, hdr[p].size + hdr[b].size)];
      } else {
        hdr := hdr[p := Header(b, hdr[p].size)];
      }
      freep := Some(p);
      free := FreedList(free, k, b, right, left);
      alloc := alloc - {b};
      assert hdr == FreedHdr(hdr0, p, b, right, left);
    }

    /** morecore: one more page, freed into the list. `page` is the page number kalloc returns. */
    method Morecore(page: nat) returns (p: nat)
      requires freep.Some? && Valid() && page !in pages && page * PAGE_UNITS > base
      modifies `hdr, `freep, `free, `alloc, `pages
      ensures Valid() && freep == Some(p) && alloc == old(alloc) && pages == old(pages) + {page}
      ensures p in hdr && hdr[p].ptr in hdr
      ensures hdr[p].size >= PAGE_UNITS || hdr[hdr[p].ptr].size >= PAGE_UNITS
    {
      hide HeapInv, ListInv;
      var hp := page * PAGE_UNITS;
      PageJoins(hdr, free, alloc, pages, base, page, hdr[hp := Header(0, PAGE_UNITS)]);
      hdr := hdr[hp := Header(0, PAGE_UNITS)];
      pages := pages + {page};
      alloc := alloc[hp := PAGE_UNITS];
      Kmfree(hp);
      assert alloc == old(alloc);
      p := freep.value;
    }

    /** The first call makes base an empty ring. */
    method Init()
      requires Valid()
      modifies `hdr, `freep, `free
      ensures Valid() && freep.Some? && (old(freep).Some? ==> hdr == old(hdr) && free == old(free) && freep == old(freep))
    {
      hide HeapInv, ListInv;
      if freep.None? {
        hdr := hdr[base := Header(base, 0)];
        freep, free := Some(base), [base];
        EmptyHeap(hdr, base);
      }
    }

    /** The granting branch: p is large enough; all of it or its tail end becomes the block. */
    method Grant(prevp: nat, p: nat, nunits: nat, ghost i: nat) returns (r: nat)
      requires Valid() && freep.Some? && ListInv(hdr, free, base) && i < |free| && free[i] == prevp
      requires prevp in hdr && hdr[prevp].ptr == p == Next(free, i) && p in hdr && hdr[p].size >= nunits > 0
      modifies `hdr, `freep, `free, `alloc
      ensures Valid() && freep == Some(prevp) && r !in old(alloc) && alloc == old(alloc)[r := nunits]
      ensures r == p + (old(hdr[p].size) - nunits)
    {
      hide HeapInv, ListInv;
      SizedNotBase(hdr, free, base, i, nunits);
      assert i + 1 < |free| && p == free[i + 1];
      r := p;
      if hdr[p].size == nunits {
        TakeWhole(hdr, free, alloc, pages, base, i, hdr[prevp := hdr[prevp].(ptr := Next(free, i + 1))]);
        RingEntry(hdr, free, base, i + 1);
        hide Next;
        free, alloc := RemoveAt(free, i + 1), alloc[p := nunits];
        hdr := hdr[prevp := hdr[prevp].(ptr := hdr[p].ptr)];
        assert free[i] == prevp;
      } else {
        r := p + (hdr[p].size - nunits);
        ghost var h1 := hdr[p := hdr[p].(size := hdr[p].size - nunits)];
        ghost var h2 := h1[r := Header(if r in h1 then h1[r].ptr else 0, nunits)];
        TakeTail(hdr, free, alloc, pages, base, i + 1, nunits, r, h2);
        hdr := hdr[p := hdr[p].(size := hdr[p].size - nunits)];
        hdr := hdr[r := Header(if r in hdr then hdr[r].ptr else 0, nunits)];
        alloc := alloc[r := nunits];
      }
      freep := Some(prevp);
    }

    /** One trip of kmalloc around the ring from freep: an entry that is large enough, and the one before it. */
    method Search(nunits: nat) returns (found: bool, prevp: nat, p: nat, ghost i: nat)
      requires freep.Some? && Valid()
      ensures found ==> i < |free| && free[i] == prevp && prevp in hdr && hdr[prevp].ptr == p == Next(free, i)
      ensures found ==> p in hdr && hdr[p].size >= nunits && NextFit(hdr, free, freep.value, i, nunits)
      ensures !found ==> forall a :: a in free ==> a in hdr && hdr[a].size < nunits
      ensures ListInv(hdr, free, base)
    {
      hide HeapInv, ListInv, FreeMap;
      prevp := freep.value;
      ghost var f :| 0 <= f < |free| && free[f] == freep.value;
      HeapIsList(hdr, free, alloc, pages, base);
      RingEntry(hdr, free, base, f);
      p := hdr[prevp].ptr;
      i := f;
      ghost var m := 0;
      while hdr[p].size < nunits
        invariant 0 <= m < |free| && i == Around(|free|, f, m) && free[i] == prevp
        invariant prevp in hdr && hdr[prevp].ptr == p == Next(free, i) && p in hdr
        invariant forall q :: 0 < q <= m ==> SmallAt(hdr, free, Around(|free|, f, q), nunits)
        decreases |free| - m
      {
        assert SmallAt(hdr, free, Around(|free|, f, m + 1), nunits);
        if p == freep.value {
          RingUnique(hdr, free, base, f, Around(|free|, f, m + 1));
          AllSmall(hdr, free, f, nunits);
          return false, prevp, p, i;
        }
        m := m + 1;
        i := Around(|free|, f, m);
        RingEntry(hdr, free, base, i);
        prevp := p;
        p := hdr[prevp].ptr;
      }
      assert FirstLarge(hdr, free, f, m, nunits);
      found := true;
    }

    /**
     kmalloc. The result is the header address of the granted block; the caller
     gets the units after it. None is the panic for requests over 4080 bytes.
     `page` is the page kalloc would return; `grew` tells whether it was taken,
     which happens only when no free block is large enough. After morecore the
     loop goes on at the new freep, which is a new trip around the ring.
     */
    method Kmalloc(nbytes: nat, page: nat) returns (r: Option<nat>, ghost grew: bool)
      requires Valid() && page !in pages && page * PAGE_UNITS > base
      modifies `hdr, `freep, `free, `alloc, `pages
      ensures Valid()
      ensures r.None? <==> nbytes > MAX_BYTES
      ensures r.None? ==> alloc == old(alloc) && pages == old(pages)
      ensures r.Some? ==> r.value !in old(alloc) && alloc == old(alloc)[r.value := (nbytes + 15) / 16 + 1]
      ensures r.Some? ==> pages == (if grew then old(pages) + {page} else old(pages))
      ensures grew ==> forall a :: a in old(free) && a in old(hdr) ==> old(hdr)[a].size < (nbytes + 15) / 16 + 1
      ensures r.Some? && !grew && old(freep).Some? ==> exists i: nat ::
                && NextFit(old(hdr), old(free), old(freep.value), i, (nbytes + 15) / 16 + 1)
                && freep == Some(old(free)[i]) && r.value == FitEnd(old(hdr), old(free), i) - ((nbytes + 15) / 16 + 1)
    {
      grew := false;
      if nbytes > MAX_BYTES {
        return None, false;
      }
      hide HeapInv, ListInv, FreeMap, Next;
      var nunits := (nbytes + 15) / 16 + 1;
      Init();
      while true
        invariant Valid() && freep.Some? && alloc == old(alloc) && pages == (if grew then old(pages) + {page} else old(pages))
        invariant !grew ==> forall a :: a in old(free) ==> a in free && (a in old(hdr) ==> a in hdr && hdr[a] == old(hdr)[a])
        invariant !grew && old(freep).Some? ==> hdr == old(hdr) && free == old(free) && freep == old(freep)
        invariant grew ==> Large(hdr, free, freep.value)
        invariant grew ==> forall a :: a in old(free) && a in old(hdr) ==> old(hdr)[a].size < nunits
        decreases !grew
      {
        ghost var i;
        var found, prevp, p;
        found, prevp, p, i := Search(nunits);
        if found {
          assert FitEnd(hdr, free, i) == p + hdr[p].size;
          p := Grant(prevp, p, nunits, i);
          return Some(p), grew;
        }
        p := Morecore(page);
        HeapIsList(hdr, free, alloc, pages, base);
        LargeEntry(hdr, free, base, p);
        grew := true;
      }
    }
  }

  /** Entry x or the one after it has a page's worth of units. */
  ghost predicate Large(hdr: map<nat, Header>, free: seq<nat>, x: nat) {
    x in free && x in hdr && hdr[x].ptr in free && hdr[x].ptr in hdr && (hdr[x].size >= PAGE_UNITS || hdr[hdr[x].ptr].size >= PAGE_UNITS)
  }

  lemma LargeEntry(hdr: map<nat, Header>, free: seq<nat>, base: nat, x: nat)
    requires ListInv(hdr, free, base) && x in free && x in hdr && hdr[x].ptr in hdr
    requires hdr[x].size >= PAGE_UNITS || hdr[hdr[x].ptr].size >= PAGE_UNITS
    ensures Large(hdr, free, x)
  {
    var i :| 0 <= i < |free| && free[i] == x;
    RingEntry(hdr, free, base, i);
  }

  /** The index m places after f around a ring of n. */
  function Around(n: nat, f: nat, m: nat): nat {
    if f + m < n then f + m else f + m - n
  }

  lemma RingUnique(hdr: map<nat, Header>, free: seq<nat>, base: nat, i: nat, j: nat)
    requires ListInv(hdr, free, base) && i < |free| && j < |free| && free[i] == free[j]
    ensures i == j
  {
    ListOrder(hdr, free, base, i, j);
  }

  lemma AllSmall(hdr: map<nat, Header>, free: seq<nat>, f: nat, nunits: nat)
    requires f < |free| && forall q :: 0 < q <= |free| ==> SmallAt(hdr, free, Around(|free|, f, q), nunits)
    ensures forall a :: a in free ==> a in hdr && hdr[a].size < nunits
  {
    forall j | 0 <= j < |free| ensures SmallAt(hdr, free, j, nunits) {
      var q := if j > f then j - f else j - f + |free|;
      assert Around(|free|, f, q) == j;
    }
    forall a | a in free ensures a in hdr && hdr[a].size < nunits {
      var j :| 0 <= j < |free| && free[j] == a;
      assert SmallAt(hdr, free, j, nunits);
    }
  }

  lemma FreedHeap(hdr: map<nat, Header>, free: seq<nat>, alloc: Blocks, pages: set<nat>, base: nat, k: nat, b: nat,
                  right: bool, left: bool)
    requires FreeCase(hdr, free, alloc, pages, base, k, b, right, left)
    ensures b in hdr && free[k] in hdr && hdr[free[k]].ptr in hdr && hdr[b].size == alloc[b] && free[k] != b
    ensures hdr[free[k]].ptr == b + hdr[b].size <==> right
    ensures right ==> k + 1 < |free|
    ensures free[k] in FreedList(free, k, b, right, left)
    ensures var hdr' := FreedHdr(hdr, free[k], b, right, left);
            && HeapInv(hdr', FreedList(free, k, b, right, left), alloc - {b}, pages, base)
            && free[k] in hdr' && hdr'[free[k]].ptr in hdr'
            && (hdr'[free[k]].size >= alloc[b] || hdr'[hdr'[free[k]].ptr].size >= alloc[b])
  {
    hide HeapInv, ListInv, FreedList;
    FreeCaseFacts(hdr, free, alloc, pages, base, k, b, right, left);
    WrapNotAdjacent(hdr, free, alloc, pages, base, k, b);
    FreedHas(free, k, b, right, left);
    if right && left { FreeBoth(hdr, free, alloc, pages, base, k, b); }
    if right && !left { FreeRight(hdr, free, alloc, pages, base, k, b); }
    if !right && left { FreeLeft(hdr, free, alloc, pages, base, k, b); }
    if !right && !left { FreeAlone(hdr, free, alloc, pages, base, k, b); }
    RingEntry(hdr, free, base, if k + 1 < |free| then k + 1 else 0);
    FreedSizes(hdr, free[k], b, right, left);
  }

  lemma FreedSizes(hdr: map<nat, Header>, p: nat, b: nat, right: bool, left: bool)
    requires p in hdr && b in hdr && hdr[p].ptr in hdr && p != b && hdr[hdr[p].ptr].ptr in hdr
    ensures var hdr' := FreedHdr(hdr, p, b, right, left);
            && p in hdr' && hdr'[p].ptr in hdr'
            && (hdr'[p].size >= hdr[b].size || hdr'[hdr'[p].ptr].size >= hdr[b].size)
  {
  }

  lemma HeapList(hdr: map<nat, Header>, free: seq<nat>, alloc: Blocks, pages: set<nat>, base: nat, b: nat)
    requires HeapInv(hdr, free, alloc, pages, base) && b in alloc
    ensures ListInv(hdr, free, base) && |free| >= 1 && free[0] == base && base < b && b !in free
  {
    NotAllocated(hdr, free, alloc, pages, base, 0);
    var all := AllBlocks(hdr, free, alloc, base);
    assert Spans(all, b, b);
    assert Spanned(all, b);
    forall i | 0 <= i < |free| ensures free[i] != b { NotAllocated(hdr, free, alloc, pages, base, i); }
  }

  lemma RingEntry(hdr: map<nat, Header>, free: seq<nat>, base: nat, i: nat)
    requires ListInv(hdr, free, base) && i < |free|
    ensures free[i] in hdr && hdr[free[i]].ptr == Next(free, i) && Next(free, i) in hdr && free[0] == base
    ensures i + 1 < |free| ==> free[i] < free[i + 1]
    ensures base <= free[i] && (i > 0 ==> base < free[i])
  {
    ListEntry(hdr, free, base, i);
    ListEntry(hdr, free, base, if i + 1 < |free| then i + 1 else 0);
  }

  lemma SpotOrder(hdr: map<nat, Header>, free: seq<nat>, base: nat, k: nat, b: nat, i: nat)
    requires ListInv(hdr, free, base) && Spot(free, k, b) && i < |free|
    ensures i <= k ==> free[i] < b
    ensures i > k ==> b < free[i]
  {
    ListOrder(hdr, free, base, i, k);
    if i > k { ListOrder(hdr, free, base, k + 1, i); }
  }

  lemma WrapNotAdjacent(hdr: map<nat, Header>, free: seq<nat>, alloc: Blocks, pages: set<nat>, base: nat, k: nat, b: nat)
    requires HeapInv(hdr, free, alloc, pages, base) && b in alloc && Spot(free, k, b)
    ensures Next(free, k) == b + alloc[b] <==> k + 1 < |free| && b + alloc[b] == free[k + 1]
  {
    HeapList(hdr, free, alloc, pages, base, b);
  }

  lemma FreedHas(free: seq<nat>, k: nat, b: nat, right: bool, left: bool)
    requires k < |free| && (right ==> k + 1 < |free|)
    ensures free[k] in FreedList(free, k, b, right, left)
  {
    var f1 := if right then RemoveAt(free, k + 1) else free;
    assert f1[k] == free[k];
    assert With(f1, k + 1, b)[k] == free[k];
  }

  lemma HeapIsList(hdr: map<nat, Header>, free: seq<nat>, alloc: Blocks, pages: set<nat>, base: nat)
    requires HeapInv(hdr, free, alloc, pages, base)
    ensures ListInv(hdr, free, base)
  {
  }

  lemma EmptyHeap(hdr: map<nat, Header>, base: nat)
    requires base in hdr && hdr[base] == Header(base, 0)
    ensures HeapInv(hdr, [base], map[], {}, base)
  {
    assert FreeMap(hdr, [base], base) == map[];
    assert RingAt(hdr, [base], 0);
  }

  lemma SizedNotBase(hdr: map<nat, Header>, free: seq<nat>, base: nat, i: nat, n: nat)
    requires ListInv(hdr, free, base) && i < |free| && Next(free, i) in hdr && hdr[Next(free, i)].size >= n > 0
    ensures i + 1 < |free|
  {
  }

  /** A new page is one allocated block until it is freed into the list. */
  lemma PageJoins(hdr: map<nat, Header>, free: seq<nat>, alloc: Blocks, pages: set<nat>, base: nat, page: nat, hdr': map<nat, Header>)
    requires HeapInv(hdr, free, alloc, pages, base) && page !in pages && page * PAGE_UNITS > base
    requires hdr' == hdr[page * PAGE_UNITS := Header(0, PAGE_UNITS)]
    ensures page * PAGE_UNITS !in alloc
    ensures HeapInv(hdr', free, alloc[page * PAGE_UNITS := PAGE_UNITS], pages + {page}, base)
  {
    hide Exact;
    var a, f := page * PAGE_UNITS, FreeMap(hdr, free, base);
    AddPage(alloc + f, pages, page, a);
    assert a !in free by {
      forall i | 0 <= i < |free| ensures free[i] != a {
        ListEntry(hdr, free, base, i);
        if i > 0 { assert free[i] in f; }
      }
    }
    ListFrame(hdr, free, base, hdr');
    hide ListInv, FreeMap;
    assert alloc[a := PAGE_UNITS] + f == (alloc + f)[a := PAGE_UNITS];
  }
}
