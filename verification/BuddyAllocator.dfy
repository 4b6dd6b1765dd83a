/**
 The buddy page allocator: the page-structure array, the per-order free lists
 threaded through it, splitting, recursive coalescing and reference counts.
 Pointers to page structures are page indices; NULL is None.
 */
module BuddyAllocator {
  import opened Wrappers
  import opened BuddyBlocks

  const PAGE_SIZE: nat := 4096
  const MAX_BLOCK: nat := 1024

  datatype Page = Page(free: bool, first: bool, order: nat, refcnt: nat, next: Option<nat>)

  // ----- free lists as sequences -----

  function At(xs: seq<nat>, i: nat): Option<nat> {
    if i < |xs| then Some(xs[i]) else None
  }

  /** Entry i of xs is a page whose `next` is entry i + 1. */
  ghost predicate Link(pg: seq<Page>, xs: seq<nat>, i: nat) {
    i < |xs| && xs[i] < |pg| && pg[xs[i]].next == At(xs, i + 1)
  }

  /** The chain of `next` pointers that starts at head spells out exactly xs. */
  ghost predicate Chain(pg: seq<Page>, head: Option<nat>, xs: seq<nat>) {
    head == At(xs, 0) && forall i :: 0 <= i < |xs| ==> Link(pg, xs, i)
  }

  ghost predicate Distinct(xs: seq<nat>) {
    forall i, j :: 0 <= i < j < |xs| ==> xs[i] != xs[j]
  }

  predicate IsFree(pg: seq<Page>, p: nat, k: nat) {
    p < |pg| && pg[p].free && pg[p].order == k
  }

  /** The list of order k is a proper chain of exactly the pages flagged free at that order. */
  ghost predicate ListAt(pg: seq<Page>, head: Option<nat>, xs: seq<nat>, k: nat) {
    && Chain(pg, head, xs) && Distinct(xs)
    && (forall i :: 0 <= i < |xs| ==> IsFree(pg, xs[i], k))
    && (forall p :: IsFree(pg, p, k) ==> p in xs)
  }

  /** All free lists; a page on no list has a null `next`. */
  ghost predicate ListInv(pg: seq<Page>, heads: seq<Option<nat>>, lists: seq<seq<nat>>) {
    && |heads| == PAGE_MAX_DEPTH && |lists| == PAGE_MAX_DEPTH
    && (forall k :: 0 <= k < PAGE_MAX_DEPTH ==> ListAt(pg, heads[k], lists[k], k))
    && (forall p :: 0 <= p < |pg| && !pg[p].free ==> pg[p].next == None)
    && (forall p :: 0 <= p < |pg| && pg[p].free ==> pg[p].order < PAGE_MAX_DEPTH)
  }

  // ----- blocks described by the page flags -----

  ghost function FreeBlocks(pg: seq<Page>): map<nat, nat> {
    map p | 0 <= p < |pg| && pg[p].free :: pg[p].order
  }

  ghost function UsedBlocks(pg: seq<Page>): map<nat, nat> {
    map p | 0 <= p < |pg| && pg[p].first :: pg[p].order
  }

  ghost predicate Linked(pg: seq<Page>, blocks: map<nat, nat>, pending: Option<nat>) {
    && (forall p :: p in blocks ==> p < |pg| && (pg[p].free || pg[p].first || pending == Some(p)))
    && (forall p :: 0 <= p < |pg| && (pg[p].free || pg[p].first) ==>
          p in blocks && blocks[p] == pg[p].order && !(pg[p].free && pg[p].first) && pending != Some(p))
    && (pending.Some? ==> pending.value in blocks)
  }

  /** Equal up to the list link. */
  predicate SameBlock(a: Page, b: Page) {
    a.free == b.free && a.first == b.first && a.order == b.order && a.refcnt == b.refcnt
  }

  ghost predicate Counted(pg: seq<Page>) {
    && (forall p :: 0 <= p < |pg| && !pg[p].first ==> pg[p].refcnt <= 1)
    && (forall p :: 0 <= p < |pg| && pg[p].first ==> pg[p].refcnt >= 1)
  }

  /**
   Block structure. `blocks` is the tiling of the pages; `pending` is the block
   that is in transit inside an operation, neither listed nor handed out. It is
   None between operations.
   */
  ghost predicate BlockInv(pg: seq<Page>, blocks: map<nat, nat>, pending: Option<nat>) {
    && Linked(pg, blocks, pending)
    && Counted(pg)
    && Tiling(blocks, |pg|)
    && Coalesced(FreeBlocks(pg))
  }

  lemma FreeSeparate(pg: seq<Page>, blocks: map<nat, nat>, pending: Option<nat>)
    requires BlockInv(pg, blocks, pending)
    ensures Separate(FreeBlocks(pg), |pg|)
  {
    hide Pow2, Aligned, BuddyIndex, BackHalf;
    SeparateSubset(blocks, FreeBlocks(pg), |pg|);
  }

  lemma SplitLinked(pg: seq<Page>, pg': seq<Page>, blocks: map<nat, nat>, h: nat, k: nat, h': nat)
    requires Linked(pg, blocks, Some(h)) && h < h' < |pg| && h' !in blocks
    requires pg' == pg[h := pg[h].(free := true, order := k)]
    ensures Linked(pg', blocks[h := k][h' := k], Some(h')) && (Counted(pg) ==> Counted(pg'))
    ensures UsedBlocks(pg') == UsedBlocks(pg)
    ensures h !in FreeBlocks(pg) && h' !in FreeBlocks(pg) && FreeBlocks(pg') == FreeBlocks(pg)[h := k]
  {
  }

  /** The pending block is split: its front half is listed free, its back half stays pending. */
  lemma SplitStep(pg: seq<Page>, pg': seq<Page>, blocks: map<nat, nat>, h: nat, k: nat)
    requires BlockInv(pg, blocks, Some(h)) && blocks[h] == k + 1 && h < |pg|
    requires pg' == pg[h := pg[h].(free := true, order := k)]
    ensures h + Pow2(k) < |pg| && BlockInv(pg', blocks[h := k][h + Pow2(k) := k], Some(h + Pow2(k)))
    ensures UsedBlocks(pg') == UsedBlocks(pg)
  {
    hide Pow2, Aligned, BuddyIndex, BackHalf, Tiling, Coalesced, Counted, FreeBlocks, UsedBlocks;
    TilingBlock(blocks, |pg|, h);
    SplitTiling(blocks, |pg|, h, k, h + Pow2(k));
    TilingBlock(blocks[h := k][h + Pow2(k) := k], |pg|, h + Pow2(k));
    SplitPair(h, k);
    FreeSeparate(pg, blocks, Some(h));
    SplitLinked(pg, pg', blocks, h, k, h + Pow2(k));
    CoalescedInsert(FreeBlocks(pg), |pg|, h, k);
  }

  lemma MergeLinked(pg: seq<Page>, pg': seq<Page>, blocks: map<nat, nat>, h: nat, b: nat, g: nat, g': nat, k: nat)
    requires Linked(pg, blocks, Some(h)) && h < |pg| && b < |pg| && pg[b].free
    requires h != b && {g, g'} == {h, b}
    requires |pg'| == |pg| && forall p :: 0 <= p < |pg| && p != h && p != b ==> SameBlock(pg'[p], pg[p])
    requires !pg'[h].free && !pg'[b].free && !pg'[h].first && !pg'[b].first
    requires pg'[h].refcnt == pg[h].refcnt && pg'[b].refcnt == pg[b].refcnt
    ensures Linked(pg', (blocks - {g'})[g := k], Some(g)) && (Counted(pg) ==> Counted(pg'))
    ensures UsedBlocks(pg') == UsedBlocks(pg)
    ensures FreeBlocks(pg') == FreeBlocks(pg) - {b}
  {
    assert g in {g, g'} && g' in {g, g'};
    assert g != g';
  }

  /** The pending block is merged with its free buddy, which leaves its list. */
  lemma MergeStep(pg: seq<Page>, pg': seq<Page>, blocks: map<nat, nat>, h: nat, k: nat, b: nat, g: nat)
    requires BlockInv(pg, blocks, Some(h)) && blocks[h] == k && k < PAGE_MAX_ORDER && h < |pg|
    requires b == BuddyIndex(h, k) && b < |pg| && pg[b].free && pg[b].order == k
    requires g == (if BackHalf(b, k) then h else b)
    requires |pg'| == |pg| && forall p :: 0 <= p < |pg| && p != h && p != b ==> SameBlock(pg'[p], pg[p])
    requires !pg'[h].free && !pg'[b].free && !pg'[h].first && !pg'[b].first
    requires pg'[h].refcnt == pg[h].refcnt && pg'[b].refcnt == pg[b].refcnt
    ensures BlockInv(pg', (blocks - {g + Pow2(k)})[g := k + 1], Some(g))
    ensures UsedBlocks(pg') == UsedBlocks(pg)
  {
    hide Pow2, Aligned, BuddyIndex, BackHalf, Tiling, Coalesced, Counted, FreeBlocks, UsedBlocks;
    TilingBlock(blocks, |pg|, h);
    JoinPair(h, k);
    BuddyInvolution(h, k);
    JoinTiling(blocks, |pg|, g, k, g + Pow2(k));
    MergeLinked(pg, pg', blocks, h, b, g, g + Pow2(k), k + 1);
    CoalescedRemove(FreeBlocks(pg), b);
  }

  /** The pending block is put on its free list. */
  lemma ListStep(pg: seq<Page>, pg': seq<Page>, blocks: map<nat, nat>, h: nat)
    requires h < |pg| && BlockInv(pg, blocks, Some(h)) && blocks[h] == pg[h].order
    requires pg[h].order == PAGE_MAX_ORDER || !IsBlock(FreeBlocks(pg), BuddyIndex(h, pg[h].order), pg[h].order)
    requires |pg'| == |pg| && forall p :: 0 <= p < |pg| && p != h ==> pg'[p] == pg[p]
    requires pg'[h].free && !pg'[h].first && pg'[h].order == pg[h].order && pg'[h].refcnt == pg[h].refcnt
    ensures BlockInv(pg', blocks, None) && UsedBlocks(pg') == UsedBlocks(pg)
  {
    hide Pow2, Aligned, BuddyIndex, BackHalf, Tiling, Coalesced;
    FreeSeparate(pg, blocks, Some(h));
    TilingBlock(blocks, |pg|, h);
    CoalescedInsert(FreeBlocks(pg), |pg|, h, pg[h].order);
    assert FreeBlocks(pg') == FreeBlocks(pg)[h := pg[h].order];
  }

  /** A listed block leaves its list and becomes pending. */
  lemma UnlistStep(pg: seq<Page>, pg': seq<Page>, blocks: map<nat, nat>, h: nat)
    requires h < |pg| && BlockInv(pg, blocks, None) && pg[h].free
    requires |pg'| == |pg| && forall p :: 0 <= p < |pg| && p != h ==> pg'[p] == pg[p]
    requires !pg'[h].free && !pg'[h].first && pg'[h].refcnt == pg[h].refcnt
    ensures BlockInv(pg', blocks, Some(h)) && UsedBlocks(pg') == UsedBlocks(pg)
  {
    hide Pow2, Aligned, BuddyIndex, BackHalf, Tiling, Coalesced;
    CoalescedRemove(FreeBlocks(pg), h);
    assert FreeBlocks(pg') == FreeBlocks(pg) - {h};
  }

  /** The pending block is handed out. */
  lemma GrantStep(pg: seq<Page>, pg': seq<Page>, blocks: map<nat, nat>, h: nat)
    requires h < |pg| && BlockInv(pg, blocks, Some(h))
    requires |pg'| == |pg| && forall p :: 0 <= p < |pg| && p != h ==> pg'[p] == pg[p]
    requires !pg'[h].free && pg'[h].first && pg'[h].order == blocks[h] && pg'[h].refcnt >= 1
    ensures BlockInv(pg', blocks, None) && UsedBlocks(pg') == UsedBlocks(pg)[h := blocks[h]]
  {
    hide Pow2, Aligned, BuddyIndex, BackHalf, Tiling, Coalesced;
    assert FreeBlocks(pg') == FreeBlocks(pg);
  }

  /** A granted block whose last reference goes becomes pending again. */
  lemma ReturnStep(pg: seq<Page>, pg': seq<Page>, blocks: map<nat, nat>, h: nat)
    requires h < |pg| && BlockInv(pg, blocks, None) && pg[h].first && pg[h].refcnt == 1
    requires pg' == pg[h := pg[h].(first := false)]
    ensures BlockInv(pg', blocks, Some(h)) && UsedBlocks(pg') == UsedBlocks(pg) - {h}
  {
    hide Pow2, Aligned, BuddyIndex, BackHalf, Tiling, Coalesced;
    assert FreeBlocks(pg') == FreeBlocks(pg);
  }

  // ----- history independence -----

  lemma FreeCover(pg: seq<Page>, blocks: map<nat, nat>, q: nat)
    requires BlockInv(pg, blocks, None) && q < |pg|
    ensures Covered(FreeBlocks(pg), q) <==> !Covered(UsedBlocks(pg), q)
  {
    hide Pow2, Aligned, BuddyIndex, BackHalf;
    assert blocks == UsedBlocks(pg) + FreeBlocks(pg);
    ComplementCover(blocks, UsedBlocks(pg), FreeBlocks(pg), |pg|, q);
  }

  /**
   The set of free blocks is a function of the granted blocks: any two reachable
   heaps with the same granted blocks have the same free blocks.
   */
  lemma FreeDeterminedByUsed(pg: seq<Page>, blocks: map<nat, nat>, pg': seq<Page>, blocks': map<nat, nat>)
    requires |pg| == |pg'| && BlockInv(pg, blocks, None) && BlockInv(pg', blocks', None)
    requires UsedBlocks(pg) == UsedBlocks(pg')
    ensures FreeBlocks(pg) == FreeBlocks(pg')
  {
    hide Pow2, Aligned, BuddyIndex, BackHalf;
    FreeSeparate(pg, blocks, None);
    FreeSeparate(pg', blocks', None);
    forall q | 0 <= q < |pg| ensures Covered(FreeBlocks(pg), q) <==> Covered(FreeBlocks(pg'), q) {
      FreeCover(pg, blocks, q);
      FreeCover(pg', blocks', q);
    }
    Canonical(FreeBlocks(pg), FreeBlocks(pg'), |pg|);
  }

  // ----- free pages -----

  /** The pages in free blocks. */
  ghost function Available(pg: seq<Page>): set<nat> {
    set q: nat | q < |pg| && Covered(FreeBlocks(pg), q)
  }

  /** The pages of block (h, k) leave the free pages, to which they all belonged. */
  ghost predicate Consumes(pg: seq<Page>, pg': seq<Page>, h: nat, k: nat) {
    && (forall q :: q in Available(pg') <==> q in Available(pg) && !(h <= q < h + Pow2(k)))
    && (forall q :: h <= q < h + Pow2(k) ==> q in Available(pg))
  }

  /** A granted block leaves the free pages as a whole. */
  lemma GrantedPages(pg: seq<Page>, blocks: map<nat, nat>, pg': seq<Page>, blocks': map<nat, nat>, h: nat)
    requires BlockInv(pg, blocks, None) && BlockInv(pg', blocks', None)
    requires h < |pg| && !pg[h].first && KeepsOthers(pg, pg', Some(h)) && pg'[h].first
    ensures Consumes(pg, pg', h, pg'[h].order)
  {
    hide Pow2, Coalesced, Counted, FreeBlocks;
    var k := pg'[h].order;
    TilingBlock(blocks', |pg'|, h);
    forall q: nat | q < |pg|
      ensures q in Available(pg') <==> q in Available(pg) && !(h <= q < h + Pow2(k))
      ensures h <= q < h + Pow2(k) ==> q in Available(pg)
    {
      FreeCover(pg, blocks, q);
      FreeCover(pg', blocks', q);
      UsedCover(pg, pg', blocks', h, q);
    }
  }

  lemma ReturnedPages(pg: seq<Page>, blocks: map<nat, nat>, pg': seq<Page>, blocks': map<nat, nat>, h: nat)
    requires BlockInv(pg, blocks, None) && BlockInv(pg', blocks', None)
    requires h < |pg| && pg[h].first && KeepsOthers(pg, pg', Some(h)) && !pg'[h].first
    ensures Consumes(pg', pg, h, pg[h].order)
  {
    hide BlockInv;
    GrantedPages(pg', blocks', pg, blocks, h);
  }

  /** Counts do not matter for which pages are free. */
  lemma SameAvailable(pg: seq<Page>, pg': seq<Page>)
    requires |pg'| == |pg| && forall q :: 0 <= q < |pg| ==> pg'[q].free == pg[q].free && pg'[q].order == pg[q].order
    ensures Available(pg') == Available(pg)
  {
    assert FreeBlocks(pg') == FreeBlocks(pg);
  }

  /** Some block is free exactly when some page is. */
  lemma AnyAvailable(pg: seq<Page>)
    ensures HasRoom(pg, 0) <==> Available(pg) != {}
  {
    var f := FreeBlocks(pg);
    if HasRoom(pg, 0) {
      var h: nat :| h < |pg| && pg[h].free && pg[h].order >= 0;
      assert Covers(f, h, h);
      assert h in Available(pg);
    }
    if q: nat :| q in Available(pg) {
      var h: nat :| Covers(f, h, q);
      assert h in f && pg[h].free;
    }
  }

  /** A block of one page is one page less. */
  lemma OneLess(pg: seq<Page>, pg': seq<Page>, h: nat)
    requires Consumes(pg, pg', h, 0)
    ensures |Available(pg')| + 1 == |Available(pg)|
  {
    hide Available;
    assert Pow2(0) == 1;
    assert Available(pg) == Available(pg') + {h};
  }

  /** Page q is granted afterwards if it was, or if it lies in the new block; not both. */
  lemma UsedCover(pg: seq<Page>, pg': seq<Page>, blocks': map<nat, nat>, h: nat, q: nat)
    requires BlockInv(pg', blocks', None) && h < |pg| && !pg[h].first && KeepsOthers(pg, pg', Some(h)) && pg'[h].first
    ensures Covered(UsedBlocks(pg'), q) <==> Covered(UsedBlocks(pg), q) || h <= q < h + Pow2(pg'[h].order)
    ensures !(Covered(UsedBlocks(pg), q) && h <= q < h + Pow2(pg'[h].order))
  {
    hide Pow2, Coalesced, Counted, Aligned;
    var u, u' := UsedBlocks(pg), UsedBlocks(pg');
    assert forall x :: Covers(u, x, q) ==> Covers(u', x, q) && x != h;
    assert forall x :: Covers(u', x, q) && x != h ==> Covers(u, x, q);
    assert Covers(u', h, q) <==> h <= q < h + Pow2(pg'[h].order);
    assert forall x :: x in u' ==> x in blocks' && blocks'[x] == u'[x];
  }

  // ----- what becomes of the free lists -----

  /**
   A block of order k comes from the first page of the least order j that has a
   free block: the front halves of the splits are listed, the last back half is r.
   */
  ghost predicate Taken(lists: seq<seq<nat>>, lists': seq<seq<nat>>, k: nat, j: nat, r: int) {
    && |lists| == |lists'| == PAGE_MAX_DEPTH && k <= j < PAGE_MAX_DEPTH && lists[j] != []
    && (forall i :: k <= i < j ==> lists[i] == [])
    && r == lists[j][0] + Pow2(j) - Pow2(k)
    && forall i :: 0 <= i < PAGE_MAX_DEPTH ==> TakenAt(lists, lists', k, j, i)
  }

  ghost predicate TakenAt(lists: seq<seq<nat>>, lists': seq<seq<nat>>, k: nat, j: nat, i: nat)
    requires |lists| == |lists'| && j < |lists| && i < |lists| && lists[j] != []
  {
    if i == j then lists'[i] == lists[j][1..]
    else if k <= i < j then |lists'[i]| == 1 && lists'[i][0] == lists[j][0] + Pow2(j) - Pow2(i + 1)
    else lists'[i] == lists[i]
  }

  lemma TakenSplit(lists: seq<seq<nat>>, mid: seq<seq<nat>>, k: nat, j: nat, r: nat)
    requires 0 < k && Taken(lists, mid, k, j, r) && lists[k - 1] == []
    ensures Taken(lists, mid[k - 1 := [r]], k - 1, j, r + Pow2(k - 1))
  {
    var lists', k' := mid[k - 1 := [r]], k - 1;
    forall i | 0 <= i < PAGE_MAX_DEPTH ensures TakenAt(lists, lists', k', j, i) {
      assert TakenAt(lists, mid, k, j, i);
    }
  }

  /** A list without page x. */
  ghost function Without(xs: seq<nat>, x: nat): seq<nat> {
    if xs == [] then [] else if xs[0] == x then xs[1..] else [xs[0]] + Without(xs[1..], x)
  }

  lemma {:induction false} WithoutAt(xs: seq<nat>, i: nat)
    requires i < |xs| && xs[i] !in xs[..i]
    ensures Without(xs, xs[i]) == RemoveAt(xs, i)
  {
    if i == 0 {
      assert RemoveAt(xs, 0) == xs[1..];
    } else {
      assert xs[0] == xs[..i][0] && xs[1..][..i - 1] == xs[..i][1..];
      WithoutAt(xs[1..], i - 1);
      assert RemoveAt(xs, i) == [xs[0]] + RemoveAt(xs[1..], i - 1);
    }
  }

  /** Block (p, k) is freed: as long as its buddy is listed the two merge, and the result goes to the front of its list. */
  ghost function Freed(lists: seq<seq<nat>>, p: nat, k: nat): seq<seq<nat>>
    requires |lists| == PAGE_MAX_DEPTH && k < PAGE_MAX_DEPTH
    decreases PAGE_MAX_DEPTH - k
  {
    var b := BuddyIndex(p, k);
    if k < PAGE_MAX_ORDER && 0 <= b && b in lists[k] then
      Freed(lists[k := Without(lists[k], b)], if b < p then b else p, k + 1)
    else
      lists[k := [p] + lists[k]]
  }

  // ----- the initial heap -----

  /** One block of the maximum order per 1024 pages. */
  ghost function MaxBlocks(n: nat): map<nat, nat> {
    map h | 0 <= h < n && h % MAX_BLOCK == 0 :: PAGE_MAX_ORDER
  }

  const ZERO_PAGE := Page(false, false, 0, 0, None)

  function InitialPage(n: nat, i: nat): Page {
    if i % MAX_BLOCK == 0
    then Page(true, false, PAGE_MAX_ORDER, 0, if i + MAX_BLOCK < n then Some(i + MAX_BLOCK) else None)
    else ZERO_PAGE
  }

  function InitialPages(n: nat): (pg: seq<Page>)
    ensures |pg| == n && forall i :: 0 <= i < n ==> pg[i] == InitialPage(n, i)
  {
    seq(n, i requires 0 <= i => InitialPage(n, i))
  }

  lemma InitialBlock(n: nat, i: nat)
    requires n % MAX_BLOCK == 0 && i < n / MAX_BLOCK
    ensures forall p :: i * MAX_BLOCK <= p < (i + 1) * MAX_BLOCK ==>
              InitialPage(n, p) == if p > i * MAX_BLOCK then ZERO_PAGE
                                   else Page(true, false, PAGE_MAX_ORDER, 0,
                                             if i < n / MAX_BLOCK - 1 then Some((i + 1) * MAX_BLOCK) else None)
  {
  }

  lemma MaxOrderSize()
    ensures Pow2(PAGE_MAX_ORDER) == MAX_BLOCK
  {
    assert Pow2(5) == 32;
    Pow2Split(5, 10);
  }

  lemma InitialTiling(n: nat)
    requires n % MAX_BLOCK == 0
    ensures Tiling(MaxBlocks(n), n) && Coalesced(MaxBlocks(n))
  {
    MaxOrderSize();
    hide Pow2, BuddyIndex, IsBlock;
    var b := MaxBlocks(n);
    forall q | 0 <= q < n ensures Covered(b, q) {
      assert Covers(b, q - q % MAX_BLOCK, q);
    }
  }

  lemma InitialBlocks(n: nat)
    requires n % MAX_BLOCK == 0
    ensures BlockInv(InitialPages(n), MaxBlocks(n), None)
    ensures FreeBlocks(InitialPages(n)) == MaxBlocks(n) && UsedBlocks(InitialPages(n)) == map[]
  {
    hide Tiling, Coalesced;
    InitialTiling(n);
    assert FreeBlocks(InitialPages(n)) == MaxBlocks(n);
  }

  /** Freeing everything restores the initial set of maximum-order blocks, whatever happened before. */
  lemma AllFreedIsInitial(pg: seq<Page>, blocks: map<nat, nat>)
    requires |pg| % MAX_BLOCK == 0 && BlockInv(pg, blocks, None) && UsedBlocks(pg) == map[]
    ensures FreeBlocks(pg) == MaxBlocks(|pg|)
  {
    hide BlockInv;
    InitialBlocks(|pg|);
    FreeDeterminedByUsed(pg, blocks, InitialPages(|pg|), MaxBlocks(|pg|));
  }

  function InitialList(n: nat): (xs: seq<nat>)
    requires n % MAX_BLOCK == 0
    ensures |xs| == n / MAX_BLOCK && forall i :: 0 <= i < |xs| ==> xs[i] == i * MAX_BLOCK
  {
    seq(n / MAX_BLOCK, i requires 0 <= i => i * MAX_BLOCK)
  }

  lemma InitialListAt(n: nat)
    requires n > 0 && n % MAX_BLOCK == 0
    ensures ListAt(InitialPages(n), Some(0), InitialList(n), PAGE_MAX_ORDER)
  {
    var pg, xs := InitialPages(n), InitialList(n);
    forall i | 0 <= i < |xs| ensures Link(pg, xs, i) && IsFree(pg, xs[i], PAGE_MAX_ORDER) {
      assert xs[i] % MAX_BLOCK == 0;
    }
    forall p: nat | IsFree(pg, p, PAGE_MAX_ORDER) ensures p in xs {
      assert xs[p / MAX_BLOCK] == p;
    }
  }

  ghost predicate InitialHeads(heads: seq<Option<nat>>) {
    |heads| == PAGE_MAX_DEPTH && heads[PAGE_MAX_ORDER] == Some(0)
    && forall k :: 0 <= k < PAGE_MAX_ORDER ==> heads[k] == None
  }

  ghost function InitialLists(n: nat): (lists: seq<seq<nat>>)
    requires n % MAX_BLOCK == 0
    ensures |lists| == PAGE_MAX_DEPTH && lists[PAGE_MAX_ORDER] == InitialList(n)
    ensures forall k :: 0 <= k < PAGE_MAX_ORDER ==> lists[k] == []
  {
    seq(PAGE_MAX_DEPTH, k => if k < PAGE_MAX_ORDER then [] else InitialList(n))
  }

  lemma InitialListInv(n: nat, heads: seq<Option<nat>>)
    requires n > 0 && n % MAX_BLOCK == 0 && InitialHeads(heads)
    ensures ListInv(InitialPages(n), heads, InitialLists(n))
  {
    InitialListAt(n);
    hide InitialList;
    forall k | 0 <= k < PAGE_MAX_DEPTH ensures ListAt(InitialPages(n), heads[k], InitialLists(n)[k], k) {
    }
  }

  // ----- free-list updates -----

  lemma OtherList(pg: seq<Page>, pg': seq<Page>, head: Option<nat>, xs: seq<nat>, k: nat)
    requires ListAt(pg, head, xs, k) && |pg'| == |pg|
    requires forall p: nat :: IsFree(pg, p, k) || IsFree(pg', p, k) ==> pg'[p] == pg[p]
    ensures ListAt(pg', head, xs, k)
  {
    forall i | 0 <= i < |xs| ensures Link(pg', xs, i) {
      assert Link(pg, xs, i) && IsFree(pg, xs[i], k);
    }
  }

  lemma ListEntry(pg: seq<Page>, head: Option<nat>, xs: seq<nat>, k: nat, i: nat)
    requires ListAt(pg, head, xs, k) && i < |xs|
    ensures xs[i] < |pg| && IsFree(pg, xs[i], k) && pg[xs[i]].next == At(xs, i + 1) && (i == 0 ==> head == Some(xs[i]))
    ensures forall j :: 0 <= j < |xs| && j != i ==> xs[j] != xs[i]
  {
    assert Link(pg, xs, i);
  }

  /** Unlinking the i-th entry: its predecessor, or the list head, takes over its `next`. */
  ghost function Unlink(pg: seq<Page>, xs: seq<nat>, i: nat): seq<Page>
    requires i < |xs| && forall j :: 0 <= j < |xs| ==> xs[j] < |pg|
  {
    var h := xs[i];
    var mid := if i == 0 then pg else pg[xs[i - 1] := pg[xs[i - 1]].(next := pg[h].next)];
    mid[h := pg[h].(free := false, next := None)]
  }

  /** What unlinking entry i does to another entry x. */
  lemma UnlinkEntry(pg: seq<Page>, xs: seq<nat>, k: nat, i: nat, x: nat)
    requires i < |xs| && Link(pg, xs, i) && Link(pg, xs, x) && IsFree(pg, xs[x], k) && xs[x] != xs[i]
    requires forall j :: 0 <= j < |xs| ==> xs[j] < |pg|
    requires i > 0 && x != i - 1 ==> xs[x] != xs[i - 1]
    ensures var y := if x < i then x else x - 1;
            var ys := RemoveAt(xs, i);
            y < |ys| && ys[y] == xs[x] && Link(Unlink(pg, xs, i), ys, y) && IsFree(Unlink(pg, xs, i), xs[x], k)
  {
  }

  lemma RemoveAtMembers(xs: seq<nat>, i: nat, p: nat)
    requires i < |xs| && Distinct(xs)
    ensures Distinct(RemoveAt(xs, i))
    ensures p in RemoveAt(xs, i) <==> p in xs && p != xs[i]
  {
    var ys := RemoveAt(xs, i);
    if p in xs && p != xs[i] {
      var j :| 0 <= j < |xs| && xs[j] == p;
      assert ys[if j < i then j else j - 1] == p;
    }
  }

  lemma UnlinkChain(pg: seq<Page>, head: Option<nat>, xs: seq<nat>, k: nat, i: nat, ys: seq<nat>)
    requires ListAt(pg, head, xs, k) && i < |xs| && ys == RemoveAt(xs, i)
    ensures forall j :: 0 <= j < |xs| ==> xs[j] < |pg|
    ensures Chain(Unlink(pg, xs, i), if i == 0 then pg[xs[0]].next else head, ys)
    ensures forall j :: 0 <= j < |ys| ==> IsFree(Unlink(pg, xs, i), ys[j], k)
  {
    assert forall j :: 0 <= j < |xs| ==> IsFree(pg, xs[j], k);
    assert Link(pg, xs, i);
    var pg' := Unlink(pg, xs, i);
    assert (if i == 0 then pg[xs[0]].next else head) == At(ys, 0);
    hide Unlink, Link, RemoveAt;
    forall j | 0 <= j < |ys| ensures Link(pg', ys, j) && IsFree(pg', ys[j], k) {
      var x := if j < i then j else j + 1;
      assert Link(pg, xs, x) && IsFree(pg, xs[x], k);
      UnlinkEntry(pg, xs, k, i, x);
    }
  }

  lemma UnlinkList(pg: seq<Page>, head: Option<nat>, xs: seq<nat>, k: nat, i: nat, ys: seq<nat>)
    requires ListAt(pg, head, xs, k) && i < |xs| && ys == RemoveAt(xs, i)
    ensures forall j :: 0 <= j < |xs| ==> xs[j] < |pg|
    ensures ListAt(Unlink(pg, xs, i), if i == 0 then pg[xs[0]].next else head, ys, k)
  {
    UnlinkChain(pg, head, xs, k, i, ys);
    var pg' := Unlink(pg, xs, i);
    RemoveAtMembers(xs, i, 0);
    assert forall p: nat :: IsFree(pg', p, k) ==> p != xs[i] && IsFree(pg, p, k);
    hide Unlink, Chain, RemoveAt, IsFree, Distinct;
    forall p | IsFree(pg', p, k) ensures p in ys { RemoveAtMembers(xs, i, p); }
  }

  lemma UnlinkFrame(pg: seq<Page>, head: Option<nat>, xs: seq<nat>, k: nat, i: nat)
    requires ListAt(pg, head, xs, k) && i < |xs|
    ensures forall j :: 0 <= j < |xs| ==> xs[j] < |pg|
    ensures var pg' := Unlink(pg, xs, i);
            && |pg'| == |pg| && pg'[xs[i]] == pg[xs[i]].(free := false, next := None)
            && (forall p :: 0 <= p < |pg| && p != xs[i] ==> pg'[p].(next := None) == pg[p].(next := None))
            && (forall p :: 0 <= p < |pg| && !(pg[p].free && pg[p].order == k) ==> pg'[p] == pg[p])
  {
    assert forall j :: 0 <= j < |xs| ==> IsFree(pg, xs[j], k);
    hide ListAt, Link;
  }

  lemma UnlinkKeepsLists(pg: seq<Page>, heads: seq<Option<nat>>, lists: seq<seq<nat>>, k: nat, i: nat)
    requires ListInv(pg, heads, lists) && k < PAGE_MAX_DEPTH && i < |lists[k]|
    ensures forall j :: 0 <= j < |lists[k]| ==> lists[k][j] < |pg|
    ensures ListInv(Unlink(pg, lists[k], i), if i == 0 then heads[k := pg[lists[k][0]].next] else heads,
                    lists[k := RemoveAt(lists[k], i)])
  {
    hide ListAt, Unlink, RemoveAt;
    var xs := lists[k];
    UnlinkFrame(pg, heads[k], xs, k, i);
    UnlinkList(pg, heads[k], xs, k, i, RemoveAt(xs, i));
    var pg' := Unlink(pg, xs, i);
    forall j | 0 <= j < PAGE_MAX_DEPTH && j != k ensures ListAt(pg', heads[j], lists[j], j) {
      assert ListAt(pg, heads[j], lists[j], j);
      OtherList(pg, pg', heads[j], lists[j], j);
    }
  }

  lemma PushList(pg: seq<Page>, head: Option<nat>, xs: seq<nat>, k: nat, h: nat)
    requires ListAt(pg, head, xs, k) && h < |pg| && !pg[h].free
    ensures ListAt(pg[h := pg[h].(free := true, order := k, next := head)], Some(h), [h] + xs, k)
  {
    var pg', ys := pg[h := pg[h].(free := true, order := k, next := head)], [h] + xs;
    forall j | 0 <= j < |ys|
      ensures Link(pg', ys, j) && IsFree(pg', ys[j], k)
    {
      if j > 0 { assert Link(pg, xs, j - 1) && IsFree(pg, xs[j - 1], k); }
    }
    forall p | IsFree(pg', p, k) ensures p in ys {
      assert p != h ==> IsFree(pg, p, k);
    }
  }

  lemma PushKeepsLists(pg: seq<Page>, heads: seq<Option<nat>>, lists: seq<seq<nat>>, k: nat, h: nat)
    requires ListInv(pg, heads, lists) && k < PAGE_MAX_DEPTH && h < |pg| && !pg[h].free
    ensures ListInv(pg[h := pg[h].(free := true, order := k, next := heads[k])], heads[k := Some(h)],
                    lists[k := [h] + lists[k]])
  {
    hide ListAt;
    var pg' := pg[h := pg[h].(free := true, order := k, next := heads[k])];
    PushList(pg, heads[k], lists[k], k, h);
    forall j | 0 <= j < PAGE_MAX_DEPTH && j != k ensures ListAt(pg', heads[j], lists[j], j) {
      assert ListAt(pg, heads[j], lists[j], j);
      OtherList(pg, pg', heads[j], lists[j], j);
    }
  }

  /** Granted blocks keep their order and count, and no page but `except` changes between granted and not. */
  ghost predicate KeepsOthers(pg: seq<Page>, pg': seq<Page>, except: Option<nat>) {
    |pg'| == |pg| && forall p :: 0 <= p < |pg| && except != Some(p) ==>
      pg'[p].first == pg[p].first && (pg[p].first ==> pg'[p].order == pg[p].order && pg'[p].refcnt == pg[p].refcnt)
  }

  ghost predicate KeepsGranted(pg: seq<Page>, pg': seq<Page>) {
    KeepsOthers(pg, pg', None)
  }

  lemma KeepsGrantedTrans(pg: seq<Page>, pg': seq<Page>, pg'': seq<Page>)
    requires KeepsGranted(pg, pg') && KeepsGranted(pg', pg'')
    ensures KeepsGranted(pg, pg'')
  {
  }

  lemma BuddyInRange(n: nat, h: nat, k: nat)
    requires n % MAX_BLOCK == 0 && Aligned(h, k) && k < PAGE_MAX_ORDER && h < n
    ensures 0 <= BuddyIndex(h, k) < n
  {
    MaxOrderSize();
    var m: nat := h - h % MAX_BLOCK;
    assert Aligned(m, PAGE_MAX_ORDER) && m <= h < m + MAX_BLOCK <= n;
    hide Pow2, Aligned, BackHalf, BuddyIndex;
    JoinPair(h, k);
    BuddyInvolution(h, k);
    Pow2Succ(k);
    Nested(if BackHalf(h, k) then h - Pow2(k) else h, k + 1, m, PAGE_MAX_ORDER);
  }

  /** buddy_free with the last reference: the block leaves its owner. */
  lemma FreeOpens(pg: seq<Page>, heads: seq<Option<nat>>, lists: seq<seq<nat>>, blocks: map<nat, nat>, h: nat)
    requires h < |pg| && !pg[h].free && pg[h].refcnt <= 1 && ListInv(pg, heads, lists) && |pg| % MAX_BLOCK == 0
    requires BlockInv(pg, blocks, if pg[h].first then None else Some(h))
    requires !pg[h].first ==> blocks[h] == pg[h].order
    ensures var pg' := pg[h := pg[h].(first := false)];
            && ListInv(pg', heads, lists) && BlockInv(pg', blocks, Some(h)) && KeepsOthers(pg, pg', Some(h))
    ensures h in blocks && blocks[h] == pg[h].order <= PAGE_MAX_ORDER && Aligned(h, blocks[h])
    ensures pg[h].order < PAGE_MAX_ORDER ==> 0 <= BuddyIndex(h, pg[h].order) < |pg|
  {
    hide Tiling, Coalesced, ListAt, BuddyIndex, Aligned, Pow2, BackHalf;
    var pg' := pg[h := pg[h].(first := false)];
    if pg[h].first { ReturnStep(pg, pg', blocks, h); } else { assert pg' == pg; }
    TilingBlock(blocks, |pg|, h);
    if pg[h].order < PAGE_MAX_ORDER { BuddyInRange(|pg|, h, pg[h].order); }
    forall j | 0 <= j < PAGE_MAX_DEPTH ensures ListAt(pg', heads[j], lists[j], j) {
      assert ListAt(pg, heads[j], lists[j], j);
      OtherList(pg, pg', heads[j], lists[j], j);
    }
  }

  /** A page that is on no list may change anything but its free flag and link. */
  lemma UnlistedChange(pg: seq<Page>, heads: seq<Option<nat>>, lists: seq<seq<nat>>, h: nat, x: Page)
    requires ListInv(pg, heads, lists) && h < |pg| && !pg[h].free && !x.free && x.next == None
    ensures ListInv(pg[h := x], heads, lists)
  {
    hide ListAt;
    forall j | 0 <= j < PAGE_MAX_DEPTH ensures ListAt(pg[h := x], heads[j], lists[j], j) {
      assert ListAt(pg, heads[j], lists[j], j);
      OtherList(pg, pg[h := x], heads[j], lists[j], j);
    }
  }

  lemma PendingFacts(pg: seq<Page>, blocks: map<nat, nat>, h: nat)
    requires BlockInv(pg, blocks, Some(h)) && h < |pg|
    ensures h in blocks && !pg[h].free && !pg[h].first && pg[h].refcnt <= 1
  {
    hide Tiling, Coalesced;
  }

  lemma ListFacts(pg: seq<Page>, heads: seq<Option<nat>>, lists: seq<seq<nat>>, k: nat, h: nat)
    requires ListInv(pg, heads, lists) && k < PAGE_MAX_DEPTH && h < |pg|
    ensures |heads| == PAGE_MAX_DEPTH && |lists| == PAGE_MAX_DEPTH
    ensures lists[k] == [] ==> heads[k] == None
    ensures !pg[h].free ==> pg[h].next == None
  {
    assert ListAt(pg, heads[k], lists[k], k);
  }

  lemma FreePages(pg: seq<Page>, heads: seq<Option<nat>>, lists: seq<seq<nat>>, k: nat)
    requires ListInv(pg, heads, lists) && k < PAGE_MAX_DEPTH
    ensures forall p: nat :: p in lists[k] <==> IsFree(pg, p, k)
  {
    assert ListAt(pg, heads[k], lists[k], k);
  }

  /** A reference is taken or dropped while others remain. */
  lemma RefStep(pg: seq<Page>, heads: seq<Option<nat>>, lists: seq<seq<nat>>, blocks: map<nat, nat>, h: nat, c: nat)
    requires h < |pg| && pg[h].first && c >= 1 && ListInv(pg, heads, lists) && BlockInv(pg, blocks, None)
    ensures var pg' := pg[h := pg[h].(refcnt := c)];
            ListInv(pg', heads, lists) && BlockInv(pg', blocks, None) && UsedBlocks(pg') == UsedBlocks(pg)
  {
    hide Tiling, Coalesced, ListInv;
    ListFacts(pg, heads, lists, 0, h);
    var pg' := pg[h := pg[h].(refcnt := c)];
    assert FreeBlocks(pg') == FreeBlocks(pg);
    UnlistedChange(pg, heads, lists, h, pg'[h]);
  }

  lemma PopOpensBlock(pg: seq<Page>, pg': seq<Page>, blocks: map<nat, nat>, h: nat, k: nat)
    requires BlockInv(pg, blocks, None) && IsFree(pg, h, k) && pg' == pg[h := pg[h].(free := false, next := None)]
    ensures BlockInv(pg', blocks, Some(h)) && h in blocks && blocks[h] == k && KeepsGranted(pg, pg')
  {
    UnlistStep(pg, pg', blocks, h);
    hide Tiling, Coalesced;
  }

  /** The order field of a page that is in transit is free to change. */
  lemma SetPendingOrder(pg: seq<Page>, heads: seq<Option<nat>>, lists: seq<seq<nat>>, blocks: map<nat, nat>, h: nat, k: nat)
    requires BlockInv(pg, blocks, Some(h)) && h < |pg| && ListInv(pg, heads, lists)
    ensures var pg' := pg[h := pg[h].(order := k)];
            BlockInv(pg', blocks, Some(h)) && KeepsGranted(pg, pg') && ListInv(pg', heads, lists)
  {
    hide Tiling, Coalesced, ListAt;
    var pg' := pg[h := pg[h].(order := k)];
    assert FreeBlocks(pg') == FreeBlocks(pg);
    forall j | 0 <= j < PAGE_MAX_DEPTH ensures ListAt(pg', heads[j], lists[j], j) {
      assert ListAt(pg, heads[j], lists[j], j);
      OtherList(pg, pg', heads[j], lists[j], j);
    }
  }

  lemma SplitFrontStep(pg: seq<Page>, heads: seq<Option<nat>>, lists: seq<seq<nat>>, blocks: map<nat, nat>,
                       h: nat, i: nat, h': nat, pg': seq<Page>)
    requires BlockInv(pg, blocks, Some(h)) && h < |pg| && ListInv(pg, heads, lists)
    requires i < PAGE_MAX_ORDER && h in blocks && blocks[h] == i + 1 && lists[i] == []
    requires h' == h + Pow2(i) && pg' == pg[h := pg[h].(free := true, order := i)]
    ensures |heads| == PAGE_MAX_DEPTH && |lists| == PAGE_MAX_DEPTH
    ensures h' < |pg| && BlockInv(pg', blocks[h := i][h' := i], Some(h'))
    ensures ListInv(pg', heads[i := Some(h)], lists[i := [h]])
    ensures KeepsGranted(pg, pg')
  {
    hide BlockInv, Pow2, ListInv, UsedBlocks;
    ListFacts(pg, heads, lists, i, h);
    PendingFacts(pg, blocks, h);
    assert [h] + lists[i] == [h];
    SplitStep(pg, pg', blocks, h, i);
    PushKeepsLists(pg, heads, lists, i, h);
  }

  /** The merged block is ready for the recursive call of buddy_free. */
  lemma FreeMerges(pg: seq<Page>, mid: seq<Page>, heads: seq<Option<nat>>, lists: seq<seq<nat>>, blocks: map<nat, nat>,
                   h: nat, k: nat, b: nat, g: nat, other: nat, pg': seq<Page>)
    requires BlockInv(pg, blocks, Some(h)) && h < |pg| && h in blocks && blocks[h] == k && k < PAGE_MAX_ORDER
    requires Aligned(h, k)
    requires b == BuddyIndex(h, k) && b < |pg| && pg[b].free && pg[b].order == k
    requires g == (if BackHalf(b, k) then h else b) && other == (if BackHalf(b, k) then b else h)
    requires |mid| == |pg| && ListInv(mid, heads, lists) && mid[b] == pg[b].(free := false, next := None)
    requires forall p :: 0 <= p < |pg| && p != b ==> SameBlock(mid[p], pg[p])
    requires pg' == mid[other := mid[other].(order := 0)][g := mid[g].(order := k + 1)]
    ensures other == g + Pow2(k) && g != other && g < |pg|
    ensures BlockInv(pg', (blocks - {other})[g := k + 1], Some(g)) && ListInv(pg', heads, lists)
    ensures KeepsOthers(pg, pg', Some(h))
  {
    hide BlockInv, ListInv, Pow2, Aligned, BuddyIndex, BackHalf, UsedBlocks, FreeBlocks;
    PendingFacts(pg, blocks, h);
    JoinPair(h, k);
    BuddyInvolution(h, k);
    ListFacts(mid, heads, lists, 0, g);
    ListFacts(mid, heads, lists, 0, other);
    UnlistedChange(mid, heads, lists, other, mid[other].(order := 0));
    UnlistedChange(mid[other := mid[other].(order := 0)], heads, lists, g, mid[g].(order := k + 1));
    NotFirst(pg, blocks, h, b);
    MergeStep(pg, pg', blocks, h, k, b, g);
  }

  lemma NotFirst(pg: seq<Page>, blocks: map<nat, nat>, h: nat, b: nat)
    requires BlockInv(pg, blocks, Some(h)) && b < |pg| && pg[b].free
    ensures !pg[b].first
  {
    hide Tiling, Coalesced;
  }

  lemma KeepsOthersTrans(pg: seq<Page>, pg': seq<Page>, pg'': seq<Page>, h: nat, g: nat)
    requires KeepsOthers(pg, pg', Some(h)) && KeepsOthers(pg', pg'', Some(g))
    requires h < |pg| && g < |pg| && !pg'[h].first && !pg'[g].first && !pg''[g].first && (g != h ==> !pg[g].first)
    ensures KeepsOthers(pg, pg'', Some(h)) && !pg''[h].first
  {
  }

  /** Whether some order from k up has a free block. */
  ghost predicate HasRoom(pg: seq<Page>, k: nat) {
    exists h :: 0 <= h < |pg| && pg[h].free && pg[h].order >= k
  }

  lemma RoomInLists(pg: seq<Page>, heads: seq<Option<nat>>, lists: seq<seq<nat>>, k: nat)
    requires ListInv(pg, heads, lists)
    ensures HasRoom(pg, k) <==> exists j :: k <= j < PAGE_MAX_DEPTH && lists[j] != []
  {
    if HasRoom(pg, k) {
      var h :| 0 <= h < |pg| && pg[h].free && pg[h].order >= k;
      FreePages(pg, heads, lists, pg[h].order);
      assert IsFree(pg, h, pg[h].order);
    }
    if j :| k <= j < PAGE_MAX_DEPTH && lists[j] != [] {
      FreePages(pg, heads, lists, j);
      assert lists[j][0] in lists[j];
    }
  }

  /** The smallest order whose blocks hold `size` bytes; PAGE_MAX_DEPTH if none does. */
  ghost predicate FitOrder(size: nat, k: nat) {
    && k <= PAGE_MAX_DEPTH && (k < PAGE_MAX_DEPTH ==> Pow2(k) * PAGE_SIZE >= size)
    && forall j :: 0 <= j < k ==> Pow2(j) * PAGE_SIZE < size
  }

  lemma AllocGrants(pg: seq<Page>, heads: seq<Option<nat>>, lists: seq<seq<nat>>, blocks: map<nat, nat>, h: nat, pg': seq<Page>)
    requires BlockInv(pg, blocks, Some(h)) && h < |pg| && ListInv(pg, heads, lists) && h in blocks && blocks[h] == pg[h].order
    requires pg' == pg[h := pg[h].(first := true, refcnt := 1)]
    ensures BlockInv(pg', blocks, None) && ListInv(pg', heads, lists)
  {
    hide BlockInv, ListInv, UsedBlocks;
    PendingFacts(pg, blocks, h);
    ListFacts(pg, heads, lists, 0, h);
    UnlistedChange(pg, heads, lists, h, pg'[h]);
    GrantStep(pg, pg', blocks, h);
  }

  lemma CountedOnlyFirst(pg: seq<Page>, blocks: map<nat, nat>, h: nat)
    requires h < |pg| && pg[h].refcnt > 1 && BlockInv(pg, blocks, if pg[h].first then None else Some(h))
    ensures pg[h].first
  {
    hide Tiling, Coalesced;
  }

  lemma GrantKeeps(pg: seq<Page>, mid: seq<Page>, pg': seq<Page>, h: nat)
    requires KeepsGranted(pg, mid) && h < |mid| == |pg'| && pg' == mid[h := pg'[h]] && !mid[h].first
    ensures KeepsOthers(pg, pg', Some(h)) && !pg[h].first
  {
  }

  lemma KeepsOthersFrom(pg: seq<Page>, pg1: seq<Page>, pg': seq<Page>, h: nat)
    requires h < |pg| && pg1 == pg[h := pg[h].(first := false)]
    requires (|pg'| == |pg| && pg' == pg1[h := pg'[h]]) || KeepsOthers(pg1, pg', Some(h))
    ensures KeepsOthers(pg, pg', Some(h))
  {
  }

  lemma NotFreeIfFirst(pg: seq<Page>, blocks: map<nat, nat>, h: nat)
    requires BlockInv(pg, blocks, None) && h < |pg| && pg[h].first
    ensures !pg[h].free
  {
    hide Tiling, Coalesced;
  }

  lemma UsedRestored(pg: seq<Page>, mid: seq<Page>, pg': seq<Page>, h: nat)
    requires KeepsOthers(pg, mid, Some(h)) && KeepsOthers(mid, pg', Some(h))
    requires h < |pg| && !pg[h].first && !pg'[h].first
    ensures UsedBlocks(pg) == UsedBlocks(pg')
  {
  }

  lemma NearestHead(pg: seq<Page>, blocks: map<nat, nat>, i: nat, index: nat)
    requires BlockInv(pg, blocks, None) && i <= index < |pg| && pg[i].first
    requires forall p :: i < p <= index ==> !pg[p].first
    ensures forall h :: Covers(UsedBlocks(pg), h, index) ==> h == i
  {
    hide Pow2, Aligned, Coalesced, FreeBlocks;
    forall h | Covers(UsedBlocks(pg), h, index) ensures h == i {
      assert h in blocks && i in blocks;
    }
  }

  class Buddy {
    const pages: array<Page>
    const heads: array<Option<nat>>
    ghost var lists: seq<seq<nat>>
    ghost var blocks: map<nat, nat>

    ghost predicate Listed()
      reads this, pages, heads
    {
      pages.Length > 0 && pages.Length % MAX_BLOCK == 0 && heads.Length == PAGE_MAX_DEPTH && ListInv(pages[..], heads[..], lists)
    }

    /** What holds of the allocator between operations. */
    ghost predicate Valid()
      reads this, pages, heads
    {
      Listed() && BlockInv(pages[..], blocks, None)
    }

    /** Page p heads a block that is not free: granted, or in transit during coalescing. */
    ghost predicate Held(p: nat)
      reads this, pages, heads
    {
      && Listed() && p < pages.Length && !pages[p].free
      && BlockInv(pages[..], blocks, if pages[p].first then None else Some(p))
      && (!pages[p].first ==> blocks[p] == pages[p].order)
    }

    ghost function Unused(): map<nat, nat>
      reads pages
    {
      FreeBlocks(pages[..])
    }

    ghost function Used(): map<nat, nat>
      reads pages
    {
      UsedBlocks(pages[..])
    }

    /** buddy_init, for any number of maximum-order blocks (the boards have 14 and 62). */
    constructor (blockCount: nat)
      requires blockCount > 0
      ensures Valid() && fresh(pages) && fresh(heads) && pages.Length == blockCount * MAX_BLOCK
      ensures Used() == map[] && Unused() == MaxBlocks(pages.Length)
    {
      var n := blockCount * MAX_BLOCK;
      pages := new Page[n](_ => ZERO_PAGE);
      heads := new Option<nat>[PAGE_MAX_DEPTH](_ => None);
      blocks := MaxBlocks(n);
      lists := InitialLists(n);
      new;
      hide ListInv, BlockInv, InitialLists, InitialPages, MaxBlocks;
      InitBlocks(n);
      heads[PAGE_MAX_ORDER] := Some(0);
      InitialListInv(n, heads[..]);
      InitialBlocks(n);
    }

    /** The loop of buddy_init over the maximum-order blocks. */
    method InitBlocks(n: nat)
      requires n == pages.Length && n % MAX_BLOCK == 0 && forall p :: 0 <= p < n ==> pages[p] == ZERO_PAGE
      modifies pages
      ensures pages[..] == InitialPages(n)
    {
      hide InitialPage;
      var len := n / MAX_BLOCK;
      for i := 0 to len
        invariant forall p :: 0 <= p < n ==> pages[p] == if p < i * MAX_BLOCK then InitialPage(n, p) else ZERO_PAGE
      {
        var page := i * MAX_BLOCK;
        InitialBlock(n, i);
        if i < len - 1 {
          pages[page] := pages[page].(next := Some((i + 1) * MAX_BLOCK));
        }
        pages[page] := pages[page].(order := PAGE_MAX_ORDER);
        pages[page] := pages[page].(free := true);
      }
    }

    /** buddy_list_pop */
    method ListPop(k: nat) returns (r: Option<nat>)
      requires k < PAGE_MAX_DEPTH && Listed()
      modifies pages, heads, `lists
      ensures Listed()
      ensures old(lists[k]) == [] ==> r == None && pages[..] == old(pages[..]) && lists == old(lists)
      ensures old(lists[k]) != [] ==>
                && r == Some(old(lists[k][0])) && r.value < pages.Length && old(IsFree(pages[..], r.value, k))
                && pages[..] == old(pages[..])[r.value := old(pages[r.value]).(free := false, next := None)]
                && lists == old(lists)[k := old(lists[k])[1..]]
    {
      assert ListAt(pages[..], heads[..][k], lists[k], k);
      r := heads[k];
      if r.Some? {
        ListEntry(pages[..], heads[k], lists[k], k, 0);
        UnlinkKeepsLists(pages[..], heads[..], lists, k, 0);
        hide ListInv, ListAt;
        assert RemoveAt(lists[k], 0) == lists[k][1..];
        heads[k] := pages[r.value].next;
        pages[r.value] := pages[r.value].(free := false, next := None);
        lists := lists[k := lists[k][1..]];
      }
    }

    /** buddy_list_push */
    method ListPush(k: nat, p: nat)
      requires k < PAGE_MAX_DEPTH && Listed() && p < pages.Length && !pages[p].free && pages[p].order == k
      modifies pages, heads, `lists
      ensures Listed() && lists == old(lists)[k := [p] + old(lists[k])]
      ensures pages[..] == old(pages[..])[p := old(pages[p]).(free := true, next := old(heads[k]))]
    {
      assert |lists| == PAGE_MAX_DEPTH;
      hide ListAt, ListInv;
      PushKeepsLists(pages[..], heads[..], lists, k, p);
      if heads[k].Some? {
        pages[p] := pages[p].(next := heads[k]);
      } else {
        pages[p] := pages[p].(next := None);
      }
      heads[k] := Some(p);
      pages[p] := pages[p].(free := true);
      lists := lists[k := [p] + lists[k]];
      assert heads[..] == old(heads[..])[k := Some(p)];
      assert pages[..] == old(pages[..])[p := old(pages[p]).(free := true, order := k, next := old(heads[k]))];
    }

    /** buddy_list_remove: unlink the page with the given index, if the list has it. */
    method ListRemove(k: nat, index: nat) returns (r: Option<nat>)
      requires k < PAGE_MAX_DEPTH && Listed()
      modifies pages, heads, `lists
      ensures Listed()
      ensures r == (if index in old(lists[k]) then Some(index) else None)
      ensures r == None ==> pages[..] == old(pages[..]) && lists == old(lists)
      ensures r.Some? ==> lists == old(lists)[k := Without(old(lists[k]), index)]
      ensures r.Some? ==> index < pages.Length && pages[index] == old(pages[index]).(free := false, next := None)
      ensures r.Some? ==> forall p :: 0 <= p < pages.Length && p != index ==>
                pages[p].(next := None) == old(pages[p]).(next := None)
    {
      hide Without;
      ghost var xs := lists[k];
      assert ListAt(pages[..], heads[..][k], xs, k);
      var prev, page := None, heads[k];
      ghost var i := 0;
      while page.Some?
        invariant pages[..] == old(pages[..]) && heads[..] == old(heads[..]) && lists == old(lists) && xs == lists[k]
        invariant 0 <= i <= |xs| && page == At(xs, i) && index !in xs[..i]
        invariant prev == (if i == 0 then None else Some(xs[i - 1]))
        decreases |xs| - i
      {
        assert ListAt(pages[..], heads[..][k], xs, k);
        ListEntry(pages[..], heads[k], xs, k, i);
        if page.value == index {
          UnlinkFrame(pages[..], heads[k], xs, k, i);
          UnlinkKeepsLists(pages[..], heads[..], lists, k, i);
          hide ListInv, ListAt;
          if prev == None {
            heads[k] := pages[index].next;
          } else {
            pages[prev.value] := pages[prev.value].(next := pages[index].next);
          }
          pages[index] := pages[index].(free := false, next := None);
          WithoutAt(xs, i);
          lists := lists[k := RemoveAt(xs, i)];
          assert pages[..] == Unlink(old(pages[..]), xs, i);
          return page;
        }
        assert xs[..i + 1] == xs[..i] + [xs[i]];
        prev := page;
        page := pages[page.value].next;
        i := i + 1;
      }
      assert xs[..i] == xs;
      r := None;
    }

    /** A block being split: not listed, not granted, of the given order. */
    ghost predicate Splitting(page: nat, order: nat)
      reads this, pages, heads
    {
      page < pages.Length && Listed() && BlockInv(pages[..], blocks, Some(page)) && page in blocks && blocks[page] == order
    }

    /**
     The splitting step of buddy_pull_block. The list head is overwritten, not
     linked to: that loses nothing because the list of order i is empty and
     the page's `next` is null.
     */
    method SplitFront(page: nat, i: nat) returns (back: nat)
      requires i < PAGE_MAX_ORDER && Splitting(page, i + 1) && lists[i] == []
      modifies pages, heads, `lists, `blocks
      ensures Splitting(back, i) && lists == old(lists)[i := [page]]
      ensures back == page + Pow2(i)
      ensures KeepsGranted(old(pages[..]), pages[..])
    {
      hide BlockInv, ListInv, Pow2, KeepsGranted;
      ghost var before := pages[..];
      SplitFrontStep(before, heads[..], lists, blocks, page, i, page + Pow2(i),
                     before[page := before[page].(free := true, order := i)]);
      pages[page] := pages[page].(order := i);
      heads[i] := Some(page);
      pages[page] := pages[page].(free := true);
      back := page + Pow2(i);
      blocks := blocks[page := i][back := i];
      lists := lists[i := [page]];
      assert pages[..] == before[page := before[page].(free := true, order := i)];
    }

    /** The search of buddy_pull_block for a block of an order above `from`. */
    method PopLarger(from: nat) returns (found: Option<nat>, i: nat)
      requires from < PAGE_MAX_DEPTH && Valid() && |lists| == PAGE_MAX_DEPTH && lists[from] == []
      modifies pages, heads, `lists
      ensures found.None? <==> forall k :: from < k < PAGE_MAX_DEPTH ==> old(lists[k]) == []
      ensures found.None? <==> i == PAGE_MAX_DEPTH
      ensures found.None? ==> Valid() && pages[..] == old(pages[..])
      ensures found.Some? ==> from < i < PAGE_MAX_DEPTH && Splitting(found.value, i)
      ensures found.Some? ==> |lists| == PAGE_MAX_DEPTH && forall k :: from <= k < i ==> lists[k] == []
      ensures found.Some? ==> Taken(old(lists), lists, i, i, found.value) && forall k :: from <= k < i ==> old(lists[k]) == []
      ensures KeepsGranted(old(pages[..]), pages[..])
    {
      hide ListInv, BlockInv;
      i := from + 1;
      found := None;
      while i < PAGE_MAX_DEPTH
        invariant from < i <= PAGE_MAX_DEPTH && found == None && Valid()
        invariant pages[..] == old(pages[..]) && lists == old(lists)
        invariant forall k :: from <= k < i ==> lists[k] == []
        decreases PAGE_MAX_DEPTH - i
      {
        found := ListPop(i);
        if found.Some? {
          PopOpensBlock(old(pages[..]), pages[..], blocks, found.value, i);
          return;
        }
        i := i + 1;
      }
    }

    /**
     buddy_pull_block: take a block from a larger order and split it down to
     `from`, listing every front half. None stands for the out-of-memory panic.
     */
    method PullBlock(from: nat) returns (r: Option<nat>)
      requires from < PAGE_MAX_DEPTH && Valid() && |lists| == PAGE_MAX_DEPTH && lists[from] == []
      modifies pages, heads, `lists, `blocks
      ensures r.None? <==> forall k :: from < k < PAGE_MAX_DEPTH ==> old(lists[k]) == []
      ensures r.None? ==> Valid() && pages[..] == old(pages[..])
      ensures r.Some? ==> Splitting(r.value, from) && pages[r.value].order == from
      ensures r.Some? ==> exists j :: Taken(old(lists), lists, from, j, r.value)
      ensures KeepsGranted(old(pages[..]), pages[..])
    {
      hide ListInv, BlockInv, Pow2, KeepsGranted;
      var found, i := PopLarger(from);
      if i == PAGE_MAX_DEPTH {
        return None;
      }
      var page, j := found.value, i - 1;
      while j >= from
        invariant from - 1 <= j < PAGE_MAX_ORDER && Splitting(page, j + 1)
        invariant |lists| == PAGE_MAX_DEPTH && forall k :: from <= k <= j ==> lists[k] == []
        invariant Taken(old(lists), lists, j + 1, i, page)
        invariant KeepsGranted(old(pages[..]), pages[..])
      {
        ghost var before := pages[..];
        TakenSplit(old(lists), lists, j + 1, i, page);
        page := SplitFront(page, j);
        KeepsGrantedTrans(old(pages[..]), before, pages[..]);
        j := j - 1;
      }
      ghost var split := pages[..];
      SetPendingOrder(split, heads[..], lists, blocks, page, from);
      pages[page] := pages[page].(order := from);
      assert pages[..] == split[page := split[page].(order := from)];
      KeepsGrantedTrans(old(pages[..]), split, pages[..]);
      r := Some(page);
    }

    /**
     buddy_alloc. `order` is the order the request is rounded to; None stands
     for the two panics (request too large, out of memory).
     */
    method Alloc(size: nat) returns (r: Option<nat>, ghost order: nat)
      requires Valid()
      modifies pages, heads, `lists, `blocks
      ensures Valid() && FitOrder(size, order)
      ensures r.None? <==> order == PAGE_MAX_DEPTH || !old(HasRoom(pages[..], order))
      ensures r.None? ==> pages[..] == old(pages[..])
      ensures r.Some? ==> exists j :: Taken(old(lists), lists, order, j, r.value)
      ensures r.Some? ==>
                && r.value < pages.Length && !old(pages[r.value].first)
                && pages[r.value].first && pages[r.value].order == order && pages[r.value].refcnt == 1
                && KeepsOthers(old(pages[..]), pages[..], r) && Consumes(old(pages[..]), pages[..], r.value, order)
    {
      hide ListInv, BlockInv, KeepsGranted, HasRoom, Consumes;
      ghost var blocks0 := blocks;
      var i := 0;
      r := None;
      while i < PAGE_MAX_DEPTH
        invariant 0 <= i <= PAGE_MAX_DEPTH && Valid() && r == None && pages[..] == old(pages[..])
        invariant lists == old(lists) && heads[..] == old(heads[..])
        invariant forall j :: 0 <= j < i ==> Pow2(j) * PAGE_SIZE < size
        decreases PAGE_MAX_DEPTH - i
      {
        if Pow2(i) * PAGE_SIZE >= size {
          RoomInLists(pages[..], heads[..], lists, i);
          ListFacts(pages[..], heads[..], lists, i, 0);
          r := ListPop(i);
          if r.None? {
            r := PullBlock(i);
          } else {
            PopOpensBlock(old(pages[..]), pages[..], blocks, r.value, i);
            assert Taken(old(lists), lists, i, i, r.value);
          }
          break;
        }
        i := i + 1;
      }
      order := i;
      if i == PAGE_MAX_DEPTH || r.None? {
        return;
      }
      var page := r.value;
      ghost var before := pages[..];
      PendingFacts(before, blocks, page);
      AllocGrants(before, heads[..], lists, blocks, page, before[page := before[page].(first := true, refcnt := 1)]);
      pages[page] := pages[page].(first := true);
      pages[page] := pages[page].(refcnt := 1);
      assert pages[..] == before[page := before[page].(first := true, refcnt := 1)];
      GrantKeeps(old(pages[..]), before, pages[..], page);
      GrantedPages(old(pages[..]), blocks0, pages[..], blocks, page);
    }

    /**
     The coalescing step of buddy_free: the free buddy leaves its list (the
     "broken page" panic is the None result, which does not occur) and the pair
     becomes one block headed by its front half.
     */
    method MergeWithBuddy(p: nat, k: nat, bi: nat) returns (page: nat)
      requires Splitting(p, k) && k < PAGE_MAX_ORDER && Aligned(p, k) && pages[p].order == k
      requires bi == BuddyIndex(p, k) && bi < pages.Length && pages[bi].free && pages[bi].order == k
      modifies pages, heads, `lists, `blocks
      ensures Splitting(page, k + 1) && pages[page].order == k + 1 && page == (if bi < p then bi else p)
      ensures |old(lists)| == PAGE_MAX_DEPTH && bi in old(lists[k]) && lists == old(lists)[k := Without(old(lists[k]), bi)]
      ensures !old(pages[bi].first)
      ensures KeepsOthers(old(pages[..]), pages[..], Some(p)) && !pages[p].first && !pages[page].first
    {
      hide ListInv, BlockInv, KeepsOthers, BuddyIndex, BackHalf, Pow2, Aligned;
      ghost var pg1 := pages[..];
      PendingFacts(pg1, blocks, p);
      ListFacts(pg1, heads[..], lists, k, 0);
      FreePages(pg1, heads[..], lists, k);
      assert IsFree(pg1, bi, k);
      var q := ListRemove(k, bi);
      assert q.Some?;
      ghost var mid := pages[..];
      var other;
      if BackHalf(bi, k) {
        page, other := p, bi;
      } else {
        page, other := bi, p;
      }
      ghost var pg3 := mid[other := mid[other].(order := 0)][page := mid[page].(order := k + 1)];
      NotFirst(pg1, blocks, p, bi);
      FreeMerges(pg1, mid, heads[..], lists, blocks, p, k, bi, page, other, pg3);
      pages[other] := pages[other].(order := 0);
      pages[page] := pages[page].(order := pages[page].order + 1);
      blocks := (blocks - {other})[page := k + 1];
      assert pages[..] == pg3;
      PendingFacts(pg3, blocks, page);
    }

    /**
     buddy_free. Precondition Held covers both the caller's granted block and
     the merged block of the recursive call.
     */
    method Free(p: nat)
      requires Held(p)
      modifies pages, heads, `lists, `blocks
      ensures Valid()
      ensures old(pages[p].refcnt) > 1 ==>
                pages[..] == old(pages[..])[p := old(pages[p]).(refcnt := old(pages[p].refcnt) - 1)]
      ensures old(pages[p].refcnt) <= 1 ==> !pages[p].first && KeepsOthers(old(pages[..]), pages[..], Some(p))
      ensures old(pages[p].refcnt) <= 1 ==> |old(lists)| == PAGE_MAX_DEPTH && lists == Freed(old(lists), p, old(pages[p].order))
      ensures old(pages[p].refcnt) <= 1 && old(pages[p].first) ==> Consumes(pages[..], old(pages[..]), p, old(pages[p].order))
      decreases PAGE_MAX_ORDER - pages[p].order
    {
      hide ListInv, BlockInv, KeepsOthers, Consumes, Without;
      ghost var pg0, blocks0 := pages[..], blocks;
      if pages[p].refcnt > 1 {
        CountedOnlyFirst(pg0, blocks, p);
        RefStep(pg0, heads[..], lists, blocks, p, pages[p].refcnt - 1);
        pages[p] := pages[p].(refcnt := pages[p].refcnt - 1);
        assert pages[..] == pg0[p := pg0[p].(refcnt := pg0[p].refcnt - 1)];
        return;
      }
      FreeOpens(pg0, heads[..], lists, blocks, p);
      var k := pages[p].order;
      var bi := BuddyIndex(p, k);
      pages[p] := pages[p].(first := false);
      ghost var pg1 := pages[..];
      assert pg1 == pg0[p := pg0[p].(first := false)];
      ListFacts(pg1, heads[..], lists, k, p);
      FreePages(pg1, heads[..], lists, k);
      if k == PAGE_MAX_ORDER || !(pages[bi].free && pages[bi].order == k) {
        ListPush(k, p);
        ListStep(pg1, pages[..], blocks, p);
        KeepsOthersFrom(pg0, pg1, pages[..], p);
      } else {
        pages[p] := pages[p].(free := false, next := None);
        assert pages[..] == pg1 by { ListFacts(pg1, heads[..], lists, 0, p); }
        var page := MergeWithBuddy(p, k, bi);
        ghost var pg3 := pages[..];
        PendingFacts(pg3, blocks, page);
        Free(page);
        KeepsOthersFrom(pg0, pg1, pg3, p);
        KeepsOthersTrans(pg0, pg3, pages[..], p, page);
      }
      if pg0[p].first { ReturnedPages(pg0, blocks0, pages[..], blocks, p); }
    }

    /** page_refcnt_inc on a granted block. */
    method RefInc(p: nat)
      requires Valid() && p < pages.Length && pages[p].first
      modifies pages
      ensures Valid()
      ensures pages[..] == old(pages[..])[p := old(pages[p]).(refcnt := old(pages[p].refcnt) + 1)]
    {
      hide ListInv, BlockInv;
      RefStep(pages[..], heads[..], lists, blocks, p, pages[p].refcnt + 1);
      ghost var before := pages[..];
      pages[p] := pages[p].(refcnt := pages[p].refcnt + 1);
      assert pages[..] == before[p := before[p].(refcnt := before[p].refcnt + 1)];
    }

    /** page_find_head: walk down to the nearest page flagged as the first of a granted block. */
    method FindHead(index: nat) returns (r: Option<nat>)
      requires Valid() && index < pages.Length
      ensures r.Some? ==> r.value <= index && pages[r.value].first
      ensures r.None? ==> forall p :: 0 <= p <= index ==> !pages[p].first
      ensures forall h: nat :: Covers(Used(), h, index) ==> r == Some(h)
    {
      hide ListInv, BlockInv, Pow2;
      var i: int := index;
      while i >= 0
        invariant -1 <= i <= index && forall p :: i < p <= index ==> !pages[p].first
      {
        if pages[i].first {
          NearestHead(pages[..], blocks, i, index);
          return Some(i);
        }
        i := i - 1;
      }
      r := None;
    }

    /** Allocating and freeing again leaves the same granted and the same free blocks. */
    method AllocThenFree(size: nat) returns (r: Option<nat>)
      requires Valid()
      modifies pages, heads, `lists, `blocks
      ensures Valid() && Used() == old(Used()) && Unused() == old(Unused())
    {
      hide ListInv, BlockInv, KeepsOthers, UsedBlocks, FreeBlocks, HasRoom, FitOrder;
      ghost var pg0, blocks0 := pages[..], blocks;
      ghost var order;
      r, order := Alloc(size);
      if r.Some? {
        ghost var pg1 := pages[..];
        NotFreeIfFirst(pg1, blocks, r.value);
        Free(r.value);
        UsedRestored(pg0, pg1, pages[..], r.value);
        FreeDeterminedByUsed(pg0, blocks0, pages[..], blocks);
      }
    }
  }
}
