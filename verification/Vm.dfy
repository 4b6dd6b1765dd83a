/**
 Address spaces over physical frames: walk, mappages, uvmunmap, uvmcopy and the
 reference counts the buddy allocator keeps for shared user frames.
 */
module Vm {
  import opened Wrappers
  import opened PageTable
  import opened MmapRegions
  import BuddyAllocator
  import BuddyBlocks

  const PGSIZE: nat := 4096

  // ----- sharing -----

  /** The leaf entries below USERTOP, over all address spaces, that name frame f. */
  ghost function Sharers(leaves: Leaves, f: nat): set<(nat, nat)> {
    set k | k in leaves && k.1 < USER_PAGES && leaves[k].frame == f
  }

  /**
   Every user leaf names a user frame, a frame's count is the number of leaves
   that name it, plus one while it is held by an operation, and no address
   space maps a frame twice.
   */
  ghost predicate RefInv(leaves: Leaves, refs: map<nat, nat>, data: map<nat, seq<Byte>>, held: Option<nat>) {
    && (forall k :: k in leaves && k.1 < USER_PAGES ==> leaves[k].frame in data)
    && (forall f :: f in data ==>
          f in refs && refs[f] >= 1 && refs[f] == |Sharers(leaves, f)| + (if held == Some(f) then 1 else 0))
    && Unaliased(leaves)
  }

  ghost predicate Unaliased(leaves: Leaves) {
    forall j, k :: j in leaves && k in leaves && j.0 == k.0 && j.1 < k.1 < USER_PAGES ==> leaves[j].frame != leaves[k].frame
  }

  lemma AddSharer(leaves: Leaves, k: (nat, nat), e: Pte, f: nat)
    requires k !in leaves
    ensures |Sharers(leaves[k := e], f)| == |Sharers(leaves, f)| + (if e.frame == f && k.1 < USER_PAGES then 1 else 0)
  {
    var s := Sharers(leaves, f);
    assert Sharers(leaves[k := e], f) == if e.frame == f && k.1 < USER_PAGES then s + {k} else s;
  }

  lemma DropSharer(leaves: Leaves, k: (nat, nat), f: nat)
    requires k in leaves
    ensures |Sharers(leaves - {k}, f)| == |Sharers(leaves, f)| - (if leaves[k].frame == f && k.1 < USER_PAGES then 1 else 0)
  {
    var s := Sharers(leaves, f);
    assert Sharers(leaves - {k}, f) == s - {k};
  }

  /** The held reference becomes the reference of a new leaf. */
  lemma MapHeld(leaves: Leaves, refs: map<nat, nat>, data: map<nat, seq<Byte>>, f: nat, k: (nat, nat), e: Pte)
    requires RefInv(leaves, refs, data, Some(f)) && f in data && k !in leaves && k.1 < USER_PAGES && e.frame == f
    requires forall j :: j in leaves && j.0 == k.0 && j.1 < USER_PAGES ==> leaves[j].frame != f
    ensures RefInv(leaves[k := e], refs, data, None)
  {
    hide Sharers;
    forall g | g in data ensures refs[g] == |Sharers(leaves[k := e], g)| {
      AddSharer(leaves, k, e, g);
    }
  }

  /** page_refcnt_inc on a mapped frame. */
  lemma HoldShared(leaves: Leaves, refs: map<nat, nat>, data: map<nat, seq<Byte>>, f: nat)
    requires RefInv(leaves, refs, data, None) && f in data
    ensures f in refs && RefInv(leaves, refs[f := refs[f] + 1], data, Some(f))
  {
    hide Sharers, Unaliased;
  }

  /** kalloc of a frame that becomes user memory. */
  lemma HoldFresh(leaves: Leaves, refs: map<nat, nat>, data: map<nat, seq<Byte>>, f: nat, bytes: seq<Byte>)
    requires RefInv(leaves, refs, data, None) && f !in refs
    ensures RefInv(leaves, refs[f := 1], data[f := bytes], Some(f))
    ensures forall k :: k in leaves && k.1 < USER_PAGES ==> leaves[k].frame != f
  {
    hide Unaliased;
    assert f !in data;
    assert Sharers(leaves, f) == {};
  }

  lemma LastSharer(leaves: Leaves, k: (nat, nat), f: nat)
    requires k in leaves && k.1 < USER_PAGES && leaves[k].frame == f
    ensures |Sharers(leaves, f)| >= 1
    ensures |Sharers(leaves, f)| > 1 <==> exists j :: j != k && j in Sharers(leaves, f)
    ensures |Sharers(leaves, f)| == 1 ==> forall j :: j in leaves && j.1 < USER_PAGES && j != k ==> leaves[j].frame != f
  {
    var s := Sharers(leaves, f);
    assert k in s;
    var rest := s - {k};
    assert |rest| == |s| - 1;
    assert forall j :: j in leaves && j.1 < USER_PAGES && j != k && leaves[j].frame == f ==> j in rest;
    if |s| > 1 {
      var j :| j in rest;
    } else {
      assert rest == {};
    }
    assert forall j :: j in s && j != k ==> j in rest;
  }

  lemma UnaliasedDrop(leaves: Leaves, k: (nat, nat))
    requires Unaliased(leaves)
    ensures Unaliased(leaves - {k})
  {
  }

  /** kfree of the frame of a user leaf followed by clearing that leaf. */
  lemma UnmapFreed(leaves: Leaves, refs: map<nat, nat>, data: map<nat, seq<Byte>>, k: (nat, nat), f: nat,
                   refs': map<nat, nat>, data': map<nat, seq<Byte>>)
    requires RefInv(leaves, refs, data, None) && k in leaves && k.1 < USER_PAGES && leaves[k].frame == f
    requires f in data && f in refs
    requires if refs[f] > 1 then refs' == refs[f := refs[f] - 1] && data' == data
             else refs' == refs - {f} && data' == data - {f}
    ensures RefInv(leaves - {k}, refs', data', None)
  {
    hide Sharers, Unaliased;
    LastSharer(leaves, k, f);
    UnaliasedDrop(leaves, k);
    forall g | g in data' ensures refs'[g] == |Sharers(leaves - {k}, g)| {
      DropSharer(leaves, k, g);
    }
  }

  lemma UnmapKernel(leaves: Leaves, refs: map<nat, nat>, data: map<nat, seq<Byte>>, k: (nat, nat))
    requires RefInv(leaves, refs, data, None) && k in leaves && k.1 >= USER_PAGES
    ensures RefInv(leaves - {k}, refs, data, None)
  {
    hide Sharers;
    forall f | f in data ensures refs[f] == |Sharers(leaves - {k}, f)| { DropSharer(leaves, k, f); }
  }

  /** Between operations a frame is granted to user memory exactly while some leaf names it. */
  lemma GrantedWhileNamed(leaves: Leaves, refs: map<nat, nat>, data: map<nat, seq<Byte>>, f: nat)
    requires RefInv(leaves, refs, data, None)
    ensures f in data <==> exists k :: k in Sharers(leaves, f)
  {
    if f in data {
      assert Sharers(leaves, f) != {};
      var k :| k in Sharers(leaves, f);
    }
  }

  // ----- frames -----

  /** The frame number of the first page of the buddy allocator. */
  const FRAME0: nat := 0x80600

  /** Frame f is a granted one-page block. */
  ghost predicate Granted(pg: seq<BuddyAllocator.Page>, f: nat) {
    FRAME0 <= f < FRAME0 + |pg| && pg[f - FRAME0].first && pg[f - FRAME0].order == 0
  }

  /** `refs` are frames the buddy allocator has granted, with the counts it keeps for them. */
  ghost predicate Backed(refs: map<nat, nat>, pg: seq<BuddyAllocator.Page>) {
    forall f :: f in refs ==> Granted(pg, f) && pg[f - FRAME0].refcnt == refs[f]
  }

  /** Frame f heads no granted block. */
  ghost predicate Given(pg: seq<BuddyAllocator.Page>, f: nat) {
    FRAME0 <= f < FRAME0 + |pg| && !pg[f - FRAME0].first
  }

  /** The frames no longer counted are back with the buddy allocator. */
  ghost predicate Returned(refs0: map<nat, nat>, refs: map<nat, nat>, pg: seq<BuddyAllocator.Page>) {
    forall f :: f in refs0 && f !in refs ==> Given(pg, f)
  }

  lemma BackedGrant(refs: map<nat, nat>, pg: seq<BuddyAllocator.Page>, h: nat, pg': seq<BuddyAllocator.Page>)
    requires Backed(refs, pg) && h < |pg| && !pg[h].first && BuddyAllocator.KeepsOthers(pg, pg', Some(h))
    requires |pg'| == |pg| && pg'[h].first && pg'[h].order == 0 && pg'[h].refcnt == 1
    ensures FRAME0 + h !in refs && Backed(refs[FRAME0 + h := 1], pg')
  {
  }

  lemma BackedCount(refs: map<nat, nat>, pg: seq<BuddyAllocator.Page>, f: nat, c: nat, pg': seq<BuddyAllocator.Page>)
    requires Backed(refs, pg) && f in refs && FRAME0 <= f < FRAME0 + |pg| && pg' == pg[f - FRAME0 := pg[f - FRAME0].(refcnt := c)]
    ensures Backed(refs[f := c], pg')
    ensures forall refs0 :: Returned(refs0, refs, pg) ==> Returned(refs0, refs[f := c], pg')
  {
  }

  lemma BackedFree(refs: map<nat, nat>, pg: seq<BuddyAllocator.Page>, f: nat, pg': seq<BuddyAllocator.Page>)
    requires Backed(refs, pg) && f in refs && FRAME0 <= f < FRAME0 + |pg| == FRAME0 + |pg'| && !pg'[f - FRAME0].first
    requires BuddyAllocator.KeepsOthers(pg, pg', Some(f - FRAME0))
    ensures Backed(refs - {f}, pg')
    ensures forall refs0 :: Returned(refs0, refs, pg) ==> Returned(refs0, refs - {f}, pg')
  {
  }

  lemma ReturnedNone(refs: map<nat, nat>, pg: seq<BuddyAllocator.Page>)
    ensures Returned(refs, refs, pg)
  {
  }

  /** Table frames and user frames are distinct granted frames; a table frame has one reference. */
  ghost predicate FrameInv(tables: Tables, data: map<nat, seq<Byte>>, refs: map<nat, nat>) {
    && tables.Keys !! data.Keys
    && (forall t :: t in tables ==> t in refs && refs[t] == 1 && t > 0)
    && (forall f :: f in data ==> f in refs && |data[f]| == PGSIZE && f > 0)
  }

  ghost predicate LeafFlags(leaves: Leaves) {
    forall k :: k in leaves ==> leaves[k].flags.v && leaves[k].flags.a && leaves[k].flags.d
  }

  /** Tables and positions of the spaces other than `root` are untouched. */
  ghost predicate KeepsSpaces(tables: Tables, place: map<nat, Place>, tables': Tables, place': map<nat, Place>, root: nat) {
    && (forall t :: t in place && t in tables && place[t].root != root ==>
          t in place' && t in tables' && place'[t] == place[t] && tables'[t] == tables[t])
    && (forall t :: t in place' && place'[t].root != root ==> t in place && place[t].root != root)
  }

  ghost predicate KeepsRoots(place: map<nat, Place>, place': map<nat, Place>) {
    forall r :: IsRoot(place, r) ==> IsRoot(place', r)
  }

  /** leaves' adds exactly the pages page .. page + n of `root`, mapped to consecutive frames. */
  ghost predicate AddsRange(leaves: Leaves, leaves': Leaves, root: nat, page: nat, n: nat, frame: nat, flags: Flags) {
    && (forall k :: k in leaves' <==> k in leaves || (k.0 == root && page <= k.1 < page + n))
    && (forall k :: k in leaves ==> leaves'[k] == leaves[k])
    && (forall k :: k in leaves' && k !in leaves ==> leaves'[k] == Pte(frame + (k.1 - page), flags))
  }

  /** leaves' removes exactly the pages page .. page + n of `root`. */
  ghost predicate RemovesRange(leaves: Leaves, leaves': Leaves, root: nat, page: nat, n: nat) {
    && (forall k :: k in leaves' <==> k in leaves && !(k.0 == root && page <= k.1 < page + n))
    && (forall k :: k in leaves' ==> leaves'[k] == leaves[k])
  }

  lemma AddsNothing(leaves: Leaves, root: nat, page: nat, frame: nat, flags: Flags)
    ensures AddsRange(leaves, leaves, root, page, 0, frame, flags)
  {
  }

  lemma AddsFrame(leaves: Leaves, leaves': Leaves, root: nat, page: nat, n: nat, frame: nat, flags: Flags, p: nat)
    requires AddsRange(leaves, leaves', root, page, n, frame, flags) && p >= page + n && (root, p) !in leaves
    ensures (root, p) !in leaves'
  {
  }

  lemma AddsStep(leaves: Leaves, leaves': Leaves, root: nat, page: nat, n: nat, frame: nat, flags: Flags)
    requires AddsRange(leaves, leaves', root, page, n, frame, flags) && (root, page + n) !in leaves && flags.v
    ensures AddsRange(leaves, SetKey(leaves', (root, page + n), Pte(frame + n, flags)), root, page, n + 1, frame, flags)
  {
  }

  // ----- sizes of maps -----

  lemma OneMore<T>(m: map<nat, T>, f: nat, x: T)
    requires f !in m
    ensures |m[f := x].Keys| == |m.Keys| + 1
  {
    assert m[f := x].Keys == m.Keys + {f};
  }

  lemma OneGone<T>(m: map<nat, T>, f: nat)
    ensures |(m - {f}).Keys| == if f in m then |m.Keys| - 1 else |m.Keys|
  {
    assert (m - {f}).Keys == m.Keys - {f};
  }

  lemma KeysStay<T>(m: map<nat, T>, f: nat, x: T)
    requires f in m
    ensures m[f := x].Keys == m.Keys
  {
  }

  lemma KeepsRefl(tables: Tables, place: map<nat, Place>, root: nat)
    ensures KeepsSpaces(tables, place, tables, place, root) && KeepsRoots(place, place)
  {
  }

  lemma KeepsTrans(t0: Tables, p0: map<nat, Place>, t1: Tables, p1: map<nat, Place>, t2: Tables, p2: map<nat, Place>, root: nat)
    requires KeepsSpaces(t0, p0, t1, p1, root) && KeepsSpaces(t1, p1, t2, p2, root)
    ensures KeepsSpaces(t0, p0, t2, p2, root)
    ensures KeepsRoots(p0, p1) && KeepsRoots(p1, p2) ==> KeepsRoots(p0, p2)
  {
  }

  lemma RootKept(place: map<nat, Place>, place': map<nat, Place>, r: nat)
    requires KeepsRoots(place, place') && IsRoot(place, r)
    ensures IsRoot(place', r)
  {
  }

  lemma RemovesNothing(leaves: Leaves, root: nat, page: nat)
    ensures RemovesRange(leaves, leaves, root, page, 0)
  {
  }

  lemma RemovesStep(leaves: Leaves, leaves': Leaves, root: nat, page: nat, n: nat)
    requires RemovesRange(leaves, leaves', root, page, n)
    ensures RemovesRange(leaves, leaves' - {(root, page + n)}, root, page, n + 1)
  {
  }

  /** No frame of data' is new, and what remains has its contents. */
  ghost predicate KeepsContents(data: map<nat, seq<Byte>>, data': map<nat, seq<Byte>>) {
    forall f :: f in data' ==> f in data && data'[f] == data[f]
  }

  lemma UserFrame(tables: Tables, leaves: Leaves, refs: map<nat, nat>, data: map<nat, seq<Byte>>, k: (nat, nat))
    requires RefInv(leaves, refs, data, None) && FrameInv(tables, data, refs) && k in leaves && k.1 < USER_PAGES
    ensures leaves[k].frame in data && leaves[k].frame in refs && leaves[k].frame !in tables
  {
    hide Sharers;
  }

  lemma FreeFrame(tables: Tables, data: map<nat, seq<Byte>>, refs: map<nat, nat>, f: nat, data': map<nat, seq<Byte>>, refs': map<nat, nat>)
    requires FrameInv(tables, data, refs) && f in data && f in refs
    requires if refs[f] > 1 then refs' == refs[f := refs[f] - 1] && data' == data else refs' == refs - {f} && data' == data - {f}
    ensures FrameInv(tables, data', refs')
  {
  }

  lemma LeafFlagsAt(leaves: Leaves, k: (nat, nat))
    requires LeafFlags(leaves) && k in leaves
    ensures leaves[k].flags.v && leaves[k].flags.a && leaves[k].flags.d
  {
  }

  lemma RefsGrow(leaves: Leaves, refs: map<nat, nat>, refs': map<nat, nat>, data: map<nat, seq<Byte>>)
    requires RefInv(leaves, refs, data, None) && forall g :: g in refs ==> g in refs' && refs'[g] == refs[g]
    ensures RefInv(leaves, refs', data, None)
  {
    hide Sharers, Unaliased;
  }

  lemma CopiedParent(leaves0: Leaves, data0: map<nat, seq<Byte>>, leaves: Leaves, data: map<nat, seq<Byte>>,
                     parent: nat, child: nat, v: nat, regions: seq<Region>)
    requires CopiedTo(leaves0, data0, leaves, data, parent, child, v, regions) && parent != child
    ensures (parent, v) in leaves <==> (parent, v) in leaves0
    ensures (parent, v) in leaves ==> leaves[(parent, v)] == leaves0[(parent, v)]
    ensures forall f :: f in data0 ==> f in data && data[f] == data0[f]
  {
    hide ChildPage;
  }

  lemma SameParent(leaves0: Leaves, data0: map<nat, seq<Byte>>, leaves: Leaves, data: map<nat, seq<Byte>>,
                   parent: nat, child: nat, upto: nat, regions: seq<Region>)
    requires CopiedTo(leaves0, data0, leaves, data, parent, child, upto, regions) && parent != child
    ensures forall v :: (parent, v) in leaves <==> (parent, v) in leaves0
  {
    hide ChildPage;
  }

  lemma CopyDone(leaves0: Leaves, data0: map<nat, seq<Byte>>, leaves: Leaves, data: map<nat, seq<Byte>>,
                 parent: nat, child: nat, upto: nat, regions: seq<Region>)
    requires CopiedTo(leaves0, data0, leaves, data, parent, child, upto, regions) && upto >= USER_PAGES
    ensures CopiedTo(leaves0, data0, leaves, data, parent, child, USER_PAGES, regions)
  {
    hide ChildPage;
  }

  lemma KeptTable(tables0: Tables, place0: map<nat, Place>, tables: Tables, place: map<nat, Place>, root: nat, t: nat)
    requires TreeInv(tables0, place0) && KeepsSpaces(tables0, place0, tables, place, root)
    requires t in place0 && place0[t].root != root
    ensures t in place && t in tables && t in tables0 && |tables[t]| == ENTRIES
    ensures place[t] == place0[t] && tables[t] == tables0[t]
  {
    SameKeys(tables0, place0);
  }

  lemma ParentLeaf(tables: Tables, place: map<nat, Place>, leaves: Leaves, t: nat, v: nat)
    requires TreeInv(tables, place) && LeafInv(tables, place, leaves) && t in place && v < MAX_PAGE
    requires place[t].level == 0 && place[t].prefix == v / 512
    ensures t in tables && |tables[t]| == ENTRIES
    ensures tables[t][v % 512].flags.v <==> (place[t].root, v) in leaves
    ensures (place[t].root, v) in leaves ==> leaves[(place[t].root, v)] == tables[t][v % 512]
  {
    hide TreeInv, LeafInv;
    TableFacts(tables, place, t, 0);
    LeafTableOnPath(tables, place, t, v);
    LeafValue(tables, place, leaves, place[t].root, v, t);
  }

  /** An invalid upper-level entry means no page in its range is mapped. */
  lemma NothingBelow(tables: Tables, place: map<nat, Place>, leaves: Leaves, t: nat, i: nat, from: nat, to: nat)
    requires TreeInv(tables, place) && LeafInv(tables, place, leaves) && t in place && i < ENTRIES
    requires place[t].level == 1 || place[t].level == 2
    requires t in tables && i < |tables[t]| && !tables[t][i].flags.v && to <= MAX_PAGE
    requires if place[t].level == 2 then place[t].prefix == 0 && from == i * 262144 && to == from + 262144
             else from == (place[t].prefix * 512 + i) * 512 && to == from + 512
    ensures forall v :: from <= v < to ==> (place[t].root, v) !in leaves
  {
    hide TreeInv, LeafInv;
    forall v | from <= v < to ensures (place[t].root, v) !in leaves {
      MissingTable(tables, place, leaves, t, v);
    }
  }

  // ----- teardown -----

  /** No level-0 table in t's subtree has a valid entry. */
  ghost predicate NoLeaves(tables: Tables, place: map<nat, Place>, t: nat) {
    forall u, i :: u in Subtree(place, t) && place[u].level == 0 && 0 <= i < ENTRIES ==> !Get(tables, u, i).flags.v
  }

  /** The given tables are as they were at the start of the teardown, each granted once. */
  ghost predicate Intact(tables: Tables, place: map<nat, Place>, refs: map<nat, nat>, data: map<nat, seq<Byte>>,
                         tables0: Tables, place0: map<nat, Place>, s: set<nat>)
  {
    forall u :: u in s ==>
      && u in tables && u in tables0 && u in place0 && tables[u] == tables0[u] && u in place
      && u in refs && refs[u] == 1 && u !in data
  }

  lemma NoLeafHere(tables: Tables, place: map<nat, Place>, t: nat, i: nat)
    requires TreeInv(tables, place) && t in place && i < ENTRIES && NoLeaves(tables, place, t) && Get(tables, t, i).flags.v
    ensures place[t].level > 0 && Get(tables, t, i).flags == TABLE_FLAGS
    ensures NoLeaves(tables, place, Get(tables, t, i).frame)
    ensures Get(tables, t, i).frame in place && place[Get(tables, t, i).frame].level < place[t].level
  {
    TableFacts(tables, place, t, i);
    assert t in Subtree(place, t);
    SubtreeChild(tables, place, t, i);
    hide TreeInv;
    forall u | u in Subtree(place, Get(tables, t, i).frame) ensures u in Subtree(place, t) {
      assert u in Below(place, t, i + 1);
    }
  }

  lemma BelowNone(place: map<nat, Place>, t: nat)
    ensures Below(place, t, 0) == {}
  {
  }

  lemma BelowMono(place: map<nat, Place>, t: nat, i: nat)
    requires i < ENTRIES
    ensures Below(place, t, i) <= Below(place, t, i + 1) <= Below(place, t, ENTRIES) <= Subtree(place, t)
  {
    assert forall u :: u in place && Under(place, t, u) && place[u].level < place[t].level ==> Digit(place, t, u) < 512;
  }

  lemma Level0Range(tables: Tables, place: map<nat, Place>, u: nat)
    requires TreeInv(tables, place) && u in place && place[u].level == 0
    ensures place[u].prefix * 512 + 511 < MAX_PAGE
  {
    assert Attached(tables, place, u) && Attached(tables, place, place[u].parent);
  }

  ghost predicate Drops(tables: Tables, place: map<nat, Place>, root: nat, tables': Tables, place': map<nat, Place>) {
    && tables' == tables - (set u | u in place && place[u].root == root)
    && place' == place - (set u | u in place && place[u].root == root)
  }

  lemma DropAttached(tables: Tables, place: map<nat, Place>, root: nat, tables': Tables, place': map<nat, Place>, u: nat)
    requires Drops(tables, place, root, tables', place') && u in place' && Attached(tables, place, u)
    ensures Attached(tables', place', u)
  {
  }

  lemma DropSpaceTree(tables: Tables, place: map<nat, Place>, root: nat, tables': Tables, place': map<nat, Place>)
    requires TreeInv(tables, place) && IsRoot(place, root) && Drops(tables, place, root, tables', place')
    ensures TreeInv(tables', place')
  {
    hide Attached;
    forall u | u in place' ensures Attached(tables', place', u) {
      assert Attached(tables, place, u);
      DropAttached(tables, place, root, tables', place', u);
    }
    forall u, i | u in place' && 0 <= i < ENTRIES ensures ChildOk(tables', place', u, i) {
      assert ChildOk(tables, place, u, i);
    }
  }

  lemma DropSpace(tables: Tables, place: map<nat, Place>, leaves: Leaves, root: nat, tables': Tables, place': map<nat, Place>)
    requires TreeInv(tables, place) && LeafInv(tables, place, leaves) && IsRoot(place, root)
    requires forall k :: k in leaves ==> k.0 != root
    requires Drops(tables, place, root, tables', place')
    ensures TreeInv(tables', place') && LeafInv(tables', place', leaves)
  {
    hide TreeInv;
    DropSpaceTree(tables, place, root, tables', place');
    forall r, page | IsRoot(place', r) && 0 <= page < MAX_PAGE ensures LeafAt(tables', leaves, r, page) {
      assert LeafAt(tables, leaves, r, page);
      PathPlace(tables, place, r, page);
      SameKeys(tables, place);
    }
  }

  lemma DropTableRefs(leaves: Leaves, refs: map<nat, nat>, data: map<nat, seq<Byte>>, refs': map<nat, nat>, s: set<nat>)
    requires RefInv(leaves, refs, data, None) && s !! data.Keys
    requires forall g :: g in refs && g !in s ==> g in refs' && refs'[g] == refs[g]
    ensures RefInv(leaves, refs', data, None)
  {
    hide Sharers, Unaliased;
  }

  // ----- growth -----

  function PagesFor(bytes: nat): nat {
    (bytes + PGSIZE - 1) / PGSIZE
  }

  function ZeroPage(): (s: seq<Byte>)
    ensures |s| == PGSIZE && forall i :: 0 <= i < PGSIZE ==> s[i] == 0
  {
    seq(PGSIZE, _ => 0)
  }

  /** Pages first .. upto of `root` are new, each on its own new zeroed frame; all else is as before. */
  ghost predicate Grown(leaves0: Leaves, data0: map<nat, seq<Byte>>, leaves: Leaves, data: map<nat, seq<Byte>>,
                        root: nat, first: nat, upto: nat, flags: Flags)
  {
    && (forall k :: k in leaves <==> k in leaves0 || (k.0 == root && first <= k.1 < upto))
    && (forall k :: k in leaves0 ==> leaves[k] == leaves0[k])
    && (forall k :: k in leaves && k !in leaves0 ==>
          leaves[k].flags == flags && leaves[k].frame !in data0 && leaves[k].frame in data && data[leaves[k].frame] == ZeroPage())
    && (forall f :: f in data0 ==> f in data && data[f] == data0[f])
  }

  lemma GrownNone(leaves: Leaves, data: map<nat, seq<Byte>>, root: nat, first: nat, upto: nat, flags: Flags)
    requires upto <= first
    ensures Grown(leaves, data, leaves, data, root, first, upto, flags)
  {
  }

  /** What has been taken once the pages first .. a are grown. */
  ghost predicate GrownFor(place0: map<nat, Place>, room0: int, place: map<nat, Place>, room: int, root: nat, first: nat, a: nat) {
    Built(place0, room0, place, room + (a - first), root, Ways(Span(first, a)))
  }

  lemma GrownForNone(place: map<nat, Place>, room: nat, root: nat, first: nat, end: nat)
    ensures GrownFor(place, room, place, room, root, first, first)
    ensures end <= first ==> Ways(Span(first, end)) == {} && |Ways(Span(first, end)) - Spots(place, root)| == 0
  {
    hide Spots, Built;
    SpanNone(first);
    BuiltNone(place, room, root);
    if end <= first { NoSpan(first, end); }
  }

  lemma GrownForStep(place0: map<nat, Place>, room0: int, place1: map<nat, Place>, room1: int, place: map<nat, Place>, room: int,
                     root: nat, first: nat, a: nat)
    requires GrownFor(place0, room0, place1, room1, root, first, a) && first <= a && Built(place1, room1 - 1, place, room, root, Way(a))
    ensures GrownFor(place0, room0, place, room, root, first, a + 1)
  {
    hide Built, Spots, Way, Ways, Span;
    SpanMore(first, a);
    BuiltShift(place1, room1 - 1, place, room, root, Way(a), a + 1 - first);
    BuiltTrans(place0, room0, place1, room1 + (a - first), place, room + (a + 1 - first), root, Ways(Span(first, a)), Way(a));
  }

  lemma GrownForShort(place0: map<nat, Place>, room0: int, place1: map<nat, Place>, room1: int, root: nat, first: nat, a: nat, end: nat)
    requires GrownFor(place0, room0, place1, room1, root, first, a) && first <= a < end
    requires room1 < 1 + |Way(a) - Spots(place1, root)|
    ensures room0 < end - first + |Ways(Span(first, end)) - Spots(place0, root)|
  {
    hide Built, Spots, Way, Ways, Span;
    SpanMore(first, a);
    SpanMono(first, a + 1, end);
    BuiltShort(place0, room0, place1, room1 + (a - first), root, Ways(Span(first, a)), Way(a), Ways(Span(first, end)));
  }

  lemma GrownForAll(place0: map<nat, Place>, room0: int, place: map<nat, Place>, room: nat, root: nat, first: nat, end: nat)
    requires GrownFor(place0, room0, place, room, root, first, end)
    ensures Built(place0, room0, place, room + (end - first), root, Ways(Span(first, end)))
    ensures end - first + |Ways(Span(first, end)) - Spots(place0, root)| <= room0
  {
    hide Spots, Ways, Span;
  }

  lemma GrownApart(leaves0: Leaves, data0: map<nat, seq<Byte>>, leaves: Leaves, data: map<nat, seq<Byte>>,
                   root: nat, first: nat, a: nat, flags: Flags)
    requires Grown(leaves0, data0, leaves, data, root, first, a, flags) && (root, a) !in leaves0
    ensures (root, a) !in leaves
  {
  }

  lemma GrownStep(leaves0: Leaves, data0: map<nat, seq<Byte>>, leaves: Leaves, data: map<nat, seq<Byte>>,
                  root: nat, first: nat, a: nat, flags: Flags, f: nat)
    requires Grown(leaves0, data0, leaves, data, root, first, a, flags) && first <= a && f !in data && (root, a) !in leaves0
    ensures (root, a) !in leaves
    ensures Grown(leaves0, data0, leaves[(root, a) := Pte(f, flags)], data[f := ZeroPage()], root, first, a + 1, flags)
  {
    hide ZeroPage;
  }

  lemma AddDataFrame(tables: Tables, data: map<nat, seq<Byte>>, refs: map<nat, nat>, f: nat, bytes: seq<Byte>)
    requires FrameInv(tables, data, refs) && f !in refs && f > 0 && |bytes| == PGSIZE
    ensures FrameInv(tables, data[f := bytes], refs[f := 1])
  {
  }

  lemma FrameLength(tables: Tables, data: map<nat, seq<Byte>>, refs: map<nat, nat>, f: nat)
    requires FrameInv(tables, data, refs) && f in data
    ensures f in refs && |data[f]| == PGSIZE
  {
  }

  lemma HoldFrames(tables: Tables, data: map<nat, seq<Byte>>, refs: map<nat, nat>, f: nat)
    requires FrameInv(tables, data, refs) && f in data && f in refs
    ensures FrameInv(tables, data, refs[f := refs[f] + 1])
  {
  }

  lemma FreshData(tables: Tables, data: map<nat, seq<Byte>>, refs: map<nat, nat>, f: nat)
    requires FrameInv(tables, data, refs) && f !in refs
    ensures f !in data
  {
  }

  lemma KeepsRootsTrans(p0: map<nat, Place>, p1: map<nat, Place>, p2: map<nat, Place>)
    requires KeepsRoots(p0, p1) && KeepsRoots(p1, p2)
    ensures KeepsRoots(p0, p2)
  {
  }

  lemma EmptySpace(tables: Tables, place: map<nat, Place>, leaves: Leaves, root: nat)
    requires TreeInv(tables, place) && LeafInv(tables, place, leaves) && IsRoot(place, root)
    requires forall k :: k in leaves ==> k.0 != root
    ensures NoLeaves(tables, place, root)
  {
    hide LeafInv, TreeInv;
    forall u, i | u in Subtree(place, root) && place[u].level == 0 && 0 <= i < ENTRIES ensures !Get(tables, u, i).flags.v {
      TableFacts(tables, place, u, i);
      Level0Range(tables, place, u);
      ParentLeaf(tables, place, leaves, u, place[u].prefix * 512 + i);
    }
  }

  lemma LeafValue(tables: Tables, place: map<nat, Place>, leaves: Leaves, root: nat, page: nat, t: nat)
    requires LeafInv(tables, place, leaves) && IsRoot(place, root) && page < MAX_PAGE && LeafTable(tables, place, root, page, t)
    ensures t in tables && |tables[t]| == ENTRIES
    ensures tables[t][Px(0, page)].flags.v <==> (root, page) in leaves
    ensures (root, page) in leaves ==> leaves[(root, page)] == tables[t][Px(0, page)]
  {
    assert LeafAt(tables, leaves, root, page);
  }

  // ----- fork -----

  /** The child's entry for a page the parent maps. */
  ghost predicate ChildPage(leaves0: Leaves, data0: map<nat, seq<Byte>>, leaves: Leaves, data: map<nat, seq<Byte>>,
                            parent: nat, child: nat, v: nat, regions: seq<Region>)
  {
    && (parent, v) in leaves0 && (child, v) in leaves
    && var p, c := leaves0[(parent, v)], leaves[(child, v)];
       && c.flags == p.flags.(v := true, a := true, d := true) && p.frame in data0 && c.frame in data
       && if SharedAt(regions, v * PGSIZE) then c.frame == p.frame
          else c.frame !in data0 && data[c.frame] == data0[p.frame]
  }

  /** The user pages below `upto` have been copied; nothing else has changed. */
  ghost predicate CopiedTo(leaves0: Leaves, data0: map<nat, seq<Byte>>, leaves: Leaves, data: map<nat, seq<Byte>>,
                           parent: nat, child: nat, upto: nat, regions: seq<Region>)
  {
    && (forall k: (nat, nat) :: k.0 != child || k.1 >= USER_PAGES ==>
          (k in leaves <==> k in leaves0) && (k in leaves0 ==> leaves[k] == leaves0[k]))
    && (forall v :: 0 <= v < USER_PAGES && (child, v) in leaves ==> v < upto && (parent, v) in leaves0)
    && (forall v :: 0 <= v < USER_PAGES && v < upto && (parent, v) in leaves0 ==>
          ChildPage(leaves0, data0, leaves, data, parent, child, v, regions))
    && (forall f :: f in data0 ==> f in data && data[f] == data0[f])
  }

  /** The user pages below `upto` that a space maps, and those of them that fork has to copy. */
  ghost function PagesOf(leaves: Leaves, root: nat, upto: nat): set<nat> {
    set k | k in leaves && k.0 == root && k.1 < upto && k.1 < USER_PAGES :: k.1
  }

  ghost function Private(leaves: Leaves, root: nat, upto: nat, regions: seq<Region>): set<nat> {
    set k | k in leaves && k.0 == root && k.1 < upto && k.1 < USER_PAGES && !SharedAt(regions, k.1 * PGSIZE) :: k.1
  }

  /** The pages that fork takes: one for each private page of the parent, and the tables the child has not on the ways to its pages. */
  ghost function ForkCost(leaves0: Leaves, parent: nat, regions: seq<Region>, place0: map<nat, Place>, child: nat): nat {
    |Private(leaves0, parent, USER_PAGES, regions)| + |Ways(PagesOf(leaves0, parent, USER_PAGES)) - Spots(place0, child)|
  }

  /** What has been taken once the pages below `upto` are copied. */
  ghost predicate Spent(leaves0: Leaves, parent: nat, upto: nat, regions: seq<Region>, place0: map<nat, Place>, room0: int,
                        place: map<nat, Place>, room: int, child: nat)
  {
    Built(place0, room0, place, room + |Private(leaves0, parent, upto, regions)|, child, Ways(PagesOf(leaves0, parent, upto)))
  }

  lemma SpentNone(leaves0: Leaves, parent: nat, regions: seq<Region>, place: map<nat, Place>, room: int, child: nat)
    ensures Spent(leaves0, parent, 0, regions, place, room, place, room, child)
  {
    hide Built, SharedAt, Spots;
    BuiltNone(place, room, child);
    assert PagesOf(leaves0, parent, 0) == {} && Private(leaves0, parent, 0, regions) == {};
    assert Ways({}) == {};
  }

  lemma PagesStepped(leaves: Leaves, root: nat, v: nat, regions: seq<Region>)
    requires (root, v) in leaves && v < USER_PAGES
    ensures PagesOf(leaves, root, v + 1) == PagesOf(leaves, root, v) + {v}
    ensures Private(leaves, root, v + 1, regions) == Private(leaves, root, v, regions) + if SharedAt(regions, v * PGSIZE) then {} else {v}
    ensures v !in Private(leaves, root, v, regions)
  {
    hide SharedAt;
  }

  lemma PagesMono(leaves: Leaves, root: nat, upto: nat, regions: seq<Region>)
    ensures PagesOf(leaves, root, upto) <= PagesOf(leaves, root, USER_PAGES)
    ensures |Private(leaves, root, upto, regions)| <= |Private(leaves, root, USER_PAGES, regions)|
  {
    hide SharedAt;
    var a, b := Private(leaves, root, upto, regions), Private(leaves, root, USER_PAGES, regions);
    assert b == a + (b - a);
  }

  /** One more page: its frame, unless shared, and the tables on the way to it. */
  lemma SpentStep(leaves0: Leaves, parent: nat, v: nat, regions: seq<Region>, place0: map<nat, Place>, room0: int,
                  place1: map<nat, Place>, room1: int, place: map<nat, Place>, room: int, child: nat)
    requires Spent(leaves0, parent, v, regions, place0, room0, place1, room1, child) && (parent, v) in leaves0 && v < USER_PAGES
    requires Built(place1, room1 - (if SharedAt(regions, v * PGSIZE) then 0 else 1), place, room, child, Way(v))
    ensures Spent(leaves0, parent, v + 1, regions, place0, room0, place, room, child)
  {
    hide Built, SharedAt, Spots, Way, Ways, PagesOf, Private;
    PagesStepped(leaves0, parent, v, regions);
    WaysMore(PagesOf(leaves0, parent, v), v);
    var n, x := |Private(leaves0, parent, v, regions)|, if SharedAt(regions, v * PGSIZE) then 0 else 1;
    BuiltShift(place1, room1 - x, place, room, child, Way(v), n + x);
    BuiltTrans(place0, room0, place1, room1 + n, place, room + n + x, child, Ways(PagesOf(leaves0, parent, v)), Way(v));
    assert |Private(leaves0, parent, v + 1, regions)| == n + x;
  }

  lemma SpentShort(leaves0: Leaves, parent: nat, v: nat, regions: seq<Region>, place0: map<nat, Place>, room0: int,
                   place1: map<nat, Place>, room1: int, child: nat)
    requires Spent(leaves0, parent, v, regions, place0, room0, place1, room1, child) && (parent, v) in leaves0 && v < USER_PAGES
    requires room1 - (if SharedAt(regions, v * PGSIZE) then 0 else 1) < |Way(v) - Spots(place1, child)|
    ensures room0 < ForkCost(leaves0, parent, regions, place0, child)
  {
    hide Built, SharedAt, Spots, Way, Ways, PagesOf, Private;
    PagesStepped(leaves0, parent, v, regions);
    PagesMono(leaves0, parent, v + 1, regions);
    WaysMore(PagesOf(leaves0, parent, v), v);
    WaysMono(PagesOf(leaves0, parent, v + 1), PagesOf(leaves0, parent, USER_PAGES));
    var n, x := |Private(leaves0, parent, v, regions)|, if SharedAt(regions, v * PGSIZE) then 0 else 1;
    assert |Private(leaves0, parent, v + 1, regions)| == n + x;
    BuiltShort(place0, room0, place1, room1 + n, child, Ways(PagesOf(leaves0, parent, v)), Way(v),
               Ways(PagesOf(leaves0, parent, USER_PAGES)));
  }

  lemma SpentSkip(leaves0: Leaves, parent: nat, from: nat, to: nat, regions: seq<Region>, place0: map<nat, Place>, room0: int,
                  place: map<nat, Place>, room: int, child: nat)
    requires Spent(leaves0, parent, from, regions, place0, room0, place, room, child) && from <= to
    requires forall v :: from <= v < to && v < USER_PAGES ==> (parent, v) !in leaves0
    ensures Spent(leaves0, parent, to, regions, place0, room0, place, room, child)
  {
    hide Built, SharedAt;
    assert PagesOf(leaves0, parent, to) == PagesOf(leaves0, parent, from);
    assert Private(leaves0, parent, to, regions) == Private(leaves0, parent, from, regions);
  }

  lemma SpentAll(leaves0: Leaves, parent: nat, upto: nat, regions: seq<Region>, place0: map<nat, Place>, room0: int,
                 place: map<nat, Place>, room: nat, child: nat)
    requires Spent(leaves0, parent, upto, regions, place0, room0, place, room, child) && upto >= USER_PAGES
    ensures room + ForkCost(leaves0, parent, regions, place0, child) == room0
    ensures Spots(place, child) == Spots(place0, child) + Ways(PagesOf(leaves0, parent, USER_PAGES))
  {
    hide SharedAt;
    assert PagesOf(leaves0, parent, upto) == PagesOf(leaves0, parent, USER_PAGES);
    assert Private(leaves0, parent, upto, regions) == Private(leaves0, parent, USER_PAGES, regions);
  }

  lemma CopyStart(leaves: Leaves, data: map<nat, seq<Byte>>, parent: nat, child: nat, regions: seq<Region>)
    requires forall v :: 0 <= v < USER_PAGES ==> (child, v) !in leaves
    ensures CopiedTo(leaves, data, leaves, data, parent, child, 0, regions)
  {
  }

  lemma CopySkip(leaves0: Leaves, data0: map<nat, seq<Byte>>, leaves: Leaves, data: map<nat, seq<Byte>>,
                 parent: nat, child: nat, from: nat, to: nat, regions: seq<Region>)
    requires CopiedTo(leaves0, data0, leaves, data, parent, child, from, regions) && from <= to && parent != child
    requires forall v :: from <= v < to && v < USER_PAGES ==> (parent, v) !in leaves
    ensures CopiedTo(leaves0, data0, leaves, data, parent, child, to, regions)
  {
    hide ChildPage;
  }

  /** The frame chosen for the child's page v does not occur at another page of the child. */
  lemma CopyFresh(leaves0: Leaves, data0: map<nat, seq<Byte>>, leaves: Leaves, data: map<nat, seq<Byte>>,
                  parent: nat, child: nat, v: nat, f: nat, regions: seq<Region>)
    requires CopiedTo(leaves0, data0, leaves, data, parent, child, v, regions) && parent != child && v < USER_PAGES
    requires Unaliased(leaves0) && (parent, v) in leaves0 && leaves0[(parent, v)].frame == f && f in data0
    ensures (child, v) !in leaves
    ensures forall j :: j in leaves && j.0 == child && j.1 < USER_PAGES ==> leaves[j].frame != f
  {
    forall j | j in leaves && j.0 == child && j.1 < USER_PAGES ensures leaves[j].frame != f {
      assert ChildPage(leaves0, data0, leaves, data, parent, child, j.1, regions);
      if SharedAt(regions, j.1 * PGSIZE) {
        assert leaves[j].frame == leaves0[(parent, j.1)].frame;
      }
    }
  }

  lemma CopyPage(leaves0: Leaves, data0: map<nat, seq<Byte>>, leaves: Leaves, data: map<nat, seq<Byte>>,
                 parent: nat, child: nat, v: nat, regions: seq<Region>,
                 leaves': Leaves, data': map<nat, seq<Byte>>, e: Pte)
    requires CopiedTo(leaves0, data0, leaves, data, parent, child, v, regions) && v < USER_PAGES && (child, v) !in leaves
    requires parent != child && (parent, v) in leaves0 && leaves0[(parent, v)].frame in data0
    requires leaves' == leaves[(child, v) := e]
    requires e.flags == leaves0[(parent, v)].flags.(v := true, a := true, d := true)
    requires if SharedAt(regions, v * PGSIZE) then e.frame == leaves0[(parent, v)].frame && data' == data
             else e.frame !in data && data' == data[e.frame := data0[leaves0[(parent, v)].frame]]
    ensures CopiedTo(leaves0, data0, leaves', data', parent, child, v + 1, regions)
  {
    forall w | 0 <= w < USER_PAGES && w < v + 1 && (parent, w) in leaves0
      ensures ChildPage(leaves0, data0, leaves', data', parent, child, w, regions)
    {
      if w != v { assert ChildPage(leaves0, data0, leaves, data, parent, child, w, regions); }
    }
  }

  /**
   After fork, parent and child translate a page to the same frame exactly when
   it is the same page and lies in a shared region; a private page's frame is
   named by nobody else, so writes to it are seen by nobody else.
   */
  lemma ForkSharing(leaves0: Leaves, data0: map<nat, seq<Byte>>, leaves: Leaves, data: map<nat, seq<Byte>>,
                    parent: nat, child: nat, regions: seq<Region>, v: nat, w: nat)
    requires CopiedTo(leaves0, data0, leaves, data, parent, child, USER_PAGES, regions) && parent != child
    requires Unaliased(leaves0) && v < USER_PAGES && w < USER_PAGES && (parent, v) in leaves0 && (child, w) in leaves
    ensures (parent, v) in leaves && leaves[(parent, v)] == leaves0[(parent, v)]
    ensures leaves[(parent, v)].frame in data0
    ensures leaves[(parent, v)].frame == leaves[(child, w)].frame <==> v == w && SharedAt(regions, v * PGSIZE)
  {
    assert ChildPage(leaves0, data0, leaves, data, parent, child, w, regions);
    assert ChildPage(leaves0, data0, leaves, data, parent, child, v, regions);
  }

  /**
   After fork, the child's page v is on the parent's frame if the first region
   over it is shared, and on a new frame with the parent's bytes if that region
   is private or there is none.
   */
  lemma ChildFrames(leaves0: Leaves, data0: map<nat, seq<Byte>>, leaves: Leaves, data: map<nat, seq<Byte>>,
                    parent: nat, child: nat, regions: seq<Region>, v: nat)
    requires CopiedTo(leaves0, data0, leaves, data, parent, child, USER_PAGES, regions)
    requires v < USER_PAGES && (parent, v) in leaves0
    ensures (child, v) in leaves && leaves0[(parent, v)].frame in data0 && leaves[(child, v)].frame in data
    ensures data[leaves[(child, v)].frame] == data0[leaves0[(parent, v)].frame]
    ensures (forall i :: 0 <= i < |regions| ==> !(regions[i].addr <= v * PGSIZE < regions[i].addr + regions[i].length)) ==>
              leaves[(child, v)].frame !in data0
    ensures forall i: nat :: FirstOver(regions, v * PGSIZE, i) ==>
              if regions[i].shared then leaves[(child, v)].frame == leaves0[(parent, v)].frame else leaves[(child, v)].frame !in data0
  {
    assert ChildPage(leaves0, data0, leaves, data, parent, child, v, regions);
    if SharedAt(regions, v * PGSIZE) {
      assert forall i: nat, j: nat :: FirstOver(regions, v * PGSIZE, i) && FirstOver(regions, v * PGSIZE, j) ==> i == j;
    }
  }

  class Memory {
    var tables: Tables
    var data: map<nat, seq<Byte>>
    const buddy: BuddyAllocator.Buddy
    /** The granted frames in use here, with their counts. */
    ghost var refs: map<nat, nat>
    ghost var place: map<nat, Place>
    ghost var leaves: Leaves

    /** The frames in use are granted by the buddy allocator, and it keeps their counts. */
    ghost predicate Backing()
      reads `refs, buddy, buddy.pages, buddy.heads
    {
      buddy.Valid() && Backed(refs, buddy.pages[..])
    }

    /** The buddy allocator has no free page: kalloc panics. */
    ghost predicate OutOfPages()
      reads buddy.pages
    {
      !BuddyAllocator.HasRoom(buddy.pages[..], 0)
    }

    /** The number of pages that the buddy allocator has free. */
    ghost function Room(): nat
      reads buddy.pages
    {
      |BuddyAllocator.Available(buddy.pages[..])|
    }

    /** All pages that are free or in use here, none of which is ever lost. */
    ghost function Pages(): nat
      reads `tables, `data, buddy.pages
    {
      Room() + |tables.Keys| + |data.Keys|
    }

    /** The page tables translate exactly `leaves`. */
    ghost predicate Mapped()
      reads this, buddy, buddy.pages, buddy.heads
    {
      && TreeInv(tables, place) && LeafInv(tables, place, leaves)
      && FrameInv(tables, data, refs) && LeafFlags(leaves) && Backing()
    }

    ghost predicate Valid(held: Option<nat>)
      reads this, buddy, buddy.pages, buddy.heads
    {
      Mapped() && RefInv(leaves, refs, data, held)
    }

    lemma BackingFacts()
      requires Backing()
      ensures Backed(refs, buddy.pages[..])
    {
    }

    /** No address space yet, over any state of the buddy allocator. */
    constructor (buddy: BuddyAllocator.Buddy)
      requires buddy.Valid()
      ensures Valid(None) && this.buddy == buddy && tables == map[] && data == map[] && leaves == map[] && refs == map[] && place == map[]
    {
      this.buddy := buddy;
      tables, data, refs, place, leaves := map[], map[], map[], map[], map[];
    }

    /** kalloc: one page of the buddy allocator. None is its panic. */
    method Kalloc() returns (f: Option<nat>)
      requires Backing()
      modifies `refs, buddy, buddy.pages, buddy.heads
      ensures f.None? <==> old(Room()) == 0
      ensures f.None? ==> OutOfPages() && Room() == 0
      ensures f.Some? ==> Room() + 1 == old(Room())
      ensures f.Some? ==> f.value !in old(refs) && f.value > 0 && refs == old(refs)[f.value := 1] && Backing()
    {
      hide BuddyAllocator.ListInv, BuddyAllocator.BlockInv, BuddyAllocator.KeepsOthers, BuddyAllocator.Taken,
        BuddyAllocator.Available, BuddyAllocator.Consumes, BuddyAllocator.HasRoom, Backed, Returned;
      ghost var pg := buddy.pages[..];
      BuddyAllocator.AnyAvailable(pg);
      var p;
      ghost var order;
      p, order := buddy.Alloc(PGSIZE);
      OnePage(order);
      if p.None? {
        return None;
      }
      BuddyAllocator.OneLess(pg, buddy.pages[..], p.value);
      BackedGrant(refs, pg, p.value, buddy.pages[..]);
      f := Some(FRAME0 + p.value);
      refs := refs[f.value := 1];
    }

    /** page_refcnt_inc */
    method Hold(f: nat)
      requires Backing() && f in refs
      modifies `refs, buddy.pages
      ensures Backing() && refs == old(refs)[f := old(refs[f]) + 1] && Room() == old(Room()) && Pages() == old(Pages())
    {
      hide BuddyAllocator.Available, BuddyAllocator.ListInv, BuddyAllocator.BlockInv, BuddyAllocator.KeepsOthers, Backed, Returned;
      ghost var pg := buddy.pages[..];
      BackedAt(refs, pg, f);
      buddy.RefInc(f - FRAME0);
      BuddyAllocator.SameAvailable(pg, buddy.pages[..]);
      BackedCount(refs, pg, f, refs[f] + 1, buddy.pages[..]);
      refs := refs[f := refs[f] + 1];
    }

    /** buddy_free of the page of a frame. */
    method DropReference(f: nat, ghost refs0: map<nat, nat>) returns (last: bool)
      requires Backing() && f in refs && Returned(refs0, refs, buddy.pages[..])
      modifies `refs, buddy, buddy.pages, buddy.heads
      ensures Backing() && Returned(refs0, refs, buddy.pages[..]) && (last <==> old(refs[f]) <= 1)
      ensures refs == if last then old(refs) - {f} else old(refs)[f := old(refs[f]) - 1]
      ensures Room() == if last then old(Room()) + 1 else old(Room())
    {
      hide BuddyAllocator.Available, BuddyAllocator.Consumes, BuddyAllocator.Freed, BuddyAllocator.ListInv, BuddyAllocator.BlockInv,
        BuddyAllocator.KeepsOthers, Backed, Returned;
      ghost var pg := buddy.pages[..];
      BackedAt(refs, pg, f);
      BuddyAllocator.NotFreeIfFirst(pg, buddy.blocks, f - FRAME0);
      last := buddy.pages[f - FRAME0].refcnt <= 1;
      buddy.Free(f - FRAME0);
      if last {
        BackedFree(refs, pg, f, buddy.pages[..]);
        BuddyAllocator.OneLess(buddy.pages[..], pg, f - FRAME0);
        refs := refs - {f};
      } else {
        BackedCount(refs, pg, f, refs[f] - 1, buddy.pages[..]);
        BuddyAllocator.SameAvailable(pg, buddy.pages[..]);
        refs := refs[f := refs[f] - 1];
      }
    }

    /** kfree is buddy_free: it drops a reference, and the frame goes back with the last one. */
    method Kfree(f: nat, ghost refs0: map<nat, nat>)
      requires Backing() && f in refs && Returned(refs0, refs, buddy.pages[..])
      modifies `refs, `data, `tables, `place, buddy, buddy.pages, buddy.heads
      ensures Backing() && Returned(refs0, refs, buddy.pages[..])
      ensures old(refs[f]) > 1 ==> refs == old(refs)[f := old(refs[f]) - 1]
      ensures old(refs[f]) > 1 ==> data == old(data) && tables == old(tables) && place == old(place)
      ensures old(refs[f]) <= 1 ==> refs == old(refs) - {f} && data == old(data) - {f}
      ensures old(refs[f]) <= 1 ==> tables == old(tables) - {f} && place == old(place) - {f}
      ensures Room() == if old(refs[f]) > 1 then old(Room()) else old(Room()) + 1
      ensures (f in old(data)) != (f in old(tables)) ==> Pages() == old(Pages())
    {
      hide Backing, Returned, Room;
      var last := DropReference(f, refs0);
      if last {
        DropFrame(f);
      }
    }

    /** A frame is neither a table nor user memory any more. */
    method DropFrame(f: nat)
      modifies `data, `tables, `place
      ensures data == old(data) - {f} && tables == old(tables) - {f} && place == old(place) - {f}
      ensures |data.Keys| == |old(data).Keys| - (if f in old(data) then 1 else 0)
      ensures |tables.Keys| == |old(tables).Keys| - (if f in old(tables) then 1 else 0)
    {
      OneGone(data, f);
      OneGone(tables, f);
      data, tables, place := data - {f}, tables - {f}, place - {f};
    }

    /** The allocating step of walk: a zeroed table under entry i of table t. */
    method GrowTable(t: nat, i: nat) returns (r: Option<nat>)
      requires Mapped() && t in place && t in tables && i < |tables[t]| == ENTRIES && place[t].level > 0 && !tables[t][i].flags.v
      requires place[t].level == 2 ==> i < 256
      modifies `tables, `refs, `place, buddy, buddy.pages, buddy.heads
      ensures r.None? ==> OutOfPages()
      ensures r.Some? ==> Mapped() && r.value in place && r.value in tables
      ensures r.Some? ==>
                place == old(place)[r.value := Place(old(place[t].root), old(place[t].level) - 1, old(place[t].prefix) * 512 + i, t)]
      ensures r.Some? ==> r.value !in old(refs) && refs == old(refs)[r.value := 1]
      ensures r.Some? ==> KeepsSpaces(old(tables), old(place), tables, place, old(place[t].root)) && KeepsRoots(old(place), place)
      ensures r.None? <==> old(Room()) == 0
      ensures r.Some? ==> Pages() == old(Pages())
      ensures r.Some? ==> Built(old(place), old(Room()), place, Room(), old(place[t].root), {(place[r.value].level, place[r.value].prefix)})
    {
      hide LeafInv, TreeInv, LeafFlags, FrameInv, KeepsSpaces, KeepsRoots, ZeroTable, Attached, ChildOk, Backing, OutOfPages, Room, Built;
      ghost var tables0, place0, refs0 := tables, place, refs;
      SameKeys(tables, place);
      r := Kalloc();
      if r.None? {
        return;
      }
      var f := r.value;
      FreshFrame(tables, place, data, refs0, f, t);
      OneMore(tables, f, ZeroTable());
      KeysStay(tables[f := ZeroTable()], t, tables[t][i := Pte(f, TABLE_FLAGS)]);
      tables := tables[f := ZeroTable()];
      tables := tables[t := tables[t][i := Pte(f, TABLE_FLAGS)]];
      place := place[f := Place(place[t].root, place[t].level - 1, place[t].prefix * 512 + i, t)];
      GrowFrames(tables0, data, refs0, t, tables[t], f, ZeroTable(), tables);
      GrowSpaces(tables0, place0, t, i, f, tables, place);
      NewTableLeaves(tables0, place0, leaves, t, i, f, tables, place);
      LevelAtMost(tables0, place0, t);
      BuiltNew(tables0, place0, t, i, f, place, Room());
    }

    /** One level of walk: the table below t on the way to `page`, created if asked for. */
    method WalkStep(root: nat, t: nat, level: nat, page: nat, alloc: bool, ghost spot: (nat, nat)) returns (r: Option<nat>)
      requires page < MAX_PAGE && 0 < level <= 2 && spot == (level - 1, Prefix(level - 1, page))
      requires Mapped() && t in place
      requires place[t].root == root && place[t].level == level && place[t].prefix == Prefix(level, page)
      modifies `tables, `refs, `place, buddy, buddy.pages, buddy.heads
      ensures alloc && r.None? ==> OutOfPages() && old(Room()) < |{spot} - Spots(old(place), root)|
      ensures !alloc ==> tables == old(tables) && refs == old(refs) && place == old(place) && Mapped()
      ensures !alloc ==> buddy.pages[..] == old(buddy.pages[..]) && (r.None? ==> (root, page) !in leaves)
      ensures r.Some? ==> Mapped() && r.value in place
      ensures r.Some? ==> place[r.value].root == root && (place[r.value].level, place[r.value].prefix) == spot
      ensures r.Some? ==> forall g :: g in old(refs) ==> g in refs && refs[g] == old(refs[g])
      ensures r.Some? ==> KeepsSpaces(old(tables), old(place), tables, place, root) && KeepsRoots(old(place), place)
      ensures !alloc || r.Some? ==> Pages() == old(Pages())
      ensures r.Some? ==> Built(old(place), old(Room()), place, Room(), root, {spot})
    {
      hide Backing, OutOfPages, Pages, LeafInv, TreeInv, FrameInv, LeafFlags, Prefix, Px, Attached, ChildOk, Room, Built, Spots;
      var i := Px(level, page);
      PrefixStep(level, page);
      TableFacts(tables, place, t, i);
      if tables[t][i].flags.v {
        BuiltHere(place, Room(), root, tables[t][i].frame);
        return Some(tables[t][i].frame);
      }
      if !alloc {
        MissingTable(tables, place, leaves, t, page);
        return None;
      }
      SpotFree(tables, place, t, i);
      OneSpot(place, root, spot);
      r := GrowTable(t, i);
    }

    /**
     walk: the level-0 table that holds the entry of `page`. With alloc the
     missing tables are created, which changes no translation; it fails exactly
     when fewer pages are free than tables are missing.
     */
    method Walk(root: nat, page: nat, alloc: bool) returns (r: Option<nat>)
      requires Mapped() && IsRoot(place, root) && page < MAX_PAGE
      modifies `tables, `refs, `place, buddy, buddy.pages, buddy.heads
      ensures alloc && r.None? ==> OutOfPages()
      ensures alloc ==> (r.None? <==> old(Room()) < |Way(page) - Spots(old(place), root)|)
      ensures alloc && r.Some? ==> Built(old(place), old(Room()), place, Room(), root, Way(page))
      ensures !alloc ==> tables == old(tables) && refs == old(refs) && place == old(place)
      ensures !alloc ==> Mapped() && buddy.pages[..] == old(buddy.pages[..])
      ensures !alloc && r.None? ==> (root, page) !in leaves
      ensures !alloc || r.Some? ==> Pages() == old(Pages())
      ensures r.Some? ==> Mapped() && LeafTable(tables, place, root, page, r.value)
      ensures r.Some? ==> forall g :: g in old(refs) ==> g in refs && refs[g] == old(refs[g])
      ensures r.Some? ==> KeepsSpaces(old(tables), old(place), tables, place, root) && KeepsRoots(old(place), place)
    {
      hide Mapped, OutOfPages, Pages, Prefix, Px, Room, Built, Spots, Way, KeepsSpaces, KeepsRoots, TreeInv, LeafTable;
      var t := root;
      var level := 2;
      TopPrefix(page);
      ghost var passed := {};
      BuiltNone(place, Room(), root);
      KeepsRefl(tables, place, root);
      WayPassed(page, 1);
      while level > 0
        invariant 0 <= level <= 2 && Mapped() && t in place
        invariant place[t].root == root && place[t].level == level && place[t].prefix == Prefix(level, page)
        invariant !alloc ==> tables == old(tables) && refs == old(refs) && place == old(place)
        invariant !alloc ==> buddy.pages[..] == old(buddy.pages[..])
        invariant forall g :: g in old(refs) ==> g in refs && refs[g] == old(refs[g])
        invariant KeepsSpaces(old(tables), old(place), tables, place, root)
        invariant KeepsRoots(old(place), place) && Pages() == old(Pages())
        invariant Built(old(place), old(Room()), place, Room(), root, passed)
        invariant passed == if level == 2 then {} else if level == 1 then {(1, Prefix(1, page))} else {(1, Prefix(1, page)), (0, Prefix(0, page))}
      {
        ghost var tables1, place1, room1, spot := tables, place, Room(), (level - 1, Prefix(level - 1, page));
        BuiltShort(old(place), old(Room()), place, room1, root, passed, {spot}, Way(page));
        var next := WalkStep(root, t, level, page, alloc, spot);
        if next.None? {
          return None;
        }
        BuiltTrans(old(place), old(Room()), place1, room1, place, Room(), root, passed, {spot});
        KeepsTrans(old(tables), old(place), tables1, place1, tables, place, root);
        KeepsRootsTrans(old(place), place1, place);
        passed := passed + {spot};
        t := next.value;
        level := level - 1;
      }
      BuiltFits(old(place), old(Room()), place, Room(), root, Way(page));
      PathFound(t, page);
      r := Some(t);
    }

    lemma PathFound(t: nat, page: nat)
      requires Mapped() && t in place && page < MAX_PAGE && place[t].level == 0 && place[t].prefix == Prefix(0, page)
      ensures LeafTable(tables, place, place[t].root, page, t)
    {
      hide TreeInv;
      LeafTableOnPath(tables, place, t, page);
    }

    /** A store to one entry of a table. */
    method StoreEntry(t: nat, i: nat, e: Pte)
      requires t in tables && i < |tables[t]|
      modifies `tables
      ensures tables == old(tables)[t := old(tables)[t][i := e]] && tables.Keys == old(tables).Keys && Pages() == old(Pages())
    {
      KeysStay(tables, t, tables[t][i := e]);
      tables := tables[t := tables[t][i := e]];
    }

    /** The store through the pointer walk returned. */
    method SetPte(root: nat, page: nat, t: nat, e: Pte)
      requires Mapped() && IsRoot(place, root) && page < MAX_PAGE && LeafTable(tables, place, root, page, t)
      requires e.flags.v ==> e.flags.a && e.flags.d
      modifies `tables, `leaves
      ensures Mapped() && leaves == SetKey(old(leaves), (root, page), e)
      ensures KeepsSpaces(old(tables), place, tables, place, root) && Pages() == old(Pages()) && tables.Keys == old(tables).Keys
    {
      hide Pages, Room, Backing, LeafInv, TreeInv, Entry;
      ghost var tables0 := tables;
      StoreEntry(t, Px(0, page), e);
      SetLeafLeaves(tables0, place, leaves, t, Px(0, page), e, tables);
      leaves := SetKey(leaves, (root, page), e);
    }

    /** The body of the loop of mappages: one page gets an entry, and the tables on the way to it. */
    method MapPage(root: nat, a: nat, e: Pte) returns (ok: bool)
      requires Mapped() && IsRoot(place, root) && a < MAX_PAGE && (root, a) !in leaves && e.flags.v && e.flags.a && e.flags.d
      modifies `tables, `refs, `place, `leaves, buddy, buddy.pages, buddy.heads
      ensures !ok ==> OutOfPages()
      ensures ok <==> |Way(a) - Spots(old(place), root)| <= old(Room())
      ensures ok ==> Built(old(place), old(Room()), place, Room(), root, Way(a))
      ensures ok ==> Pages() == old(Pages())
      ensures ok ==> Mapped() && leaves == old(leaves)[(root, a) := e]
      ensures ok ==> forall g :: g in old(refs) ==> g in refs && refs[g] == old(refs[g])
      ensures ok ==> KeepsSpaces(old(tables), old(place), tables, place, root) && KeepsRoots(old(place), place)
    {
      hide Backing, OutOfPages, Pages, LeafInv, TreeInv, FrameInv, LeafFlags, LeafTable, Entry, KeepsSpaces, KeepsRoots, Room, Built, Spots, Way;
      ghost var place1 := place;
      var t := Walk(root, a, true);
      if t.None? {
        return false;
      }
      RootKept(place1, place, root);
      LeafValue(tables, place, leaves, root, a, t.value);
      assert !tables[t.value][Px(0, a)].flags.v;
      ghost var tables2 := tables;
      SetPte(root, a, t.value, e);
      KeepsTrans(old(tables), old(place), tables2, place, tables, place, root);
      ok := true;
    }

    /**
     mappages. The pages must be unmapped (the "remap" panic) and below MAXVA
     (the "walk" panic). False is the panic of kalloc, as in all methods below:
     fewer pages were free than tables missing.
     */
    method MapPages(root: nat, va: nat, size: nat, frame: nat, perm: Flags) returns (ok: bool)
      requires Mapped() && IsRoot(place, root) && size > 0 && (va + size - 1) / PGSIZE < MAX_PAGE
      requires forall p :: va / PGSIZE <= p <= (va + size - 1) / PGSIZE ==> (root, p) !in leaves
      modifies `tables, `refs, `place, `leaves, buddy, buddy.pages, buddy.heads
      ensures !ok ==> OutOfPages()
      ensures ok <==> |Ways(Span(va / PGSIZE, (va + size - 1) / PGSIZE + 1)) - Spots(old(place), root)| <= old(Room())
      ensures ok ==> Built(old(place), old(Room()), place, Room(), root, Ways(Span(va / PGSIZE, (va + size - 1) / PGSIZE + 1)))
      ensures ok ==> Pages() == old(Pages())
      ensures ok ==> Mapped()
      ensures ok ==> AddsRange(old(leaves), leaves, root, va / PGSIZE, (va + size - 1) / PGSIZE - va / PGSIZE + 1, frame,
                               perm.(v := true, a := true, d := true))
      ensures ok ==> forall g :: g in old(refs) ==> g in refs && refs[g] == old(refs[g])
      ensures ok ==> KeepsSpaces(old(tables), old(place), tables, place, root) && KeepsRoots(old(place), place)
    {
      hide Mapped, OutOfPages, Pages, AddsRange, KeepsSpaces, KeepsRoots, IsRoot, Room, Built, Spots, Way, Ways, Span;
      ghost var first, flags := va / PGSIZE, perm.(v := true, a := true, d := true);
      AddsNothing(leaves, root, first, frame, flags);
      KeepsRefl(tables, place, root);
      BuiltNone(place, Room(), root);
      SpanNone(first);
      var a, last := va / PGSIZE, (va + size - 1) / PGSIZE;
      var pa := frame;
      while true
        invariant first <= a <= last && pa == frame + (a - first) && Mapped()
        invariant AddsRange(old(leaves), leaves, root, first, a - first, frame, flags)
        invariant forall g :: g in old(refs) ==> g in refs && refs[g] == old(refs[g])
        invariant KeepsSpaces(old(tables), old(place), tables, place, root) && KeepsRoots(old(place), place)
        invariant Pages() == old(Pages())
        invariant Built(old(place), old(Room()), place, Room(), root, Ways(Span(first, a)))
        decreases last - a
      {
        ghost var tables1, place1, leaves1, room1 := tables, place, leaves, Room();
        AddsFrame(old(leaves), leaves, root, first, a - first, frame, flags, a);
        RootKept(old(place), place, root);
        SpanMore(first, a);
        SpanMono(first, a + 1, last + 1);
        BuiltShort(old(place), old(Room()), place, room1, root, Ways(Span(first, a)), Way(a), Ways(Span(first, last + 1)));
        ok := MapPage(root, a, Pte(pa, perm.(v := true, a := true, d := true)));
        if !ok {
          return;
        }
        BuiltTrans(old(place), old(Room()), place1, room1, place, Room(), root, Ways(Span(first, a)), Way(a));
        AddsStep(old(leaves), leaves1, root, first, a - first, frame, flags);
        KeepsTrans(old(tables), old(place), tables1, place1, tables, place, root);
        if a == last {
          break;
        }
        a := a + 1;
        pa := pa + 1;
      }
      BuiltFits(old(place), old(Room()), place, Room(), root, Ways(Span(first, last + 1)));
      ok := true;
    }

    /** One page of uvmunmap: drop the frame's reference, then clear the entry. */
    method UnmapPage(root: nat, page: nat, t: nat, doFree: bool, ghost refs0: map<nat, nat>)
      requires Valid(None) && IsRoot(place, root) && page < MAX_PAGE && LeafTable(tables, place, root, page, t)
      requires (root, page) in leaves && (doFree <==> page < USER_PAGES) && Returned(refs0, refs, buddy.pages[..])
      modifies this, buddy, buddy.pages, buddy.heads
      ensures Valid(None) && place == old(place) && leaves == old(leaves) - {(root, page)}
      ensures KeepsSpaces(old(tables), place, tables, place, root)
      ensures Pages() == old(Pages()) && tables.Keys == old(tables).Keys
      ensures KeepsContents(old(data), data) && Returned(refs0, refs, buddy.pages[..])
      ensures forall f :: f in refs ==> f in old(refs) && (f in old(data) ==> f in data)
    {
      hide Pages, Room, Backing, Returned, LeafInv, TreeInv, FrameInv, LeafFlags, RefInv, Entry;
      ghost var k := (root, page);
      ghost var refs1, data0 := refs, data;
      LeafValue(tables, place, leaves, root, page, t);
      LeafFlagsAt(leaves, k);
      assert tables[t][Px(0, page)].flags != TABLE_FLAGS;
      if doFree {
        var pa := tables[t][Px(0, page)].frame;
        UserFrame(tables, leaves, refs, data, k);
        SameKeys(tables, place);
        Kfree(pa, refs0);
        assert tables == old(tables) && place == old(place);

        FreeFrame(tables, data0, refs1, pa, data, refs);
        UnmapFreed(leaves, refs1, data0, k, pa, refs, data);
      } else {
        UnmapKernel(leaves, refs, data, k);
      }
      SetPte(root, page, t, ZERO_PTE);
    }

    /**
     uvmunmap. User pages are unmapped with do_free set, the trampoline and
     trap frame without. Pages that are not mapped are skipped. A user frame
     stays granted by the buddy allocator exactly while an entry names it.
     */
    method UvmUnmap(root: nat, page: nat, n: nat, doFree: bool)
      requires Valid(None) && IsRoot(place, root) && page + n <= MAX_PAGE
      requires if doFree then page + n <= USER_PAGES else USER_PAGES <= page
      modifies this, buddy, buddy.pages, buddy.heads
      ensures Valid(None) && place == old(place)
      ensures RemovesRange(old(leaves), leaves, root, page, n)
      ensures KeepsContents(old(data), data) && KeepsSpaces(old(tables), place, tables, place, root)
      ensures forall f :: f in old(data) ==> (Granted(buddy.pages[..], f) <==> exists k :: k in Sharers(leaves, f))
      ensures forall f :: f in old(data) ==> (f - FRAME0 in buddy.Used() <==> exists k :: k in Sharers(leaves, f))
      ensures Pages() == old(Pages()) && tables.Keys == old(tables).Keys
      ensures Returned(old(refs), refs, buddy.pages[..])
      ensures forall f :: f in refs ==> f in old(refs) && (f in old(data) ==> f in data)
    {
      hide Pages, Backing, Returned, LeafInv, TreeInv, FrameInv, LeafFlags, RefInv, LeafTable, RemovesRange, Sharers, Granted;
      ReturnedNone(refs, buddy.pages[..]);
      RemovesNothing(leaves, root, page);
      ghost var data0, refs0 := data, refs;
      DataCounted(tables, leaves, refs, data);
      var a := page;
      while a < page + n
        invariant page <= a <= page + n && Valid(None) && place == old(place)
        invariant RemovesRange(old(leaves), leaves, root, page, a - page)
        invariant KeepsContents(old(data), data) && KeepsSpaces(old(tables), place, tables, place, root)
        invariant Pages() == old(Pages()) && tables.Keys == old(tables).Keys
        invariant Returned(refs0, refs, buddy.pages[..])
        invariant forall f :: f in refs ==> f in refs0 && (f in data0 ==> f in data)
      {
        RemovesStep(old(leaves), leaves, root, page, a - page);
        var t := Walk(root, a, false);
        if t.Some? {
          LeafValue(tables, place, leaves, root, a, t.value);
          if tables[t.value][Px(0, a)].flags.v {
            UnmapPage(root, a, t.value, doFree, refs0);
          } else {
            assert leaves - {(root, a)} == leaves;
          }
        } else {
          assert leaves - {(root, a)} == leaves;
        }
        a := a + 1;
      }
      BackingFacts();
      UsedWhileNamed(leaves, refs, data, refs0, data0, buddy);
    }

    /** kalloc of a user frame and its first contents. */
    method NewFrame(bytes: seq<Byte>) returns (r: Option<nat>)
      requires Valid(None) && |bytes| == PGSIZE
      modifies `refs, `data, buddy, buddy.pages, buddy.heads
      ensures r.None? ==> OutOfPages()
      ensures r.None? <==> old(Room()) == 0
      ensures r.Some? ==> Valid(Some(r.value)) && r.value !in old(data) && data == old(data)[r.value := bytes]
      ensures r.Some? ==> refs == old(refs)[r.value := 1] && r.value !in old(refs)
      ensures r.Some? ==> Room() + 1 == old(Room()) && Pages() == old(Pages())
      ensures r.Some? ==> forall j :: j in leaves && j.1 < USER_PAGES ==> leaves[j].frame != r.value
    {
      hide Backing, OutOfPages, LeafInv, TreeInv, LeafFlags, FrameInv, RefInv, Room;
      ghost var refs1 := refs;
      r := Kalloc();
      if r.None? {
        return;
      }
      HoldFresh(leaves, refs1, data, r.value, bytes);
      AddDataFrame(tables, data, refs1, r.value, bytes);
      FreshData(tables, data, refs1, r.value);
      OneMore(data, r.value, bytes);
      data := data[r.value := bytes];
    }

    /** The body of uvmcopy's innermost loop for a mapped page. */
    method CopyLeaf(parent: nat, child: nat, v: nat, pte: Pte, regions: seq<Region>,
                    ghost leaves0: Leaves, ghost data0: map<nat, seq<Byte>>, ghost place0: map<nat, Place>, ghost room0: nat) returns (ok: bool)
      requires Valid(None) && IsRoot(place, child) && parent != child && v < USER_PAGES && Unaliased(leaves0)
      requires CopiedTo(leaves0, data0, leaves, data, parent, child, v, regions)
      requires (parent, v) in leaves && pte == leaves[(parent, v)] && pte.frame in data0
      requires Spent(leaves0, parent, v, regions, place0, room0, place, Room(), child) && (parent, v) in leaves0
      modifies this, buddy, buddy.pages, buddy.heads
      ensures !ok ==> OutOfPages() && room0 < ForkCost(leaves0, parent, regions, place0, child)
      ensures ok ==> Spent(leaves0, parent, v + 1, regions, place0, room0, place, Room(), child)
      ensures ok ==> Pages() == old(Pages())
      ensures ok ==> Valid(None) && CopiedTo(leaves0, data0, leaves, data, parent, child, v + 1, regions)
      ensures ok ==> KeepsSpaces(old(tables), old(place), tables, place, child) && KeepsRoots(old(place), place)
    {
      hide Backing, OutOfPages, Pages, LeafInv, TreeInv, LeafFlags, FrameInv, RefInv, CopiedTo, KeepsSpaces, KeepsRoots, Unaliased, SharedAt, FindRegion,
        Spent, Built, Spots, Way, Ways, ForkCost, Room;
      ghost var data1, leaves1, place1, room1 := data, leaves, place, Room();
      CopiedParent(leaves0, data0, leaves, data, parent, child, v, regions);
      CopyFresh(leaves0, data0, leaves, data, parent, child, v, pte.frame, regions);
      FrameLength(tables, data, refs, pte.frame);
      var mem;
      var region := FindRegion(regions, v * PGSIZE);
      FoundShared(regions, v * PGSIZE);
      if region.Some? && region.value.shared {
        mem := pte.frame;
        HoldShared(leaves, refs, data, mem);
        HoldFrames(tables, data, refs, mem);
        Hold(mem);
      } else {
        var got := NewFrame(data[pte.frame]);
        if got.None? {
          SpentShort(leaves0, parent, v, regions, place0, room0, place1, room1, child);
          return false;
        }
        mem := got.value;
      }
      ok := MapOne(child, v, mem, pte.flags);
      if !ok {
        SpentShort(leaves0, parent, v, regions, place0, room0, place1, room1, child);
        return;
      }
      SpentStep(leaves0, parent, v, regions, place0, room0, place1, room1, place, Room(), child);
      CopyPage(leaves0, data0, leaves1, data1, parent, child, v, regions, leaves, data,
               Pte(mem, pte.flags.(v := true, a := true, d := true)));
    }

    /** mappages of one user page to a frame whose reference the caller holds. */
    method MapOne(root: nat, v: nat, f: nat, perm: Flags) returns (ok: bool)
      requires Valid(Some(f)) && IsRoot(place, root) && v < USER_PAGES && (root, v) !in leaves && f in data
      requires forall j :: j in leaves && j.0 == root && j.1 < USER_PAGES ==> leaves[j].frame != f
      modifies `tables, `refs, `place, `leaves, buddy, buddy.pages, buddy.heads
      ensures !ok ==> OutOfPages()
      ensures ok <==> |Way(v) - Spots(old(place), root)| <= old(Room())
      ensures ok ==> Built(old(place), old(Room()), place, Room(), root, Way(v))
      ensures ok ==> Pages() == old(Pages())
      ensures ok ==> Valid(None) && leaves == old(leaves)[(root, v) := Pte(f, perm.(v := true, a := true, d := true))]
      ensures ok ==> forall g :: g in old(refs) ==> g in refs && refs[g] == old(refs[g])
      ensures ok ==> KeepsSpaces(old(tables), old(place), tables, place, root) && KeepsRoots(old(place), place)
    {
      hide Backing, OutOfPages, Pages, LeafInv, TreeInv, FrameInv, LeafFlags, RefInv, KeepsSpaces, KeepsRoots, Room, Built, Spots, Way, Ways;
      ghost var leaves0, refs0 := leaves, refs;
      assert v * PGSIZE / PGSIZE == v && (v * PGSIZE + PGSIZE - 1) / PGSIZE == v;
      SpanNone(v);
      SpanMore(v, v);
      assert Ways(Span(v, v + 1)) == Way(v);
      ok := MapPages(root, v * PGSIZE, PGSIZE, f, perm);
      if !ok {
        return;
      }
      assert leaves == leaves0[(root, v) := Pte(f, perm.(v := true, a := true, d := true))];
      MapHeld(leaves0, refs0, data, f, (root, v), leaves[(root, v)]);
      RefsGrow(leaves, refs0, refs, data);
    }

    /** What uvmcopy's loops keep: the parent's tables are as they were at the start. */
    ghost predicate Copying(parent: nat, child: nat, upto: nat, regions: seq<Region>, leaves0: Leaves,
                            data0: map<nat, seq<Byte>>, tables0: Tables, place0: map<nat, Place>, room0: nat)
      reads this, buddy, buddy.pages, buddy.heads
    {
      && Valid(None) && IsRoot(place, child) && IsRoot(place, parent) && parent != child
      && Unaliased(leaves0) && (forall k :: k in leaves0 && k.1 < USER_PAGES ==> leaves0[k].frame in data0)
      && CopiedTo(leaves0, data0, leaves, data, parent, child, upto, regions)
      && TreeInv(tables0, place0) && KeepsSpaces(tables0, place0, tables, place, child)
      && Spent(leaves0, parent, upto, regions, place0, room0, place, Room(), child)
    }

    /** Loop over the 512 entries of a level-0 table of the parent. */
    method CopyLevel0(parent: nat, child: nat, pg0: nat, prefix: nat, regions: seq<Region>, ghost leaves0: Leaves,
                      ghost data0: map<nat, seq<Byte>>, ghost tables0: Tables, ghost place0: map<nat, Place>, ghost room0: nat) returns (ok: bool)
      requires Copying(parent, child, prefix * 512, regions, leaves0, data0, tables0, place0, room0) && prefix < 131072
      requires pg0 in place0 && place0[pg0].root == parent && place0[pg0].level == 0 && place0[pg0].prefix == prefix
      modifies this, buddy, buddy.pages, buddy.heads
      ensures !ok ==> OutOfPages() && room0 < ForkCost(leaves0, parent, regions, place0, child)
      ensures ok ==> Pages() == old(Pages())
      ensures ok ==> Copying(parent, child, prefix * 512 + 512, regions, leaves0, data0, tables0, place0, room0)
    {
      hide Backing, OutOfPages, Pages, LeafInv, TreeInv, FrameInv, LeafFlags, RefInv, CopiedTo, KeepsSpaces, KeepsRoots, Unaliased, Spent, ForkCost, Room;
      var k := 0;
      while k < 512
        invariant Pages() == old(Pages())
        invariant 0 <= k <= 512 && Copying(parent, child, prefix * 512 + k, regions, leaves0, data0, tables0, place0, room0)
      {
        var v := prefix * 512 + k;
        KeptTable(tables0, place0, tables, place, child, pg0);
        ParentLeaf(tables, place, leaves, pg0, v);
        assert v % 512 == k;
        if prefix == 131071 && k >= 509 {
          CopySkip(leaves0, data0, leaves, data, parent, child, v, v + 1, regions);
          SameParent(leaves0, data0, leaves, data, parent, child, v + 1, regions);
          SpentSkip(leaves0, parent, v, v + 1, regions, place0, room0, place, Room(), child);
        } else if tables[pg0][k].flags.v {
          CopiedParent(leaves0, data0, leaves, data, parent, child, v, regions);
          ghost var tables1, place1 := tables, place;
          ok := CopyLeaf(parent, child, v, tables[pg0][k], regions, leaves0, data0, place0, room0);
          if !ok {
            return;
          }
          RootKept(place1, place, child);
          RootKept(place1, place, parent);
          KeepsTrans(tables0, place0, tables1, place1, tables, place, child);
        } else {
          CopySkip(leaves0, data0, leaves, data, parent, child, v, v + 1, regions);
          SameParent(leaves0, data0, leaves, data, parent, child, v + 1, regions);
          SpentSkip(leaves0, parent, v, v + 1, regions, place0, room0, place, Room(), child);
        }
        k := k + 1;
      }
      ok := true;
    }

    /** Loop over the 512 entries of a level-1 table of the parent. */
    method CopyLevel1(parent: nat, child: nat, pg1: nat, i: nat, regions: seq<Region>, ghost leaves0: Leaves,
                      ghost data0: map<nat, seq<Byte>>, ghost tables0: Tables, ghost place0: map<nat, Place>, ghost room0: nat) returns (ok: bool)
      requires Copying(parent, child, i * 262144, regions, leaves0, data0, tables0, place0, room0) && i < 256
      requires pg1 in place0 && place0[pg1].root == parent && place0[pg1].level == 1 && place0[pg1].prefix == i
      modifies this, buddy, buddy.pages, buddy.heads
      ensures !ok ==> OutOfPages() && room0 < ForkCost(leaves0, parent, regions, place0, child)
      ensures ok ==> Pages() == old(Pages())
      ensures ok ==> Copying(parent, child, i * 262144 + 262144, regions, leaves0, data0, tables0, place0, room0)
    {
      hide Backing, OutOfPages, Pages, LeafInv, TreeInv, FrameInv, LeafFlags, RefInv, CopiedTo, KeepsSpaces, KeepsRoots, Unaliased, Spent, ForkCost, Room;
      var j := 0;
      while j < 512
        invariant Pages() == old(Pages())
        invariant 0 <= j <= 512 && Copying(parent, child, (i * 512 + j) * 512, regions, leaves0, data0, tables0, place0, room0)
      {
        KeptTable(tables0, place0, tables, place, child, pg1);
        TableFacts(tables0, place0, pg1, j);
        if tables[pg1][j].flags.v {
          ok := CopyLevel0(parent, child, tables[pg1][j].frame, i * 512 + j, regions, leaves0, data0, tables0, place0, room0);
          if !ok {
            return;
          }
        } else {
          NothingBelow(tables, place, leaves, pg1, j, (i * 512 + j) * 512, (i * 512 + j + 1) * 512);
          CopySkip(leaves0, data0, leaves, data, parent, child, (i * 512 + j) * 512, (i * 512 + j + 1) * 512, regions);
          SameParent(leaves0, data0, leaves, data, parent, child, (i * 512 + j + 1) * 512, regions);
          SpentSkip(leaves0, parent, (i * 512 + j) * 512, (i * 512 + j + 1) * 512, regions, place0, room0, place, Room(), child);
        }
        j := j + 1;
      }
      ok := true;
    }

    /**
     uvmcopy, into an address space that maps no user page yet. It fails exactly
     when fewer pages are free than the private pages of the parent and the
     tables that the child has not.
     */
    method UvmCopy(parent: nat, child: nat, regions: seq<Region>) returns (ok: bool)
      requires Valid(None) && IsRoot(place, parent) && IsRoot(place, child) && parent != child
      requires forall v :: 0 <= v < USER_PAGES ==> (child, v) !in leaves
      modifies this, buddy, buddy.pages, buddy.heads
      ensures !ok ==> OutOfPages()
      ensures ok <==> ForkCost(old(leaves), parent, regions, old(place), child) <= old(Room())
      ensures ok ==> Room() + ForkCost(old(leaves), parent, regions, old(place), child) == old(Room())
      ensures ok ==> Spots(place, child) == Spots(old(place), child) + Ways(PagesOf(old(leaves), parent, USER_PAGES))
      ensures ok ==> Pages() == old(Pages())
      ensures ok ==> Valid(None) && CopiedTo(old(leaves), old(data), leaves, data, parent, child, USER_PAGES, regions)
      ensures ok ==> KeepsSpaces(old(tables), old(place), tables, place, child) && KeepsRoots(old(place), place)
    {
      hide Backing, OutOfPages, Pages, LeafInv, TreeInv, FrameInv, LeafFlags, CopiedTo, KeepsSpaces, KeepsRoots, Sharers, Spent, ForkCost, Room;
      ghost var tables0, place0, leaves0, data0, room0 := tables, place, leaves, data, Room();
      SpentNone(leaves0, parent, regions, place0, room0, child);
      CopyStart(leaves, data, parent, child, regions);
      KeepsRefl(tables, place, child);
      var i := 0;
      while i < 256
        invariant Pages() == old(Pages())
        invariant 0 <= i <= 256 && Copying(parent, child, i * 262144, regions, leaves0, data0, tables0, place0, room0)
      {
        KeptTable(tables0, place0, tables, place, child, parent);
        TableFacts(tables0, place0, parent, i);
        if tables[parent][i].flags.v {
          ok := CopyLevel1(parent, child, tables[parent][i].frame, i, regions, leaves0, data0, tables0, place0, room0);
          if !ok {
            return;
          }
        } else {
          NothingBelow(tables, place, leaves, parent, i, i * 262144, (i + 1) * 262144);
          CopySkip(leaves0, data0, leaves, data, parent, child, i * 262144, (i + 1) * 262144, regions);
          SameParent(leaves0, data0, leaves, data, parent, child, (i + 1) * 262144, regions);
          SpentSkip(leaves0, parent, i * 262144, (i + 1) * 262144, regions, place0, room0, place, Room(), child);
        }
        i := i + 1;
      }
      SpentAll(leaves0, parent, 256 * 262144, regions, place0, room0, place, Room(), child);
      CopyDone(leaves0, data0, leaves, data, parent, child, 256 * 262144, regions);
      SpacesKeepRoots(tables0, place0, tables, place, child);
      ok := true;
    }

    /**
     freewalk: free table t and every table below it. tables0 and place0 are the
     tables before the teardown started; the subtree holds no leaf.
     */
    method FreeWalk(t: nat, ghost tables0: Tables, ghost place0: map<nat, Place>, ghost refs0: map<nat, nat>)
      requires TreeInv(tables0, place0) && t in place0 && NoLeaves(tables0, place0, t)
      requires Intact(tables, place, refs, data, tables0, place0, Subtree(place0, t)) && Backing()
      requires Returned(refs0, refs, buddy.pages[..])
      modifies `tables, `refs, `data, `place, buddy, buddy.pages, buddy.heads
      ensures tables == old(tables) - Subtree(place0, t) && place == old(place) - Subtree(place0, t)
      ensures refs == old(refs) - Subtree(place0, t) && data == old(data) && Backing() && Returned(refs0, refs, buddy.pages[..])
      ensures Pages() == old(Pages())
      decreases place0[t].level
    {
      hide Pages, Room, Backing, Returned, TreeInv, Under, Subtree, Below, NoLeaves, IsRoot;
      ghost var all := Subtree(place0, t);
      SubtreeAll(tables0, place0, t);
      TableFacts(tables0, place0, t, 0);
      assert t in all;
      BelowNone(place0, t);
      var i := 0;
      while i < 512
        invariant 0 <= i <= 512 && data == old(data) && Backing() && Returned(refs0, refs, buddy.pages[..])
        invariant place == old(place) - Below(place0, t, i) && refs == old(refs) - Below(place0, t, i)
        invariant Pages() == old(Pages())
        invariant tables.Keys == old(tables).Keys - Below(place0, t, i)
        invariant forall u :: u in tables && u != t ==> tables[u] == old(tables)[u]
        invariant t in tables && |tables[t]| == ENTRIES && forall j :: i <= j < 512 ==> tables[t][j] == tables0[t][j]
      {
        TableFacts(tables0, place0, t, i);
        var pte := tables[t][i];
        BelowMono(place0, t, i);
        if pte.flags.v && !pte.flags.r && !pte.flags.w && !pte.flags.x {
          NoLeafHere(tables0, place0, t, i);
          SubtreeChild(tables0, place0, t, i);
          FreeWalk(pte.frame, tables0, place0, refs0);
          StoreEntry(t, i, ZERO_PTE);
        } else if pte.flags.v {
          NoLeafHere(tables0, place0, t, i);
          assert false;
        } else {
          SubtreeNone(tables0, place0, t, i);
        }
        i := i + 1;
      }
      Kfree(t, refs0);
      assert tables == old(tables) - all;
    }

    /** uvmcreate: an address space that maps nothing. */
    method UvmCreate() returns (r: Option<nat>)
      requires Valid(None)
      modifies `tables, `refs, `place, buddy, buddy.pages, buddy.heads
      ensures r.None? ==> OutOfPages()
      ensures r.None? <==> old(Room()) == 0
      ensures r.Some? ==> Room() + 1 == old(Room()) && Spots(place, r.value) == {(2, 0)}
      ensures r.Some? ==> Pages() == old(Pages())
      ensures r.Some? ==> Valid(None) && IsRoot(place, r.value) && r.value !in old(place) && KeepsRoots(old(place), place)
      ensures r.Some? ==> KeepsSpaces(old(tables), old(place), tables, place, r.value)
      ensures r.Some? ==> forall k :: k in leaves ==> k.0 != r.value
    {
      hide Backing, OutOfPages, TreeInv, LeafFlags, ZeroTable, RefInv, LeafAt, Room, KeepsSpaces, KeepsRoots, IsRoot, Spots;
      ghost var tables0, place0, refs0 := tables, place, refs;
      SameKeys(tables, place);
      r := Kalloc();
      if r.None? {
        return;
      }
      var root := r.value;
      OneMore(tables, root, ZeroTable());
      tables := tables[root := ZeroTable()];
      place := place[root := Place(root, 2, 0, root)];
      NewRootLeaves(tables0, place0, leaves, root, tables, place);
      RootSpaces(tables0, place0, root, tables, place, leaves);
      NewSpots(tables0, place0, root, place);
      RefsGrow(leaves, refs0, refs, data);
    }

    /** The body of the loop of uvmalloc: a zeroed frame for one page. */
    method GrowPage(root: nat, a: nat, perm: Flags) returns (ok: bool, ghost mem: nat)
      requires Valid(None) && IsRoot(place, root) && a < USER_PAGES && (root, a) !in leaves
      modifies this, buddy, buddy.pages, buddy.heads
      ensures !ok ==> OutOfPages()
      ensures ok <==> 1 + |Way(a) - Spots(old(place), root)| <= old(Room())
      ensures ok ==> Valid(None) && KeepsRoots(old(place), place) && Pages() == old(Pages())
      ensures ok ==> Built(old(place), old(Room()) - 1, place, Room(), root, Way(a))
      ensures ok ==> leaves == old(leaves)[(root, a) := Pte(mem, perm.(v := true, a := true, d := true))]
      ensures ok ==> mem !in old(data) && data == old(data)[mem := ZeroPage()]
    {
      hide Backing, OutOfPages, Pages, LeafInv, TreeInv, FrameInv, LeafFlags, RefInv, KeepsSpaces, KeepsRoots, ZeroPage, Room, Built, Spots, Way;
      mem := 0;
      var got := NewFrame(ZeroPage());
      if got.None? {
        return false, mem;
      }
      mem := got.value;
      ok := MapOne(root, a, got.value, perm);
    }

    /**
     uvmalloc: grow from oldsz to newsz with zeroed frames, each mapped once. It
     fails exactly when fewer pages are free than the new pages and the tables
     missing on the way to them.
     */
    method UvmAlloc(root: nat, oldsz: nat, newsz: nat, perm: Flags) returns (ok: bool, sz: nat)
      requires Valid(None) && IsRoot(place, root) && PagesFor(newsz) <= USER_PAGES
      requires forall p :: PagesFor(oldsz) <= p < PagesFor(newsz) ==> (root, p) !in leaves
      modifies this, buddy, buddy.pages, buddy.heads
      ensures !ok ==> OutOfPages()
      ensures ok <==> (if newsz < oldsz then 0 else PagesFor(newsz) - PagesFor(oldsz))
                      + |Ways(Span(PagesFor(oldsz), PagesFor(newsz))) - Spots(old(place), root)| <= old(Room())
      ensures ok ==> Built(old(place), old(Room()), place, Room() + (if newsz < oldsz then 0 else PagesFor(newsz) - PagesFor(oldsz)),
                           root, Ways(Span(PagesFor(oldsz), PagesFor(newsz))))
      ensures ok ==> Pages() == old(Pages())
      ensures ok ==> Valid(None) && sz == (if newsz < oldsz then oldsz else newsz) && KeepsRoots(old(place), place)
      ensures ok ==> Grown(old(leaves), old(data), leaves, data, root, PagesFor(oldsz), PagesFor(sz), perm.(v := true, a := true, d := true))
    {
      hide Mapped, RefInv, OutOfPages, Pages, IsRoot, KeepsRoots, Grown, GrownFor, ZeroPage, Room, Built, Spots, Way, Ways, Span, PagesFor;
      ghost var place0, leaves0, data0, room0, flags := place, leaves, data, Room(), perm.(v := true, a := true, d := true);
      ghost var first, end := PagesFor(oldsz), PagesFor(newsz);
      KeepsRefl(tables, place, root);
      GrownNone(leaves, data, root, first, first, flags);
      GrownForNone(place, Room(), root, first, end);
      PagesRange(oldsz, newsz);
      if newsz < oldsz {
        GrownForAll(place, Room(), place, Room(), root, first, first);
        BuiltNone(place, Room(), root);
        return true, oldsz;
      }
      sz := oldsz;
      var a := PagesFor(oldsz);
      while a * PGSIZE < newsz
        invariant first <= a <= end && Valid(None) && IsRoot(place, root) && KeepsRoots(place0, place)
        invariant Grown(leaves0, data0, leaves, data, root, first, a, flags)
        invariant Pages() == old(Pages()) && GrownFor(place0, room0, place, Room(), root, first, a)
        decreases newsz - a * PGSIZE
      {
        ghost var place1, leaves1, data1, room1 := place, leaves, data, Room();
        PagesStep(newsz, a);
        GrownApart(leaves0, data0, leaves, data, root, first, a, flags);
        ghost var mem;
        ok, mem := GrowPage(root, a, perm);
        if !ok {
          GrownForShort(place0, room0, place1, room1, root, first, a, end);
          return;
        }
        GrownStep(leaves0, data0, leaves1, data1, root, first, a, flags, mem);
        GrownForStep(place0, room0, place1, room1, place, Room(), root, first, a);
        RootKept(place1, place, root);
        KeepsRootsTrans(place0, place1, place);
        a := a + 1;
      }
      PagesEnd(newsz, a);
      GrownForAll(place0, room0, place, Room(), root, first, end);
      ok, sz := true, newsz;
    }

    /** uvmdealloc: the pages between the rounded sizes go. */
    method UvmDealloc(root: nat, oldsz: nat, newsz: nat) returns (sz: nat)
      requires Valid(None) && IsRoot(place, root) && PagesFor(oldsz) <= USER_PAGES
      modifies this, buddy, buddy.pages, buddy.heads
      ensures Valid(None) && place == old(place) && sz == (if newsz < oldsz then newsz else oldsz)
      ensures RemovesRange(old(leaves), leaves, root, PagesFor(sz), PagesFor(oldsz) - PagesFor(sz))
      ensures Pages() == old(Pages()) && tables.Keys == old(tables).Keys
      ensures KeepsContents(old(data), data)
      ensures forall f :: f in old(data) ==> (f - FRAME0 in buddy.Used() <==> exists k :: k in Sharers(leaves, f))
    {
      hide Pages, Backing, LeafInv, TreeInv, FrameInv, LeafFlags, RefInv, RemovesRange, Sharers;
      ReturnedNone(refs, buddy.pages[..]);
      BackingFacts();
      DataCounted(tables, leaves, refs, data);
      UsedWhileNamed(leaves, refs, data, refs, data, buddy);
      RemovesNothing(leaves, root, PagesFor(if newsz < oldsz then newsz else oldsz));
      if newsz >= oldsz {
        return oldsz;
      }
      if PagesFor(newsz) < PagesFor(oldsz) {
        UvmUnmap(root, PagesFor(newsz), PagesFor(oldsz) - PagesFor(newsz), true);
      }
      sz := newsz;
    }

    /** Growing a space and shrinking it again restores every translation and returns exactly the frames that were added. */
    method UvmAllocDealloc(root: nat, oldsz: nat, newsz: nat, perm: Flags) returns (ok: bool)
      requires Valid(None) && IsRoot(place, root) && oldsz <= newsz && PagesFor(newsz) <= USER_PAGES
      requires forall p :: PagesFor(oldsz) <= p < PagesFor(newsz) ==> (root, p) !in leaves
      modifies this, buddy, buddy.pages, buddy.heads
      ensures !ok ==> OutOfPages()
      ensures ok ==> Valid(None) && leaves == old(leaves) && data == old(data)
    {
      hide Pages, Room, Built, Spots, Ways, Span, Backing, OutOfPages, LeafInv, TreeInv, FrameInv, LeafFlags, RefInv, Sharers;
      ghost var leaves0, data0 := leaves, data;
      SameFrames(leaves, refs, data);
      var sz;
      ok, sz := UvmAlloc(root, oldsz, newsz, perm);
      if !ok {
        return;
      }
      ghost var leaves1, data1 := leaves, data;
      RootKept(old(place), place, root);
      var back := UvmDealloc(root, sz, oldsz);
      GrownBack(leaves0, data0, leaves1, data1, leaves, root, PagesFor(oldsz), PagesFor(newsz), perm.(v := true, a := true, d := true));
      SameFrames(leaves, refs, data);
      SameData(data0, data1, data);
    }

    /** freewalk of the root of a space that maps nothing. */
    method FreeSpace(root: nat, ghost refs0: map<nat, nat>)
      requires Valid(None) && IsRoot(place, root) && forall k :: k in leaves ==> k.0 != root
      requires Returned(refs0, refs, buddy.pages[..]) && forall f :: f in refs ==> f in refs0
      modifies this, buddy, buddy.pages, buddy.heads
      ensures Valid(None) && leaves == old(leaves) && data == old(data)
      ensures Returned(refs0, refs, buddy.pages[..]) && forall f :: f in refs ==> f in old(refs)
      ensures forall t :: t in old(tables) ==> (t in tables <==> old(place[t]).root != root)
      ensures forall t :: t in tables ==> t in old(tables) && tables[t] == old(tables[t])
      ensures forall t :: t in old(tables) && t !in tables ==> t !in refs && Given(buddy.pages[..], t)
      ensures Pages() == old(Pages())
      ensures KeepsSpaces(old(tables), old(place), tables, place, root)
      ensures forall r :: IsRoot(place, r) <==> IsRoot(old(place), r) && r != root
    {
      hide Pages, Backing, Given, LeafInv, TreeInv, LeafFlags, RefInv, Sharers, Subtree, NoLeaves;
      SameKeys(tables, place);
      ghost var tables0, place0, refs1 := tables, place, refs;
      SubtreeRoot(tables, place, root);
      EmptySpace(tables, place, leaves, root);
      TablesCounted(tables, data, refs);
      FreeWalk(root, tables0, place0, refs0);
      DropSpace(tables0, place0, leaves, root, tables, place);
      DropTableRefs(leaves, refs1, data, refs, tables0.Keys);
      DropRoots(tables0, place0, root, tables, place);
    }

    /** uvmfree: unmap the first n pages, which are all that is mapped, then free the tables. */
    method UvmFree(root: nat, n: nat)
      requires Valid(None) && IsRoot(place, root) && n <= USER_PAGES
      requires forall k :: k in leaves && k.0 == root ==> k.1 < n
      modifies this, buddy, buddy.pages, buddy.heads
      ensures Valid(None)
      ensures RemovesRange(old(leaves), leaves, root, 0, n)
      ensures forall t :: t in old(tables) ==> (t in tables <==> old(place[t]).root != root)
      ensures forall t :: t in tables ==> t in old(tables) && tables[t] == old(tables[t])
      ensures forall t :: t in old(tables) && t !in tables ==> t !in refs && Given(buddy.pages[..], t)
      ensures Pages() == old(Pages())
      ensures KeepsContents(old(data), data)
      ensures forall f :: f in old(data) ==> (f - FRAME0 in buddy.Used() <==> exists k :: k in Sharers(leaves, f))
      ensures KeepsSpaces(old(tables), old(place), tables, place, root)
      ensures forall r :: IsRoot(place, r) <==> IsRoot(old(place), r) && r != root
    {
      hide Pages, Backing, Given, Returned, LeafInv, TreeInv, LeafFlags, RefInv, FrameInv, Sharers, RemovesRange;
      RemovesNothing(leaves, root, 0);
      ghost var refs0, data0, leaves0 := refs, data, leaves;
      ReturnedNone(refs, buddy.pages[..]);
      DataCounted(tables, leaves, refs, data);
      SameKeys(tables, place);
      if n > 0 {
        UvmUnmap(root, 0, n, true);
      }
      Emptied(leaves0, leaves, root, n);
      SameKeys(tables, place);
      ghost var tables1, place1 := tables, place;
      FreeSpace(root, refs0);
      KeepsTrans(old(tables), old(place), tables1, place1, tables, place, root);
      BackingFacts();
      UsedWhileNamed(leaves, refs, data, refs0, data0, buddy);
    }

    /**
     The memory side of fork: a new space that is a copy of the parent's. It
     needs a page for each private page of the parent, for each table on the
     way to its pages and for the root.
     */
    method Fork(parent: nat, regions: seq<Region>) returns (r: Option<nat>)
      requires Valid(None) && IsRoot(place, parent)
      modifies this, buddy, buddy.pages, buddy.heads
      ensures r.None? ==> OutOfPages()
      ensures r.Some? <==>
                1 + |Private(old(leaves), parent, USER_PAGES, regions)| + |Ways(PagesOf(old(leaves), parent, USER_PAGES))| <= old(Room())
      ensures r.Some? ==> Valid(None) && IsRoot(place, r.value) && IsRoot(place, parent) && r.value !in old(place) && r.value != parent
      ensures r.Some? ==> CopiedTo(old(leaves), old(data), leaves, data, parent, r.value, USER_PAGES, regions)
      ensures r.Some? ==> forall k :: k in old(leaves) ==> k.0 != r.value
      ensures r.Some? ==> Pages() == old(Pages()) && KeepsSpaces(old(tables), old(place), tables, place, r.value)
    {
      hide Backing, OutOfPages, Pages, LeafInv, TreeInv, FrameInv, LeafFlags, RefInv, KeepsSpaces, KeepsRoots, CopiedTo, IsRoot,
        Room, Spots, Ways, PagesOf, Private;
      ghost var leaves0, place0, tables0 := leaves, place, tables;
      r := UvmCreate();
      if r.None? {
        return;
      }
      var child := r.value;
      RootNew(place0, parent, child);
      RootKept(place0, place, parent);
      WaysBelow(PagesOf(leaves0, parent, USER_PAGES));
      ghost var place1, tables1 := place, tables;
      var ok := UvmCopy(parent, child, regions);
      if !ok {
        return None;
      }
      RootKept(place1, place, parent);
      RootKept(place1, place, child);
      KeepsTrans(tables0, place0, tables1, place1, tables, place, child);
    }

    /**
     Forking a space and freeing the child leaves every translation, every user
     frame with its bytes, every count and the number of free pages as it was.
     */
    method ForkAndFree(parent: nat, regions: seq<Region>) returns (ok: bool)
      requires Valid(None) && IsRoot(place, parent)
      modifies this, buddy, buddy.pages, buddy.heads
      ensures !ok ==> OutOfPages()
      ensures ok <==> 1 + |Private(old(leaves), parent, USER_PAGES, regions)| + |Ways(PagesOf(old(leaves), parent, USER_PAGES))| <= old(Room())
      ensures ok ==> Valid(None) && leaves == old(leaves) && data == old(data) && IsRoot(place, parent)
      ensures ok ==> tables.Keys == old(tables).Keys && Room() == old(Room())
      ensures ok ==> forall f :: f in data ==> f in refs && f in old(refs) && refs[f] == old(refs[f])
    {
      hide Backing, OutOfPages, LeafInv, TreeInv, FrameInv, LeafFlags, RefInv, Sharers, KeepsSpaces, KeepsRoots, CopiedTo, IsRoot, RemovesRange,
        Room, Ways, PagesOf, Private;
      ghost var leaves0, data0, refs0, place0, tables0 := leaves, data, refs, place, tables;
      SameFrames(leaves, refs, data);
      var r := Fork(parent, regions);
      ok := r.Some?;
      if !ok {
        return;
      }
      var child := r.value;
      ghost var leaves1, data1, place2, tables2 := leaves, data, place, tables;
      ChildPages(leaves0, data0, leaves, data, parent, child, regions);
      SameKeys(tables, place);
      UvmFree(child, USER_PAGES);
      SameTables(tables0, place0, tables2, place2, tables, child);
      ForkUndone(leaves0, data0, leaves1, data1, leaves, parent, child, regions);
      SameFrames(leaves, refs, data);
      SameData(data0, data1, data);
      SameCounts(leaves, refs0, refs, data);
    }
  }

  lemma WaysBelow(pages: set<nat>)
    ensures Ways(pages) - {(2, 0)} == Ways(pages)
  {
  }

  /** A space that came and went leaves the tables that were there. */
  lemma SameTables(tables0: Tables, place0: map<nat, Place>, tables: Tables, place: map<nat, Place>, tables': Tables, child: nat)
    requires TreeInv(tables0, place0) && TreeInv(tables, place) && child !in place0
    requires KeepsSpaces(tables0, place0, tables, place, child)
    requires forall t :: t in tables ==> t in place && (t in tables' <==> place[t].root != child)
    requires forall t :: t in tables' ==> t in tables
    ensures tables'.Keys == tables0.Keys
  {
    SameKeys(tables0, place0);
    SameKeys(tables, place);
    forall t | t in place0 ensures place0[t].root != child {
      assert Attached(tables0, place0, t);
    }
    hide TreeInv;
  }

  lemma PagesRange(oldsz: nat, newsz: nat)
    ensures newsz < oldsz ==> PagesFor(newsz) <= PagesFor(oldsz)
    ensures newsz >= oldsz ==> PagesFor(newsz) >= PagesFor(oldsz)
  {
  }

  lemma PagesStep(newsz: nat, a: nat)
    requires a * PGSIZE < newsz
    ensures a < PagesFor(newsz)
  {
  }

  lemma PagesEnd(newsz: nat, a: nat)
    requires a * PGSIZE >= newsz && a <= PagesFor(newsz)
    ensures a == PagesFor(newsz)
  {
  }

  lemma RootSpaces(tables0: Tables, place0: map<nat, Place>, root: nat, tables: Tables, place: map<nat, Place>, leaves: Leaves)
    requires root !in place0 && root !in tables0
    requires tables == tables0[root := ZeroTable()] && place == place0[root := Place(root, 2, 0, root)]
    requires LeafInv(tables0, place0, leaves)
    ensures forall k :: k in leaves ==> k.0 != root
    ensures KeepsSpaces(tables0, place0, tables, place, root) && KeepsRoots(place0, place) && IsRoot(place, root)
  {
    hide ZeroTable, LeafAt;
  }

  lemma NewSpots(tables0: Tables, place0: map<nat, Place>, root: nat, place: map<nat, Place>)
    requires TreeInv(tables0, place0) && root !in place0 && place == place0[root := Place(root, 2, 0, root)]
    ensures Spots(place, root) == {(2, 0)}
  {
    forall t | t in place0 ensures place0[t].root != root {
      assert Attached(tables0, place0, t);
    }
    assert place[root].root == root;
    assert (place[root].level, place[root].prefix) in Spots(place, root);
  }

  /** Every root but possibly that of the space that grows is kept with its space. */
  lemma SpacesKeepRoots(tables0: Tables, place0: map<nat, Place>, tables: Tables, place: map<nat, Place>, root: nat)
    requires TreeInv(tables0, place0) && KeepsSpaces(tables0, place0, tables, place, root) && IsRoot(place, root)
    ensures KeepsRoots(place0, place)
  {
    SameKeys(tables0, place0);
    hide TreeInv;
  }

  lemma DropRoots(tables0: Tables, place0: map<nat, Place>, root: nat, tables: Tables, place: map<nat, Place>)
    requires TreeInv(tables0, place0) && IsRoot(place0, root)
    requires place == place0 - (set u | u in place0 && place0[u].root == root) && forall t :: t in tables ==> t in tables0 && tables[t] == tables0[t]
    requires forall t :: t in tables0 ==> t in place0 && (t in tables <==> place0[t].root != root)
    ensures KeepsSpaces(tables0, place0, tables, place, root)
    ensures forall r :: IsRoot(place, r) <==> IsRoot(place0, r) && r != root
  {
    hide TreeInv;
  }

  lemma RootNew(place: map<nat, Place>, parent: nat, child: nat)
    requires IsRoot(place, parent) && child !in place
    ensures parent != child
  {
  }

  lemma ChildPages(leaves0: Leaves, data0: map<nat, seq<Byte>>, leaves: Leaves, data: map<nat, seq<Byte>>, parent: nat, child: nat,
                   regions: seq<Region>)
    requires CopiedTo(leaves0, data0, leaves, data, parent, child, USER_PAGES, regions) && forall k :: k in leaves0 ==> k.0 != child
    ensures forall k :: k in leaves && k.0 == child ==> k.1 < USER_PAGES
  {
  }

  lemma ForkUndone(leaves0: Leaves, data0: map<nat, seq<Byte>>, leaves1: Leaves, data1: map<nat, seq<Byte>>, leaves2: Leaves,
                   parent: nat, child: nat, regions: seq<Region>)
    requires CopiedTo(leaves0, data0, leaves1, data1, parent, child, USER_PAGES, regions) && forall k :: k in leaves0 ==> k.0 != child
    requires RemovesRange(leaves1, leaves2, child, 0, USER_PAGES)
    ensures leaves2 == leaves0 && forall f :: f in data0 ==> f in data1 && data1[f] == data0[f]
  {
    forall k: (nat, nat) ensures k in leaves2 <==> k in leaves0 { }
  }

  lemma SameCounts(leaves: Leaves, refs0: map<nat, nat>, refs: map<nat, nat>, data: map<nat, seq<Byte>>)
    requires RefInv(leaves, refs0, data, None) && RefInv(leaves, refs, data, None)
    ensures forall f :: f in data ==> f in refs && f in refs0 && refs[f] == refs0[f]
  {
    hide Sharers;
  }

  /** The order of a block of one page. */
  lemma OnePage(order: nat)
    requires BuddyAllocator.FitOrder(PGSIZE, order)
    ensures order == 0
  {
    assert BuddyBlocks.Pow2(0) == 1;
  }

  lemma BackedAt(refs: map<nat, nat>, pg: seq<BuddyAllocator.Page>, f: nat)
    requires Backed(refs, pg) && f in refs
    ensures Granted(pg, f) && pg[f - FRAME0].refcnt == refs[f]
  {
  }

  lemma DataCounted(tables: Tables, leaves: Leaves, refs: map<nat, nat>, data: map<nat, seq<Byte>>)
    requires RefInv(leaves, refs, data, None)
    ensures forall f :: f in data ==> f in refs
  {
    hide Sharers;
  }

  /** A user frame is granted by the buddy allocator exactly while some entry names it. */
  lemma UsedWhileNamed(leaves: Leaves, refs: map<nat, nat>, data: map<nat, seq<Byte>>, refs0: map<nat, nat>, data0: map<nat, seq<Byte>>,
                       buddy: BuddyAllocator.Buddy)
    requires RefInv(leaves, refs, data, None) && Backed(refs, buddy.pages[..]) && Returned(refs0, refs, buddy.pages[..])
    requires forall f :: f in data0 ==> f in refs0 && (f in refs ==> f in data)
    ensures forall f :: f in data0 ==> (Granted(buddy.pages[..], f) <==> exists k :: k in Sharers(leaves, f))
    ensures forall f :: f in data0 ==> (f - FRAME0 in buddy.Used() <==> exists k :: k in Sharers(leaves, f))
  {
    hide Sharers;
    forall f | f in data0
      ensures Granted(buddy.pages[..], f) <==> exists k :: k in Sharers(leaves, f)
      ensures f - FRAME0 in buddy.Used() <==> exists k :: k in Sharers(leaves, f)
    {
      GrantedWhileNamed(leaves, refs, data, f);
    }
  }

  lemma Emptied(leaves0: Leaves, leaves: Leaves, root: nat, n: nat)
    requires RemovesRange(leaves0, leaves, root, 0, n) && forall k :: k in leaves0 && k.0 == root ==> k.1 < n
    ensures forall k :: k in leaves ==> k.0 != root
  {
  }

  lemma TablesCounted(tables: Tables, data: map<nat, seq<Byte>>, refs: map<nat, nat>)
    requires FrameInv(tables, data, refs)
    ensures forall t :: t in tables ==> t in refs
  {
  }

  lemma TopPrefix(page: nat)
    requires page < MAX_PAGE
    ensures Prefix(2, page) == 0
  {
  }

  lemma SameKeys(tables: Tables, place: map<nat, Place>)
    requires TreeInv(tables, place)
    ensures tables.Keys == place.Keys
  {
    hide Attached, ChildOk;
  }

  lemma TableFacts(tables: Tables, place: map<nat, Place>, t: nat, i: nat)
    requires TreeInv(tables, place) && t in place && i < ENTRIES
    ensures t in tables && |tables[t]| == ENTRIES && place[t].level <= 2 && IsRoot(place, place[t].root)
    ensures place[t].level > 0 && tables[t][i].flags.v ==>
              tables[t][i].frame in place && tables[t][i].flags == TABLE_FLAGS
              && place[tables[t][i].frame] == Place(place[t].root, place[t].level - 1, place[t].prefix * 512 + i, t)
  {
    assert Attached(tables, place, t) && ChildOk(tables, place, t, i);
  }

  lemma LevelAtMost(tables: Tables, place: map<nat, Place>, t: nat)
    requires TreeInv(tables, place) && t in place
    ensures place[t].level <= 2
  {
    assert Attached(tables, place, t);
  }

  /** t is the level-0 table in which `root` translates `page`. */
  ghost predicate LeafTable(tables: Tables, place: map<nat, Place>, root: nat, page: nat, t: nat)
    requires page < MAX_PAGE
  {
    && t in place && t in tables && |tables[t]| == ENTRIES
    && place[t].root == root && place[t].level == 0 && place[t].prefix == Prefix(0, page)
    && Entry(tables, root, page) == tables[t][Px(0, page)]
  }

  lemma LeafTableOnPath(tables: Tables, place: map<nat, Place>, t: nat, page: nat)
    requires TreeInv(tables, place) && t in place && page < MAX_PAGE
    requires place[t].level == 0 && place[t].prefix == Prefix(0, page)
    ensures LeafTable(tables, place, place[t].root, page, t)
  {
    hide TreeInv;
    TableFacts(tables, place, t, 0);
    OnPath(tables, place, t, page);
  }

  lemma MissingTable(tables: Tables, place: map<nat, Place>, leaves: Leaves, t: nat, page: nat)
    requires TreeInv(tables, place) && LeafInv(tables, place, leaves) && t in place && page < MAX_PAGE
    requires 0 < place[t].level <= 2 && place[t].prefix == Prefix(place[t].level, page)
    requires !Get(tables, t, Px(place[t].level, page)).flags.v
    ensures (place[t].root, page) !in leaves
  {
    var r := place[t].root;
    assert Attached(tables, place, t);
    if place[t].level == 1 { OnPath(tables, place, t, page); }
    assert LeafAt(tables, leaves, r, page);
  }

  lemma GrownBack(leaves0: Leaves, data0: map<nat, seq<Byte>>, leaves1: Leaves, data1: map<nat, seq<Byte>>, leaves2: Leaves,
                  root: nat, first: nat, upto: nat, flags: Flags)
    requires Grown(leaves0, data0, leaves1, data1, root, first, upto, flags) && first <= upto
    requires forall p :: first <= p < upto ==> (root, p) !in leaves0
    requires RemovesRange(leaves1, leaves2, root, first, upto - first)
    ensures leaves2 == leaves0
  {
    forall k: (nat, nat) ensures k in leaves2 <==> k in leaves0 {
      if k.0 == root && first <= k.1 < upto { assert (root, k.1) !in leaves0; }
    }
  }

  /** The user frames are those some entry names. */
  lemma SameFrames(leaves: Leaves, refs: map<nat, nat>, data: map<nat, seq<Byte>>)
    requires RefInv(leaves, refs, data, None)
    ensures forall f :: f in data <==> exists k :: k in Sharers(leaves, f)
  {
    forall f ensures f in data <==> exists k :: k in Sharers(leaves, f) {
      if f >= 0 { GrantedWhileNamed(leaves, refs, data, f); }
    }
  }

  lemma SameData(data0: map<nat, seq<Byte>>, data1: map<nat, seq<Byte>>, data2: map<nat, seq<Byte>>)
    requires (forall f :: f in data0 ==> f in data1 && data1[f] == data0[f]) && KeepsContents(data1, data2)
    requires forall f :: f in data2 <==> f in data0
    ensures data2 == data0
  {
  }

  lemma FreshFrame(tables: Tables, place: map<nat, Place>, data: map<nat, seq<Byte>>, refs: map<nat, nat>, f: nat, t: nat)
    requires FrameInv(tables, data, refs) && tables.Keys == place.Keys && f !in refs && t in tables
    ensures f !in tables && f !in place && f != t
  {
    assert f in tables.Keys <==> f in place.Keys;
  }

  lemma GrowFrames(tables: Tables, data: map<nat, seq<Byte>>, refs: map<nat, nat>, t: nat, x: seq<Pte>, f: nat, y: seq<Pte>, tables': Tables)
    requires FrameInv(tables, data, refs) && f !in refs && f > 0 && t in tables && tables' == tables[f := y][t := x]
    ensures FrameInv(tables', data, refs[f := 1])
  {
  }

  lemma GrowSpaces(tables: Tables, place: map<nat, Place>, t: nat, i: nat, f: nat, tables': Tables, place': map<nat, Place>)
    requires Hangs(tables, place, t, i, f, tables', place') && f !in tables
    ensures KeepsSpaces(tables, place, tables', place', place[t].root) && KeepsRoots(place, place')
  {
    hide ZeroTable;
  }
}
