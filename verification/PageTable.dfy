/**
 Three-level Sv39 page tables held in physical frames. `tables` gives the 512
 entries of every frame that is used as a page table. The ghost map `place`
 gives each such frame its one position, so no frame is reachable twice.
 */
module PageTable {

  /** The permission and status bits of a page-table entry. */
  datatype Flags = Flags(v: bool, r: bool, w: bool, x: bool, u: bool, g: bool, a: bool, d: bool, cow: bool, attr: nat)

  datatype Pte = Pte(frame: nat, flags: Flags)

  const NO_FLAGS := Flags(false, false, false, false, false, false, false, false, false, 0)
  const TABLE_FLAGS := NO_FLAGS.(v := true)
  const ZERO_PTE := Pte(0, NO_FLAGS)

  const ENTRIES: nat := 512
  /** MAXVA and USERTOP as page numbers. */
  const MAX_PAGE: nat := 0x400_0000
  const USER_PAGES: nat := 0x3FF_FFFD

  type Tables = map<nat, seq<Pte>>

  datatype Place = Place(root: nat, level: nat, prefix: nat, parent: nat)

  /** PX(level, va), with va given by its page number. */
  function Px(level: nat, page: nat): (i: nat)
    requires level <= 2 && page < MAX_PAGE
    ensures i < ENTRIES && (level == 2 ==> i < 256)
  {
    if level == 2 then page / 262144 else if level == 1 then (page / 512) % 512 else page % 512
  }

  /** The page-number bits above the given level. */
  function Prefix(level: nat, page: nat): nat
    requires level <= 2 && page < MAX_PAGE
  {
    if level == 2 then 0 else if level == 1 then page / 262144 else page / 512
  }

  lemma PrefixStep(level: nat, page: nat)
    requires 0 < level <= 2 && page < MAX_PAGE
    ensures Prefix(level - 1, page) == Prefix(level, page) * 512 + Px(level, page)
  {
  }

  function Get(tables: Tables, t: nat, i: nat): Pte {
    if t in tables && i < |tables[t]| then tables[t][i] else ZERO_PTE
  }

  /** The level-0 entry that translation of `page` from `root` ends at; zero when a table is missing. */
  function Entry(tables: Tables, root: nat, page: nat): Pte
    requires page < MAX_PAGE
  {
    var e2 := Get(tables, root, Px(2, page));
    if !e2.flags.v then ZERO_PTE else
    var e1 := Get(tables, e2.frame, Px(1, page));
    if !e1.flags.v then ZERO_PTE else Get(tables, e1.frame, Px(0, page))
  }

  ghost predicate IsRoot(place: map<nat, Place>, r: nat) {
    r in place && place[r] == Place(r, 2, 0, r)
  }

  ghost predicate Attached(tables: Tables, place: map<nat, Place>, t: nat)
    requires t in place
  {
    var p := place[t];
    p.level <= 2 && IsRoot(place, p.root) &&
    if p.level == 2 then p.root == t else
      && p.parent in place && place[p.parent].level == p.level + 1
      && place[p.parent].root == p.root && place[p.parent].prefix == p.prefix / 512
      && (p.level == 1 ==> p.prefix < 256)
      && Get(tables, p.parent, p.prefix % 512) == Pte(t, TABLE_FLAGS)
  }

  ghost predicate ChildOk(tables: Tables, place: map<nat, Place>, t: nat, i: nat)
    requires t in place
  {
    var e := Get(tables, t, i);
    e.flags.v && place[t].level > 0 ==>
      e.flags == TABLE_FLAGS && e.frame in place
      && place[e.frame] == Place(place[t].root, place[t].level - 1, place[t].prefix * 512 + i, t)
  }

  /** Every table has 512 entries, one position, and is pointed to from exactly that position. */
  ghost predicate TreeInv(tables: Tables, place: map<nat, Place>) {
    && tables.Keys == place.Keys
    && (forall t :: t in tables ==> |tables[t]| == ENTRIES)
    && (forall t :: t in place ==> Attached(tables, place, t))
    && (forall t, i :: t in place && 0 <= i < ENTRIES ==> ChildOk(tables, place, t, i))
  }

  /** Walking down from a root only meets tables placed under that root for that page. */
  lemma PathPlace(tables: Tables, place: map<nat, Place>, r: nat, page: nat)
    requires TreeInv(tables, place) && IsRoot(place, r) && page < MAX_PAGE
    ensures var e2 := Get(tables, r, Px(2, page));
            e2.flags.v ==>
              && e2.frame in place && place[e2.frame] == Place(r, 1, Prefix(1, page), r)
              && var e1 := Get(tables, e2.frame, Px(1, page));
                 e1.flags.v ==> e1.frame in place && place[e1.frame] == Place(r, 0, Prefix(0, page), e2.frame)
  {
    var e2 := Get(tables, r, Px(2, page));
    assert ChildOk(tables, place, r, Px(2, page));
    if e2.flags.v {
      assert ChildOk(tables, place, e2.frame, Px(1, page));
      PrefixStep(1, page);
    }
  }

  /** A placed table is on the path of every page it is placed for. */
  lemma OnPath(tables: Tables, place: map<nat, Place>, t: nat, page: nat)
    requires TreeInv(tables, place) && t in place && page < MAX_PAGE
    requires place[t].level <= 1 && place[t].prefix == Prefix(place[t].level, page)
    ensures var e2 := Get(tables, place[t].root, Px(2, page));
            && e2.flags.v
            && if place[t].level == 1 then e2.frame == t
               else var e1 := Get(tables, e2.frame, Px(1, page)); e1.flags.v && e1.frame == t
  {
    assert Attached(tables, place, t);
    if place[t].level == 0 {
      assert Attached(tables, place, place[t].parent);
    }
  }

  /** Writing one level-0 entry changes the translation of exactly one page of one space. */
  lemma SetLeaf(tables: Tables, place: map<nat, Place>, t: nat, i: nat, e: Pte, tables': Tables)
    requires TreeInv(tables, place) && t in place && place[t].level == 0 && i < ENTRIES && t in tables && |tables[t]| == ENTRIES
    requires tables' == tables[t := tables[t][i := e]]
    ensures TreeInv(tables', place)
  {
    forall u | u in place ensures Attached(tables', place, u) {
      assert Attached(tables, place, u);
    }
    forall u, j | u in place && 0 <= j < ENTRIES ensures ChildOk(tables', place, u, j) {
      assert ChildOk(tables, place, u, j);
    }
  }

  lemma SetLeafEntry(tables: Tables, place: map<nat, Place>, t: nat, i: nat, e: Pte, tables': Tables, r: nat, page: nat)
    requires TreeInv(tables, place) && t in place && place[t].level == 0 && i < ENTRIES && t in tables && |tables[t]| == ENTRIES
    requires tables' == tables[t := tables[t][i := e]]
    requires IsRoot(place, r) && page < MAX_PAGE
    ensures Entry(tables', r, page) ==
            if r == place[t].root && page == place[t].prefix * 512 + i then e else Entry(tables, r, page)
  {
    PathPlace(tables, place, r, page);
    if r == place[t].root && Prefix(0, page) == place[t].prefix {
      OnPath(tables, place, t, page);
    }
  }

  function ZeroTable(): (s: seq<Pte>)
    ensures |s| == ENTRIES && forall i :: 0 <= i < ENTRIES ==> s[i] == ZERO_PTE
  {
    seq(ENTRIES, _ => ZERO_PTE)
  }

  ghost predicate Hangs(tables: Tables, place: map<nat, Place>, t: nat, i: nat, f: nat, tables': Tables, place': map<nat, Place>) {
    && t in place && t in tables && i < ENTRIES && |tables[t]| == ENTRIES
    && 0 < place[t].level && (place[t].level == 2 ==> i < 256) && !tables[t][i].flags.v && f !in place
    && tables' == tables[f := ZeroTable()][t := tables[t][i := Pte(f, TABLE_FLAGS)]]
    && place' == place[f := Place(place[t].root, place[t].level - 1, place[t].prefix * 512 + i, t)]
  }

  lemma NewTableAttached(tables: Tables, place: map<nat, Place>, t: nat, i: nat, f: nat,
                         tables': Tables, place': map<nat, Place>, u: nat)
    requires Hangs(tables, place, t, i, f, tables', place') && u in place'
    requires Attached(tables, place, t) && (u in place ==> Attached(tables, place, u))
    requires u in place && place[u].level < 2 ==> place[u].parent in place
    ensures Attached(tables', place', u)
  {
  }

  lemma NewTableChild(tables: Tables, place: map<nat, Place>, t: nat, i: nat, f: nat,
                      tables': Tables, place': map<nat, Place>, u: nat, j: nat)
    requires Hangs(tables, place, t, i, f, tables', place') && u in place' && j < ENTRIES
    requires u in place ==> ChildOk(tables, place, u, j)
    ensures ChildOk(tables', place', u, j)
  {
  }

  /** Hanging a zeroed table under an invalid upper-level entry keeps the tree. */
  lemma NewTable(tables: Tables, place: map<nat, Place>, t: nat, i: nat, f: nat, tables': Tables, place': map<nat, Place>)
    requires TreeInv(tables, place) && Hangs(tables, place, t, i, f, tables', place')
    ensures TreeInv(tables', place')
  {
    hide Attached, ChildOk;
    assert Attached(tables, place, t);
    forall u | u in place' ensures Attached(tables', place', u) {
      AttachedParent(tables, place, u);
      NewTableAttached(tables, place, t, i, f, tables', place', u);
    }
    forall u, j | u in place' && 0 <= j < ENTRIES ensures ChildOk(tables', place', u, j) {
      NewTableChild(tables, place, t, i, f, tables', place', u, j);
    }
  }

  lemma AttachedParent(tables: Tables, place: map<nat, Place>, u: nat)
    requires TreeInv(tables, place)
    ensures u in place && place[u].level < 2 ==> place[u].parent in place
  {
    if u in place { assert Attached(tables, place, u); }
  }

  /** ... and every translation. */
  lemma NewTableEntry(tables: Tables, place: map<nat, Place>, t: nat, i: nat, f: nat,
                      tables': Tables, place': map<nat, Place>, r: nat, page: nat)
    requires TreeInv(tables, place) && Hangs(tables, place, t, i, f, tables', place')
    requires IsRoot(place, r) && page < MAX_PAGE
    ensures Entry(tables', r, page) == Entry(tables, r, page)
  {
    PathPlace(tables, place, r, page);
    hide TreeInv, Attached, ChildOk;
  }

  ghost predicate Roots(tables: Tables, place: map<nat, Place>, f: nat, tables': Tables, place': map<nat, Place>) {
    f !in place && tables' == tables[f := ZeroTable()] && place' == place[f := Place(f, 2, 0, f)]
  }

  lemma NewRootAttached(tables: Tables, place: map<nat, Place>, f: nat, tables': Tables, place': map<nat, Place>, u: nat)
    requires Roots(tables, place, f, tables', place') && u in place' && (u in place ==> Attached(tables, place, u))
    requires u in place && place[u].level < 2 ==> place[u].parent in place
    ensures Attached(tables', place', u)
  {
  }

  /** A fresh zeroed root adds an address space and keeps the others. */
  lemma NewRoot(tables: Tables, place: map<nat, Place>, f: nat, tables': Tables, place': map<nat, Place>)
    requires TreeInv(tables, place) && Roots(tables, place, f, tables', place')
    ensures TreeInv(tables', place')
  {
    hide Attached;
    forall u | u in place' ensures Attached(tables', place', u) {
      AttachedParent(tables, place, u);
      NewRootAttached(tables, place, f, tables', place', u);
    }
    forall u, j | u in place' && 0 <= j < ENTRIES ensures ChildOk(tables', place', u, j) {
      if u != f { assert ChildOk(tables, place, u, j); }
    }
  }

  lemma NewRootEntry(tables: Tables, place: map<nat, Place>, f: nat, tables': Tables, place': map<nat, Place>, r: nat, page: nat)
    requires TreeInv(tables, place) && Roots(tables, place, f, tables', place') && IsRoot(place', r) && page < MAX_PAGE
    ensures Entry(tables', r, page) == if r == f then ZERO_PTE else Entry(tables, r, page)
  {
    hide TreeInv, Attached, ChildOk;
    if r != f { PathPlace(tables, place, r, page); }
  }

  // ----- all translations of all address spaces as one map -----

  type Leaves = map<(nat, nat), Pte>

  ghost predicate LeafAt(tables: Tables, leaves: Leaves, r: nat, page: nat)
    requires page < MAX_PAGE
  {
    var e := Entry(tables, r, page);
    ((r, page) in leaves <==> e.flags.v) && (e.flags.v ==> leaves[(r, page)] == e)
  }

  /** `leaves` is exactly what the tables translate: (root, page) to leaf entry. */
  ghost predicate LeafInv(tables: Tables, place: map<nat, Place>, leaves: Leaves) {
    && (forall k :: k in leaves ==> IsRoot(place, k.0) && k.1 < MAX_PAGE)
    && (forall r, page :: IsRoot(place, r) && 0 <= page < MAX_PAGE ==> LeafAt(tables, leaves, r, page))
  }

  function SetKey(leaves: Leaves, k: (nat, nat), e: Pte): Leaves {
    if e.flags.v then leaves[k := e] else leaves - {k}
  }

  lemma SetLeafLeaves(tables: Tables, place: map<nat, Place>, leaves: Leaves, t: nat, i: nat, e: Pte, tables': Tables)
    requires TreeInv(tables, place) && LeafInv(tables, place, leaves)
    requires t in place && place[t].level == 0 && i < ENTRIES && t in tables && |tables[t]| == ENTRIES
    requires place[t].prefix * 512 + i < MAX_PAGE
    requires tables' == tables[t := tables[t][i := e]]
    ensures TreeInv(tables', place)
    ensures LeafInv(tables', place, SetKey(leaves, (place[t].root, place[t].prefix * 512 + i), e))
  {
    hide Entry, TreeInv, LeafAt, SetKey;
    SetLeaf(tables, place, t, i, e, tables');
    OwnRoot(tables, place, t);
    var k := (place[t].root, place[t].prefix * 512 + i);
    var leaves' := SetKey(leaves, k, e);
    forall r, page | IsRoot(place, r) && 0 <= page < MAX_PAGE ensures LeafAt(tables', leaves', r, page) {
      assert LeafAt(tables, leaves, r, page);
      SetLeafEntry(tables, place, t, i, e, tables', r, page);
      SetKeyLeaf(tables, leaves, k, e, tables', r, page);
    }
    SetKeyIn(leaves, k, e);
  }

  lemma OwnRoot(tables: Tables, place: map<nat, Place>, t: nat)
    requires TreeInv(tables, place) && t in place
    ensures IsRoot(place, place[t].root)
  {
    assert Attached(tables, place, t);
  }

  lemma SetKeyIn(leaves: Leaves, k: (nat, nat), e: Pte)
    ensures forall j :: j in SetKey(leaves, k, e) ==> j in leaves || j == k
  {
  }

  lemma SetKeyLeaf(tables: Tables, leaves: Leaves, k: (nat, nat), e: Pte, tables': Tables, r: nat, page: nat)
    requires page < MAX_PAGE && LeafAt(tables, leaves, r, page)
    requires Entry(tables', r, page) == if r == k.0 && page == k.1 then e else Entry(tables, r, page)
    ensures LeafAt(tables', SetKey(leaves, k, e), r, page)
  {
    hide Entry;
  }

  lemma HangsRoots(tables: Tables, place: map<nat, Place>, t: nat, i: nat, f: nat, tables': Tables, place': map<nat, Place>)
    requires TreeInv(tables, place) && Hangs(tables, place, t, i, f, tables', place')
    ensures forall r :: IsRoot(place', r) <==> IsRoot(place, r)
  {
    assert place[t].level <= 2 by { assert Attached(tables, place, t); }
    hide TreeInv;
  }

  lemma SameEntryLeaf(tables: Tables, tables': Tables, leaves: Leaves, r: nat, page: nat)
    requires page < MAX_PAGE && LeafAt(tables, leaves, r, page) && Entry(tables', r, page) == Entry(tables, r, page)
    ensures LeafAt(tables', leaves, r, page)
  {
  }

  lemma NewTableLeaves(tables: Tables, place: map<nat, Place>, leaves: Leaves, t: nat, i: nat, f: nat,
                       tables': Tables, place': map<nat, Place>)
    requires TreeInv(tables, place) && LeafInv(tables, place, leaves) && Hangs(tables, place, t, i, f, tables', place')
    ensures TreeInv(tables', place') && LeafInv(tables', place', leaves)
    ensures forall r :: IsRoot(place', r) <==> IsRoot(place, r)
  {
    hide Entry, TreeInv, Hangs, IsRoot, LeafAt;
    NewTable(tables, place, t, i, f, tables', place');
    HangsRoots(tables, place, t, i, f, tables', place');
    forall r, page | IsRoot(place', r) && 0 <= page < MAX_PAGE ensures LeafAt(tables', leaves, r, page) {
      assert LeafAt(tables, leaves, r, page);
      NewTableEntry(tables, place, t, i, f, tables', place', r, page);
      SameEntryLeaf(tables, tables', leaves, r, page);
    }
  }

  lemma NewRootLeaves(tables: Tables, place: map<nat, Place>, leaves: Leaves, f: nat, tables': Tables, place': map<nat, Place>)
    requires TreeInv(tables, place) && LeafInv(tables, place, leaves) && Roots(tables, place, f, tables', place')
    ensures TreeInv(tables', place') && LeafInv(tables', place', leaves)
  {
    hide Entry, TreeInv;
    NewRoot(tables, place, f, tables', place');
    forall r, page | IsRoot(place', r) && 0 <= page < MAX_PAGE ensures LeafAt(tables', leaves, r, page) {
      if r != f { assert LeafAt(tables, leaves, r, page); }
      NewRootEntry(tables, place, f, tables', place', r, page);
    }
  }

  // ----- subtrees -----

  /** The digits of a position `up` levels above a table. */
  function Above(prefix: nat, up: nat): nat {
    if up == 0 then prefix else if up == 1 then prefix / 512 else prefix / 262144
  }

  /** Table u lies in the subtree of table t. */
  ghost predicate Under(place: map<nat, Place>, t: nat, u: nat) {
    && t in place && u in place && place[u].root == place[t].root && place[u].level <= place[t].level <= 2
    && Above(place[u].prefix, place[t].level - place[u].level) == place[t].prefix
  }

  /** The entry of t through which u, strictly below t, is reached. */
  ghost function Digit(place: map<nat, Place>, t: nat, u: nat): nat
    requires Under(place, t, u) && place[u].level < place[t].level
  {
    Above(place[u].prefix, place[t].level - place[u].level - 1) % 512
  }

  ghost function Subtree(place: map<nat, Place>, t: nat): set<nat> {
    set u | u in place && Under(place, t, u)
  }

  /** The part of t's subtree that hangs under its entries below i. */
  ghost function Below(place: map<nat, Place>, t: nat, i: nat): set<nat> {
    set u | u in place && Under(place, t, u) && place[u].level < place[t].level && Digit(place, t, u) < i
  }

  lemma UniquePlace(tables: Tables, place: map<nat, Place>, t: nat, u: nat)
    requires TreeInv(tables, place) && t in place && u in place && place[t].level <= 2
    requires place[t].root == place[u].root && place[t].level == place[u].level && place[t].prefix == place[u].prefix
    ensures t == u
    decreases 2 - place[t].level
  {
    assert Attached(tables, place, t) && Attached(tables, place, u);
    if place[t].level < 2 {
      UniquePlace(tables, place, place[t].parent, place[u].parent);
    }
  }

  lemma SubtreeChild(tables: Tables, place: map<nat, Place>, t: nat, i: nat)
    requires TreeInv(tables, place) && t in place && i < ENTRIES && Get(tables, t, i).flags.v && place[t].level > 0
    ensures Below(place, t, i + 1) == Below(place, t, i) + Subtree(place, Get(tables, t, i).frame)
    ensures Below(place, t, i) !! Subtree(place, Get(tables, t, i).frame)
  {
    assert ChildOk(tables, place, t, i) && Attached(tables, place, t);
    hide TreeInv, Attached, ChildOk;
  }

  lemma SubtreeNone(tables: Tables, place: map<nat, Place>, t: nat, i: nat)
    requires TreeInv(tables, place) && t in place && i < ENTRIES && !Get(tables, t, i).flags.v
    ensures Below(place, t, i + 1) == Below(place, t, i)
  {
    assert Attached(tables, place, t);
    forall u | u in Below(place, t, i + 1) ensures Digit(place, t, u) != i {
      assert Attached(tables, place, u);
      var p := place[u].parent;
      if place[u].level + 1 == place[t].level {
        UniquePlace(tables, place, t, p);
      } else {
        assert Attached(tables, place, p);
      }
    }
  }

  lemma SubtreeAll(tables: Tables, place: map<nat, Place>, t: nat)
    requires TreeInv(tables, place) && t in place
    ensures t !in Below(place, t, ENTRIES)
    ensures Subtree(place, t) == Below(place, t, ENTRIES) + {t}
  {
    assert Attached(tables, place, t);
    forall u | u in Subtree(place, t) && place[u].level == place[t].level ensures u == t {
      UniquePlace(tables, place, t, u);
    }
  }

  lemma SubtreeRoot(tables: Tables, place: map<nat, Place>, r: nat)
    requires TreeInv(tables, place) && IsRoot(place, r)
    ensures Subtree(place, r) == set u | u in place && place[u].root == r
  {
    forall u | u in place && place[u].root == r ensures Under(place, r, u) {
      assert Attached(tables, place, u);
      if place[u].level == 0 { assert Attached(tables, place, place[u].parent); }
    }
  }

  // ----- the tables a space needs -----

  /** The positions, level and prefix, at which a space has tables. */
  ghost function Spots(place: map<nat, Place>, root: nat): set<(nat, nat)> {
    set t | t in place && place[t].root == root :: (place[t].level, place[t].prefix)
  }

  /** The positions below the root that a walk to a page passes. */
  ghost function Way(page: nat): set<(nat, nat)> {
    {(1, page / 262144), (0, page / 512)}
  }

  /** The pages lo .. hi. */
  ghost function Span(lo: nat, hi: nat): (s: set<nat>)
    ensures forall p :: p in s <==> lo <= p < hi
    ensures |s| == if lo <= hi then hi - lo else 0
  {
    if hi <= lo then {} else Span(lo, hi - 1) + {hi - 1}
  }

  ghost function Ways(pages: set<nat>): set<(nat, nat)> {
    set p, s | p in pages && s in Way(p) :: s
  }

  lemma WaysMore(pages: set<nat>, page: nat)
    ensures Ways(pages + {page}) == Ways(pages) + Way(page)
  {
    hide Way;
    forall s ensures s in Ways(pages + {page}) <==> s in Ways(pages) + Way(page) {
      if s in Way(page) { assert page in pages + {page}; }
    }
  }

  lemma SpanMore(lo: nat, a: nat)
    requires lo <= a
    ensures Ways(Span(lo, a + 1)) == Ways(Span(lo, a)) + Way(a)
  {
    hide Ways, Way;
    assert Span(lo, a + 1) == Span(lo, a) + {a};
    WaysMore(Span(lo, a), a);
  }

  lemma SpanNone(lo: nat)
    ensures Span(lo, lo) == {} && Ways(Span(lo, lo)) == {}
  {
  }

  lemma NoSpan(lo: nat, hi: nat)
    requires hi <= lo
    ensures Ways(Span(lo, hi)) == {}
  {
  }

  lemma SpanMono(lo: nat, mid: nat, hi: nat)
    requires mid <= hi
    ensures Ways(Span(lo, mid)) <= Ways(Span(lo, hi))
  {
    hide Ways;
    WaysMono(Span(lo, mid), Span(lo, hi));
  }

  lemma WaysMono(pages: set<nat>, more: set<nat>)
    requires pages <= more
    ensures Ways(pages) <= Ways(more)
  {
    hide Way;
  }

  /** From place0 to place the space gets the tables at `ways` that it did not have, one free page each. */
  ghost predicate Built(place0: map<nat, Place>, room0: int, place: map<nat, Place>, room: int, root: nat, ways: set<(nat, nat)>) {
    Spots(place, root) == Spots(place0, root) + ways && room + |ways - Spots(place0, root)| == room0
  }

  lemma BuiltNone(place: map<nat, Place>, room: int, root: nat)
    ensures Built(place, room, place, room, root, {})
  {
    hide Spots;
  }

  lemma BuiltTrans(p0: map<nat, Place>, r0: int, p1: map<nat, Place>, r1: int, p2: map<nat, Place>, r2: int, root: nat,
                   a: set<(nat, nat)>, b: set<(nat, nat)>)
    requires Built(p0, r0, p1, r1, root, a) && Built(p1, r1, p2, r2, root, b)
    ensures Built(p0, r0, p2, r2, root, a + b)
  {
    hide Spots;
    var s0, s1 := Spots(p0, root), Spots(p1, root);
    assert (a + b) - s0 == (a - s0) + (b - s1);
    assert (a - s0) !! (b - s1);
  }

  /** A table that is there already. */
  lemma BuiltHere(place: map<nat, Place>, room: int, root: nat, t: nat)
    requires t in place && place[t].root == root
    ensures Built(place, room, place, room, root, {(place[t].level, place[t].prefix)})
  {
    assert (place[t].level, place[t].prefix) in Spots(place, root);
    hide Spots;
    assert {(place[t].level, place[t].prefix)} - Spots(place, root) == {};
  }

  /** Under an empty entry there is no table. */
  lemma SpotFree(tables: Tables, place: map<nat, Place>, t: nat, i: nat)
    requires TreeInv(tables, place) && t in place && 0 < place[t].level <= 2 && i < ENTRIES && !Get(tables, t, i).flags.v
    ensures (place[t].level - 1, place[t].prefix * 512 + i) !in Spots(place, place[t].root)
  {
    forall u | u in place && place[u].root == place[t].root
      ensures place[u].level != place[t].level - 1 || place[u].prefix != place[t].prefix * 512 + i
    {
      assert Attached(tables, place, u) && Attached(tables, place, t);
      if place[u].level == place[t].level - 1 && place[u].prefix == place[t].prefix * 512 + i {
        UniquePlace(tables, place, t, place[u].parent);
      }
    }
  }

  lemma BuiltNew(tables: Tables, place: map<nat, Place>, t: nat, i: nat, f: nat, place': map<nat, Place>, room: int)
    requires TreeInv(tables, place) && t in place && 0 < place[t].level <= 2 && i < ENTRIES && !Get(tables, t, i).flags.v
    requires f !in place && place' == place[f := Place(place[t].root, place[t].level - 1, place[t].prefix * 512 + i, t)]
    ensures Built(place, room + 1, place', room, place[t].root, {(place[t].level - 1, place[t].prefix * 512 + i)})
  {
    SpotFree(tables, place, t, i);
    hide TreeInv;
    var spot, root := (place[t].level - 1, place[t].prefix * 512 + i), place[t].root;
    assert place'[f].root == root && spot == (place'[f].level, place'[f].prefix);
    assert forall u :: u in place ==> u != f && place'[u] == place[u];
    forall x ensures x in Spots(place', root) <==> x in Spots(place, root) || x == spot {
      if x in Spots(place', root) && x != spot {
        var u :| u in place' && place'[u].root == root && (place'[u].level, place'[u].prefix) == x;
        assert u in place;
      }
    }
    assert {spot} - Spots(place, root) == {spot};
  }

  /** Pages that went elsewhere count on both sides. */
  lemma BuiltShift(p0: map<nat, Place>, r0: int, p1: map<nat, Place>, r1: int, root: nat, ways: set<(nat, nat)>, k: int)
    requires Built(p0, r0, p1, r1, root, ways)
    ensures Built(p0, r0 + k, p1, r1 + k, root, ways)
  {
  }

  lemma BuiltFits(p0: map<nat, Place>, r0: int, p1: map<nat, Place>, r1: nat, root: nat, ways: set<(nat, nat)>)
    requires Built(p0, r0, p1, r1, root, ways)
    ensures |ways - Spots(p0, root)| <= r0
  {
  }

  lemma OneSpot(place: map<nat, Place>, root: nat, spot: (nat, nat))
    requires spot !in Spots(place, root)
    ensures |{spot} - Spots(place, root)| == 1
  {
    assert {spot} - Spots(place, root) == {spot};
  }

  /** The way to a page in terms of prefixes. */
  lemma WayPassed(page: nat, level: nat)
    requires page < MAX_PAGE && 0 < level <= 2
    ensures Way(page) == {(1, Prefix(1, page)), (0, Prefix(0, page))} && (level - 1, Prefix(level - 1, page)) in Way(page)
  {
  }

  /** Not having the pages for what is still missing is not having had those for all of it. */
  lemma BuiltShort(p0: map<nat, Place>, r0: int, p1: map<nat, Place>, r1: int, root: nat, a: set<(nat, nat)>, b: set<(nat, nat)>,
                   all: set<(nat, nat)>)
    requires Built(p0, r0, p1, r1, root, a) && a + b <= all
    ensures r0 - |all - Spots(p0, root)| <= r1 - |b - Spots(p1, root)|
  {
    hide Spots;
    var s0, s1 := Spots(p0, root), Spots(p1, root);
    var both := (a - s0) + (b - s1);
    assert (a - s0) !! (b - s1) && both <= all - s0;
    assert all - s0 == both + ((all - s0) - both);
  }
}
