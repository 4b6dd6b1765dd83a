/**
 Copies between the kernel and user address spaces: scattered frames seen as
 flat memory by copyin, copyout and loadseg.
 */
module UserMemory {
  import opened Wrappers
  import opened PageTable
  import opened Vm
  import BuddyAllocator
  import FileSystem
  import opened MmapRegions

  /** `page` is mapped for the user, and writable if w is asked for. */
  ghost predicate Access(leaves: Leaves, root: nat, page: nat, w: bool) {
    (root, page) in leaves && leaves[(root, page)].flags.u && (w ==> leaves[(root, page)].flags.w)
  }

  /** Every byte of va .. va + n is accessible. */
  ghost predicate Accessible(leaves: Leaves, root: nat, va: nat, n: nat, w: bool) {
    forall a :: va <= a < va + n ==> Access(leaves, root, a / PGSIZE, w)
  }

  /** User leaves are below USERTOP and nothing is copy-on-write. */
  ghost predicate UserLeaves(leaves: Leaves) {
    forall k :: k in leaves ==> !leaves[k].flags.cow && (leaves[k].flags.u ==> k.1 < USER_PAGES)
  }

  ghost predicate Ready(m: Memory, root: nat)
    reads m, m.buddy, m.buddy.pages, m.buddy.heads
  {
    m.Valid(None) && IsRoot(m.place, root) && UserLeaves(m.leaves)
  }

  ghost function Target(leaves: Leaves, root: nat, a: nat): (nat, nat)
    requires (root, a / PGSIZE) in leaves
  {
    (leaves[(root, a / PGSIZE)].frame, a % PGSIZE)
  }

  /** Physical byte x belongs to virtual address a. */
  ghost predicate Hits(leaves: Leaves, root: nat, a: nat, x: (nat, nat)) {
    (root, a / PGSIZE) in leaves && Target(leaves, root, a) == x
  }

  ghost function ByteOf(data: map<nat, seq<Byte>>, x: (nat, nat)): Byte {
    if x.0 in data && x.1 < |data[x.0]| then data[x.0][x.1] else 0
  }

  /** The byte that address a of the space reads as. */
  ghost function View(leaves: Leaves, data: map<nat, seq<Byte>>, root: nat, a: nat): Byte
    requires (root, a / PGSIZE) in leaves
  {
    ByteOf(data, Target(leaves, root, a))
  }

  /** data' is data with `bytes` stored at va of the space, and nothing else touched. */
  ghost predicate Wrote(leaves: Leaves, data: map<nat, seq<Byte>>, data': map<nat, seq<Byte>>, root: nat, va: nat, bytes: seq<Byte>) {
    && ReadsBack(leaves, data', root, va, bytes)
    && forall x :: Missed(leaves, root, va, |bytes|, x) ==> ByteOf(data', x) == ByteOf(data, x)
  }

  /** The space reads `bytes` at va. */
  ghost predicate ReadsBack(leaves: Leaves, data: map<nat, seq<Byte>>, root: nat, va: nat, bytes: seq<Byte>) {
    forall a :: va <= a < va + |bytes| ==> ReadsByte(leaves, data, root, va, bytes, a)
  }

  ghost predicate ReadsByte(leaves: Leaves, data: map<nat, seq<Byte>>, root: nat, va: nat, bytes: seq<Byte>, a: nat) {
    va <= a < va + |bytes| && (root, a / PGSIZE) in leaves && View(leaves, data, root, a) == bytes[a - va]
  }

  /** Physical byte x is at none of the addresses va .. va + n. */
  ghost predicate Missed(leaves: Leaves, root: nat, va: nat, n: nat, x: (nat, nat)) {
    forall a :: va <= a < va + n ==> !Hits(leaves, root, a, x)
  }

  /** memmove into one frame. */
  function Splice(s: seq<Byte>, off: nat, bytes: seq<Byte>): (r: seq<Byte>)
    requires off + |bytes| <= |s|
    ensures |r| == |s|
    ensures forall i :: 0 <= i < |s| ==> r[i] == if off <= i < off + |bytes| then bytes[i - off] else s[i]
  {
    s[..off] + bytes + s[off + |bytes|..]
  }

  lemma WroteNothing(leaves: Leaves, data: map<nat, seq<Byte>>, root: nat, va: nat)
    ensures Wrote(leaves, data, data, root, va, [])
  {
  }

  /** A piece is written at mid, within one page mapped to frame f. */
  ghost predicate PieceAt(leaves: Leaves, data: map<nat, seq<Byte>>, root: nat, mid: nat, piece: seq<Byte>, data': map<nat, seq<Byte>>, f: nat) {
    && Access(leaves, root, mid / PGSIZE, false) && leaves[(root, mid / PGSIZE)].frame == f
    && f in data && |data[f]| == PGSIZE && mid % PGSIZE + |piece| <= PGSIZE
    && data' == data[f := Splice(data[f], mid % PGSIZE, piece)]
  }

  lemma PieceReads(leaves: Leaves, data: map<nat, seq<Byte>>, root: nat, mid: nat, piece: seq<Byte>, data': map<nat, seq<Byte>>, f: nat, a: nat)
    requires PieceAt(leaves, data, root, mid, piece, data', f) && mid <= a < mid + |piece|
    ensures Access(leaves, root, a / PGSIZE, false) && View(leaves, data', root, a) == piece[a - mid]
  {
    assert a / PGSIZE == mid / PGSIZE && a % PGSIZE == mid % PGSIZE + (a - mid);
  }

  lemma PieceMisses(leaves: Leaves, data: map<nat, seq<Byte>>, root: nat, mid: nat, piece: seq<Byte>, data': map<nat, seq<Byte>>, f: nat, a: nat)
    requires PieceAt(leaves, data, root, mid, piece, data', f) && a < mid
    requires Unaliased(leaves) && UserLeaves(leaves) && Access(leaves, root, a / PGSIZE, false)
    ensures View(leaves, data', root, a) == View(leaves, data, root, a)
  {
    if leaves[(root, a / PGSIZE)].frame == f {
      OtherPageSameFrame(leaves, root, a / PGSIZE, mid / PGSIZE);
    }
    hide Unaliased, UserLeaves;
  }

  lemma PieceElsewhere(leaves: Leaves, data: map<nat, seq<Byte>>, root: nat, mid: nat, piece: seq<Byte>, data': map<nat, seq<Byte>>, f: nat,
                       x: (nat, nat))
    requires PieceAt(leaves, data, root, mid, piece, data', f)
    requires Missed(leaves, root, mid, |piece|, x)
    ensures ByteOf(data', x) == ByteOf(data, x)
  {
    if x.0 == f && mid % PGSIZE <= x.1 < mid % PGSIZE + |piece| {
      assert Hits(leaves, root, mid + (x.1 - mid % PGSIZE), x);
    }
  }

  lemma MissedParts(leaves: Leaves, root: nat, va: nat, n: nat, k: nat, x: (nat, nat))
    requires Missed(leaves, root, va, n + k, x)
    ensures Missed(leaves, root, va, n, x) && Missed(leaves, root, va + n, k, x)
  {
    hide Hits;
  }

  lemma WroteAt(leaves: Leaves, data: map<nat, seq<Byte>>, root: nat, va: nat, done: seq<Byte>,
                piece: seq<Byte>, data': map<nat, seq<Byte>>, f: nat, a: nat)
    requires ReadsBack(leaves, data, root, va, done) && Unaliased(leaves) && UserLeaves(leaves)
    requires Accessible(leaves, root, va, |done|, false) && va <= a < va + |done + piece|
    requires PieceAt(leaves, data, root, va + |done|, piece, data', f)
    ensures Access(leaves, root, a / PGSIZE, false) && ReadsByte(leaves, data', root, va, done + piece, a)
  {
    hide PieceAt, Unaliased, UserLeaves, View;
    var mid := va + |done|;
    if a < mid {
      assert Access(leaves, root, a / PGSIZE, false);
      assert ReadsByte(leaves, data, root, va, done, a);
      PieceMisses(leaves, data, root, mid, piece, data', f, a);
    } else {
      PieceReads(leaves, data, root, mid, piece, data', f, a);
    }
  }

  /** Appending a piece that stays within one page. */
  lemma WroteStep(leaves: Leaves, data0: map<nat, seq<Byte>>, data: map<nat, seq<Byte>>, root: nat, va: nat, done: seq<Byte>,
                  piece: seq<Byte>, data': map<nat, seq<Byte>>, f: nat)
    requires Wrote(leaves, data0, data, root, va, done) && Unaliased(leaves) && UserLeaves(leaves)
    requires Accessible(leaves, root, va, |done|, false)
    requires PieceAt(leaves, data, root, va + |done|, piece, data', f)
    ensures Wrote(leaves, data0, data', root, va, done + piece)
    ensures Accessible(leaves, root, va, |done + piece|, false)
  {
    hide PieceAt, Unaliased, UserLeaves, ByteOf, Missed, ReadsByte, Access;
    forall a | va <= a < va + |done + piece|
      ensures Access(leaves, root, a / PGSIZE, false) && ReadsByte(leaves, data', root, va, done + piece, a)
    {
      WroteAt(leaves, data, root, va, done, piece, data', f, a);
    }
    forall x: (nat, nat) | Missed(leaves, root, va, |done + piece|, x) ensures ByteOf(data', x) == ByteOf(data0, x) {
      MissedParts(leaves, root, va, |done|, |piece|, x);
      PieceElsewhere(leaves, data, root, va + |done|, piece, data', f, x);
    }
  }

  lemma OtherPageSameFrame(leaves: Leaves, root: nat, p: nat, q: nat)
    requires Unaliased(leaves) && UserLeaves(leaves) && Access(leaves, root, p, false) && Access(leaves, root, q, false)
    requires leaves[(root, p)].frame == leaves[(root, q)].frame
    ensures p == q
  {
  }

  lemma LeafOf(m: Memory, root: nat, page: nat)
    requires Ready(m, root) && Access(m.leaves, root, page, false)
    ensures page < USER_PAGES && m.leaves[(root, page)].frame in m.data && m.leaves[(root, page)].frame > 0
    ensures |m.data[m.leaves[(root, page)].frame]| == PGSIZE && Unaliased(m.leaves)
  {
    hide TreeInv, LeafInv, Sharers;
  }

  /** walkaddr: the frame of a user page; None is the zero address. */
  method WalkAddr(m: Memory, root: nat, page: nat) returns (r: Option<nat>)
    requires Ready(m, root)
    modifies m`tables, m`refs, m`place, m.buddy, m.buddy.pages, m.buddy.heads
    ensures Ready(m, root) && m.tables == old(m.tables) && m.refs == old(m.refs) && m.place == old(m.place)
    ensures r == if Access(m.leaves, root, page, false) then Some(m.leaves[(root, page)].frame) else None
  {
    hide TreeInv, RefInv, FrameInv, LeafFlags, LeafTable;
    if page >= MAX_PAGE {
      return None;
    }
    var t := m.Walk(root, page, false);
    if t.None? {
      return None;
    }
    LeafValue(m.tables, m.place, m.leaves, root, page, t.value);
    var pte := m.tables[t.value][Px(0, page)];
    if !pte.flags.v || !pte.flags.u {
      return None;
    }
    r := Some(pte.frame);
  }

  /** alloc_cow_page for memory that has no copy-on-write pages: whether copyout must fail. */
  method CowCheck(m: Memory, root: nat, page: nat) returns (fail: bool)
    requires Ready(m, root)
    modifies m`tables, m`refs, m`place, m.buddy, m.buddy.pages, m.buddy.heads
    ensures Ready(m, root) && m.tables == old(m.tables) && m.refs == old(m.refs) && m.place == old(m.place)
    ensures fail <==> page >= MAX_PAGE || (Access(m.leaves, root, page, false) && !Access(m.leaves, root, page, true))
    ensures page >= MAX_PAGE ==> !Access(m.leaves, root, page, false)
  {
    hide TreeInv, RefInv, FrameInv, LeafFlags, LeafTable;
    if page >= MAX_PAGE {
      return true;
    }
    var t := m.Walk(root, page, false);
    if t.None? {
      return false;
    }
    LeafValue(m.tables, m.place, m.leaves, root, page, t.value);
    var pte := m.tables[t.value][Px(0, page)];
    if !pte.flags.v || !pte.flags.u {
      return false;
    }
    fail := !pte.flags.w;
  }

  lemma AccessibleStep(leaves: Leaves, root: nat, va: nat, n: nat, k: nat, w: bool)
    requires Accessible(leaves, root, va, n, w) && Access(leaves, root, (va + n) / PGSIZE, w)
    requires (va + n) % PGSIZE + k <= PGSIZE
    ensures Accessible(leaves, root, va, n + k, w)
  {
    forall a | va <= a < va + n + k ensures Access(leaves, root, a / PGSIZE, w) {
      if a >= va + n { assert a / PGSIZE == (va + n) / PGSIZE; }
    }
  }

  /**
   copyout. It succeeds exactly when every byte is on a writable user page;
   when it fails it has stored the bytes before the first one that is not.
   */
  method CopyOut(m: Memory, root: nat, dstva: nat, src: seq<Byte>) returns (ok: bool, ghost n: nat)
    requires Ready(m, root)
    modifies m`data, m`tables, m`refs, m`place, m.buddy, m.buddy.pages, m.buddy.heads
    ensures Ready(m, root) && m.tables == old(m.tables) && m.refs == old(m.refs) && m.place == old(m.place)
    ensures ok <==> forall a :: dstva <= a < dstva + |src| ==>
              (root, a / PGSIZE) in m.leaves && m.leaves[(root, a / PGSIZE)].flags.u && m.leaves[(root, a / PGSIZE)].flags.w
    ensures n <= |src| && (ok ==> n == |src|) && Accessible(m.leaves, root, dstva, n, true)
    ensures !ok ==> !Access(m.leaves, root, (dstva + n) / PGSIZE, true)
    ensures Wrote(m.leaves, old(m.data), m.data, root, dstva, src[..n])
  {
    hide Wrote, Ready, Accessible, RefInv;
    var done := 0;
    WroteNothing(m.leaves, m.data, root, dstva);
    EmptyRange(m.leaves, root, dstva, true);
    assert src[..0] == [];
    while done < |src|
      invariant 0 <= done <= |src| && Ready(m, root)
      invariant m.tables == old(m.tables) && m.refs == old(m.refs) && m.place == old(m.place)
      invariant Accessible(m.leaves, root, dstva, done, true)
      invariant Wrote(m.leaves, old(m.data), m.data, root, dstva, src[..done])
    {
      var a := dstva + done;
      var bad := CowCheck(m, root, a / PGSIZE);
      if bad {
        Blocked(m.leaves, root, dstva, |src|, a, true);
        AccessMeans(m.leaves, root, dstva, |src|);
        return false, done;
      }
      var f := WalkAddr(m, root, a / PGSIZE);
      if f.None? {
        Blocked(m.leaves, root, dstva, |src|, a, true);
        AccessMeans(m.leaves, root, dstva, |src|);
        return false, done;
      }
      var k := if PGSIZE - a % PGSIZE > |src| - done then |src| - done else PGSIZE - a % PGSIZE;
      Weaken(m.leaves, root, dstva, done);
      Store(m, root, f.value, a % PGSIZE, dstva, src[done..done + k], old(m.data), src[..done]);
      AccessibleStep(m.leaves, root, dstva, done, k, true);
      assert src[..done] + src[done..done + k] == src[..done + k];
      done := done + k;
    }
    assert src[..done] == src;
    AccessMeans(m.leaves, root, dstva, |src|);
    ok, n := true, done;
  }

  /** memmove of a piece that stays in one page of the space, after `done` has been stored from va on. */
  method Store(m: Memory, root: nat, f: nat, off: nat, ghost va: nat, piece: seq<Byte>, ghost data0: map<nat, seq<Byte>>, ghost done: seq<Byte>)
    requires Ready(m, root) && Wrote(m.leaves, data0, m.data, root, va, done) && Accessible(m.leaves, root, va, |done|, false)
    requires Access(m.leaves, root, (va + |done|) / PGSIZE, false) && m.leaves[(root, (va + |done|) / PGSIZE)].frame == f
    requires off == (va + |done|) % PGSIZE && off + |piece| <= PGSIZE
    modifies m`data
    ensures Ready(m, root) && Wrote(m.leaves, data0, m.data, root, va, done + piece)
    ensures Accessible(m.leaves, root, va, |done + piece|, false)
  {
    hide Wrote, Ready, Accessible, RefInv, TreeInv, LeafInv, Memory.Backing, BuddyAllocator.ListInv, BuddyAllocator.BlockInv;
    LeafOf(m, root, (va + |done|) / PGSIZE);
    ReadyData(m, root);
    ghost var data1 := m.data;
    m.data := m.data[f := Splice(m.data[f], off, piece)];
    DataReady(m, root, data1);
    WroteStep(m.leaves, data0, data1, root, va, done, piece, m.data, f);
  }

  lemma EmptyRange(leaves: Leaves, root: nat, va: nat, w: bool)
    ensures Accessible(leaves, root, va, 0, w)
  {
  }

  lemma AccessMeans(leaves: Leaves, root: nat, va: nat, n: nat)
    ensures Accessible(leaves, root, va, n, true) <==> forall a :: va <= a < va + n ==>
              (root, a / PGSIZE) in leaves && leaves[(root, a / PGSIZE)].flags.u && leaves[(root, a / PGSIZE)].flags.w
  {
    if Accessible(leaves, root, va, n, true) {
      forall a | va <= a < va + n
        ensures (root, a / PGSIZE) in leaves && leaves[(root, a / PGSIZE)].flags.u && leaves[(root, a / PGSIZE)].flags.w
      {
        assert Access(leaves, root, a / PGSIZE, true);
      }
    }
  }

  lemma Blocked(leaves: Leaves, root: nat, va: nat, n: nat, a: nat, w: bool)
    requires va <= a < va + n && !Access(leaves, root, a / PGSIZE, w)
    ensures !Accessible(leaves, root, va, n, w)
  {
  }

  lemma Weaken(leaves: Leaves, root: nat, va: nat, n: nat)
    requires Accessible(leaves, root, va, n, true)
    ensures Accessible(leaves, root, va, n, false)
  {
    forall a | va <= a < va + n ensures Access(leaves, root, a / PGSIZE, false) {
      assert Access(leaves, root, a / PGSIZE, true);
    }
  }

  lemma ReadyData(m: Memory, root: nat)
    requires Ready(m, root)
    ensures UserLeaves(m.leaves) && Unaliased(m.leaves) && RefInv(m.leaves, m.refs, m.data, None)
    ensures FrameInv(m.tables, m.data, m.refs) && m.Mapped() && IsRoot(m.place, root)
  {
    hide TreeInv, LeafInv, Sharers;
  }

  /** Storing into a user frame keeps the memory invariant. */
  lemma DataReady(m: Memory, root: nat, data1: map<nat, seq<Byte>>)
    requires UserLeaves(m.leaves) && IsRoot(m.place, root) && TreeInv(m.tables, m.place)
    requires LeafInv(m.tables, m.place, m.leaves) && LeafFlags(m.leaves)
    requires FrameInv(m.tables, data1, m.refs) && RefInv(m.leaves, m.refs, data1, None) && m.Backing()
    requires m.data.Keys == data1.Keys && forall f :: f in data1 ==> |m.data[f]| == |data1[f]|
    ensures Ready(m, root)
  {
    hide TreeInv, LeafInv, Sharers, Unaliased, Memory.Backing;
  }

  /** copyin. It succeeds exactly when every byte is on a user page, and returns the bytes viewed there. */
  method CopyIn(m: Memory, root: nat, srcva: nat, len: nat) returns (ok: bool, dst: seq<Byte>)
    requires Ready(m, root)
    modifies m`tables, m`refs, m`place, m.buddy, m.buddy.pages, m.buddy.heads
    ensures Ready(m, root) && m.tables == old(m.tables) && m.refs == old(m.refs) && m.place == old(m.place)
    ensures ok <==> Accessible(m.leaves, root, srcva, len, false)
    ensures |dst| <= len && (ok ==> |dst| == len) && (!ok ==> !Access(m.leaves, root, (srcva + |dst|) / PGSIZE, false))
    ensures forall a :: srcva <= a < srcva + |dst| ==>
              (root, a / PGSIZE) in m.leaves && dst[a - srcva] == View(m.leaves, m.data, root, a)
  {
    hide Ready, Accessible, RefInv;
    dst := [];
    EmptyRange(m.leaves, root, srcva, false);
    while |dst| < len
      invariant |dst| <= len && Ready(m, root)
      invariant m.tables == old(m.tables) && m.refs == old(m.refs) && m.place == old(m.place)
      invariant Accessible(m.leaves, root, srcva, |dst|, false)
      invariant forall a :: srcva <= a < srcva + |dst| ==>
                  (root, a / PGSIZE) in m.leaves && dst[a - srcva] == View(m.leaves, m.data, root, a)
      decreases len - |dst|
    {
      var a := srcva + |dst|;
      var f := WalkAddr(m, root, a / PGSIZE);
      if f.None? {
        Blocked(m.leaves, root, srcva, len, a, false);
        return false, dst;
      }
      LeafOf(m, root, a / PGSIZE);
      var k := if PGSIZE - a % PGSIZE > len - |dst| then len - |dst| else PGSIZE - a % PGSIZE;
      AccessibleStep(m.leaves, root, srcva, |dst|, k, false);
      SamePage(a, k);
      dst := dst + m.data[f.value][a % PGSIZE..a % PGSIZE + k];
    }
    ok := true;
  }

  lemma SamePage(a: nat, k: nat)
    requires a % PGSIZE + k <= PGSIZE
    ensures forall b :: a <= b < a + k ==> b / PGSIZE == a / PGSIZE && b % PGSIZE == a % PGSIZE + (b - a)
  {
  }

  /** A string s that ends in NUL lies at va. */
  ghost predicate StringAt(leaves: Leaves, data: map<nat, seq<Byte>>, root: nat, va: nat, s: seq<Byte>) {
    && Plain(leaves, data, root, va, s) && Access(leaves, root, (va + |s|) / PGSIZE, false)
    && View(leaves, data, root, va + |s|) == 0
  }

  /** The bytes s, none of them NUL, lie at va. */
  ghost predicate Plain(leaves: Leaves, data: map<nat, seq<Byte>>, root: nat, va: nat, s: seq<Byte>) {
    forall j: nat :: j < |s| ==> PlainAt(leaves, data, root, va, s, j)
  }

  ghost predicate PlainAt(leaves: Leaves, data: map<nat, seq<Byte>>, root: nat, va: nat, s: seq<Byte>, j: nat) {
    j < |s| && Access(leaves, root, (va + j) / PGSIZE, false) && s[j] == View(leaves, data, root, va + j) != 0
  }

  /** A string at va cannot end inside bytes that are not NUL. */
  lemma StringLonger(leaves: Leaves, data: map<nat, seq<Byte>>, root: nat, va: nat, s: seq<Byte>, t: seq<Byte>)
    requires Plain(leaves, data, root, va, s) && StringAt(leaves, data, root, va, t)
    ensures |t| >= |s|
  {
    assert |t| < |s| ==> PlainAt(leaves, data, root, va, s, |t|);
  }

  lemma StringReaches(leaves: Leaves, data: map<nat, seq<Byte>>, root: nat, va: nat, s: seq<Byte>, t: seq<Byte>)
    requires Plain(leaves, data, root, va, s) && StringAt(leaves, data, root, va, t)
    ensures Access(leaves, root, (va + |s|) / PGSIZE, false)
  {
    StringLonger(leaves, data, root, va, s, t);
    assert |t| > |s| ==> PlainAt(leaves, data, root, va, t, |s|);
  }

  lemma StringBlocked(leaves: Leaves, data: map<nat, seq<Byte>>, root: nat, va: nat, s: seq<Byte>)
    requires Plain(leaves, data, root, va, s) && !Access(leaves, root, (va + |s|) / PGSIZE, false)
    ensures forall t :: !StringAt(leaves, data, root, va, t)
  {
    hide StringAt, Plain, Access;
    forall t ensures !StringAt(leaves, data, root, va, t) {
      if StringAt(leaves, data, root, va, t) { StringReaches(leaves, data, root, va, s, t); }
    }
  }

  lemma ByteHere(leaves: Leaves, data: map<nat, seq<Byte>>, root: nat, f: nat, a: nat, d: nat)
    requires Access(leaves, root, a / PGSIZE, false) && leaves[(root, a / PGSIZE)].frame == f && f in data && |data[f]| == PGSIZE
    requires a % PGSIZE + d < PGSIZE
    ensures Access(leaves, root, (a + d) / PGSIZE, false) && View(leaves, data, root, a + d) == data[f][a % PGSIZE + d]
  {
    SamePage(a, d + 1);
    assert (a + d) / PGSIZE == a / PGSIZE && (a + d) % PGSIZE == a % PGSIZE + d;
  }

  lemma PlainGrows(leaves: Leaves, data: map<nat, seq<Byte>>, root: nat, va: nat, s: seq<Byte>, b: Byte)
    requires Plain(leaves, data, root, va, s) && b != 0
    requires Access(leaves, root, (va + |s|) / PGSIZE, false) && View(leaves, data, root, va + |s|) == b
    ensures Plain(leaves, data, root, va, s + [b])
  {
    forall j: nat | j < |s| + 1 ensures PlainAt(leaves, data, root, va, s + [b], j) {
      assert j < |s| ==> PlainAt(leaves, data, root, va, s, j);
    }
  }

  lemma StringHere(leaves: Leaves, data: map<nat, seq<Byte>>, root: nat, va: nat, s: seq<Byte>)
    requires Plain(leaves, data, root, va, s) && Access(leaves, root, (va + |s|) / PGSIZE, false) && View(leaves, data, root, va + |s|) == 0
    ensures StringAt(leaves, data, root, va, s)
  {
  }

  /**
   The inner loop of copyinstr: up to k bytes of one page, which maps to frame
   f, until a NUL. `got` holds what was copied before.
   */
  method CopyUntilNul(m: Memory, root: nat, va: nat, got: seq<Byte>, f: nat, k: nat) returns (dst: seq<Byte>, nul: bool)
    requires Ready(m, root) && Plain(m.leaves, m.data, root, va, got) && Access(m.leaves, root, (va + |got|) / PGSIZE, false)
    requires f == m.leaves[(root, (va + |got|) / PGSIZE)].frame && (va + |got|) % PGSIZE + k <= PGSIZE
    ensures Plain(m.leaves, m.data, root, va, dst) && |got| <= |dst| <= |got| + k
    ensures nul ==> |dst| < |got| + k && StringAt(m.leaves, m.data, root, va, dst)
    ensures !nul ==> |dst| == |got| + k
  {
    hide Ready, Plain, View, Access, StringAt;
    LeafOf(m, root, (va + |got|) / PGSIZE);
    var page := m.data[f];
    ghost var leaves, data := m.leaves, m.data;
    dst, nul := got, false;
    var p, d := (va + |got|) % PGSIZE, 0;
    while d < k
      invariant 0 <= d <= k && |dst| == |got| + d && Plain(leaves, data, root, va, dst)
    {
      ByteHere(leaves, data, root, f, va + |got|, d);
      assert va + |dst| == va + |got| + d;
      var b := page[p + d];
      if b == 0 {
        nul := true;
        StringHere(leaves, data, root, va, dst);
        return;
      }
      PlainGrows(leaves, data, root, va, dst, b);
      dst, d := dst + [b], d + 1;
    }
  }

  /** copyinstr: the string at srcva, exactly when one of less than max bytes is there. Address 0 gives the empty string. */
  method CopyInStr(m: Memory, root: nat, srcva: nat, max: nat) returns (ok: bool, dst: seq<Byte>)
    requires Ready(m, root)
    modifies m`tables, m`refs, m`place, m.buddy, m.buddy.pages, m.buddy.heads
    ensures Ready(m, root) && m.tables == old(m.tables) && m.refs == old(m.refs) && m.place == old(m.place)
    ensures srcva == 0 ==> ok && dst == []
    ensures srcva != 0 && ok ==> StringAt(m.leaves, m.data, root, srcva, dst) && |dst| < max
    ensures srcva != 0 && !ok ==> forall s :: StringAt(m.leaves, m.data, root, srcva, s) ==> |s| >= max
  {
    hide Ready, Plain, StringAt, View;
    dst := [];
    if srcva == 0 {
      return true, dst;
    }
    PlainNone(m.leaves, m.data, root, srcva);
    while |dst| < max
      invariant |dst| <= max && Ready(m, root) && Plain(m.leaves, m.data, root, srcva, dst)
      invariant m.tables == old(m.tables) && m.refs == old(m.refs) && m.place == old(m.place)
      decreases max - |dst|
    {
      var a := srcva + |dst|;
      var f := WalkAddr(m, root, a / PGSIZE);
      if f.None? {
        StringBlocked(m.leaves, m.data, root, srcva, dst);
        return false, dst;
      }
      var k := if PGSIZE - a % PGSIZE > max - |dst| then max - |dst| else PGSIZE - a % PGSIZE;
      var nul;
      dst, nul := CopyUntilNul(m, root, srcva, dst, f.value, k);
      if nul {
        return true, dst;
      }
    }
    forall s | StringAt(m.leaves, m.data, root, srcva, s) ensures |s| >= max {
      StringLonger(m.leaves, m.data, root, srcva, dst, s);
    }
    ok := false;
  }

  lemma PlainNone(leaves: Leaves, data: map<nat, seq<Byte>>, root: nat, va: nat)
    ensures Plain(leaves, data, root, va, [])
  {
  }

  /** What copyout stores, copyin at the same address returns. */
  method CopyOutIn(m: Memory, root: nat, va: nat, src: seq<Byte>) returns (ok: bool, back: seq<Byte>)
    requires Ready(m, root)
    modifies m`data, m`tables, m`refs, m`place, m.buddy, m.buddy.pages, m.buddy.heads
    ensures ok <==> Accessible(m.leaves, root, va, |src|, true)
    ensures ok ==> back == src
  {
    hide Ready, Accessible;
    ghost var n;
    back := [];
    ok, n := CopyOut(m, root, va, src);
    AccessMeans(m.leaves, root, va, |src|);
    if ok {
      assert src[..n] == src;
      Weaken(m.leaves, root, va, |src|);
      var ok';
      ok', back := CopyIn(m, root, va, |src|);
      forall i | 0 <= i < |src| ensures back[i] == src[i] {
        assert ReadsByte(m.leaves, m.data, root, va, src, va + i);
      }
    }
  }

  const WRAP: nat := 0x1_0000_0000

  /**
   loadseg: the file's bytes offset .. offset + sz at address va, page aligned or
   not. The pages must be mapped (the panic). It fails when the file ends early;
   the bytes up to its end are stored all the same.
   */
  method LoadSeg(m: Memory, root: nat, va0: nat, file: seq<Byte>, offset0: nat, sz0: nat) returns (ok: bool, ghost n: nat)
    requires Ready(m, root) && Accessible(m.leaves, root, va0, sz0, false) && sz0 < WRAP - PGSIZE
    requires |file| < WRAP && offset0 < WRAP
    modifies m`data, m`tables, m`refs, m`place, m.buddy, m.buddy.pages, m.buddy.heads
    ensures Ready(m, root) && m.tables == old(m.tables) && m.refs == old(m.refs) && m.place == old(m.place)
    ensures ok <==> sz0 == 0 || offset0 + sz0 <= |file|
    ensures n <= sz0 && (ok ==> n == sz0) && (n == 0 || offset0 + n <= |file|)
    ensures !ok && |file| <= WRAP - PGSIZE ==> n == if offset0 < |file| then |file| - offset0 else 0
    ensures Wrote(m.leaves, old(m.data), m.data, root, va0, if n == 0 then [] else file[offset0..offset0 + n])
  {
    hide Wrote, Ready, Accessible, RefInv, FileSystem.ReadSlice, Access;
    var i, sz, va, offset := 0, sz0, va0, offset0;
    var addr := va0 % PGSIZE;
    ghost var bytes: seq<Byte> := [];
    WroteNothing(m.leaves, m.data, root, va0);
    EmptyRange(m.leaves, root, va0, false);
    while i < sz
      invariant Ready(m, root) && m.tables == old(m.tables) && m.refs == old(m.refs) && m.place == old(m.place)
      invariant |bytes| <= sz0 && va == va0 + |bytes| && offset == offset0 + |bytes|
      invariant i < sz ==> sz - i == sz0 - |bytes| && addr == va % PGSIZE
      invariant addr > 0 ==> i == 0
      invariant i >= sz ==> |bytes| == sz0
      invariant bytes == [] || (offset <= |file| && bytes == file[offset0..offset])
      invariant Accessible(m.leaves, root, va0, |bytes|, false)
      invariant Wrote(m.leaves, old(m.data), m.data, root, va0, bytes)
      decreases sz0 - |bytes|
    {
      Reaches(m.leaves, root, va0, sz0, va);
      var pa := WalkAddr(m, root, va / PGSIZE);
      var k;
      ghost var at := va % PGSIZE;
      var dst := 0;
      if addr > 0 {
        k := if PGSIZE - addr > sz then sz else PGSIZE - addr;
        dst := addr;
        sz := sz + PGSIZE - k;
        addr := 0;
      } else if sz - i < PGSIZE {
        k := sz - i;
      } else {
        k := PGSIZE;
      }
      assert dst == at && 0 < k <= sz0 - |bytes| && at + k <= PGSIZE;
      var piece := FileSystem.ReadSlice(file, offset, k);
      GotMore(file, offset0, bytes, k);
      Store(m, root, pa.value, dst, va0, piece, old(m.data), bytes);
      bytes := bytes + piece;
      if |piece| != k {
        return false, |bytes|;
      }
      offset := offset + k;
      va := va + k;
      i := i + PGSIZE;
    }
    ok, n := true, |bytes|;
  }

  /** Reading on after the bytes read so far gives the file's next bytes. */
  lemma GotMore(file: seq<Byte>, offset0: nat, bytes: seq<Byte>, k: nat)
    requires |file| < WRAP && (bytes == [] || (offset0 + |bytes| <= |file| && bytes == file[offset0..offset0 + |bytes|])) && 0 < k <= PGSIZE
    ensures var all := bytes + FileSystem.ReadSlice(file, offset0 + |bytes|, k);
            all == [] || (offset0 + |all| <= |file| && all == file[offset0..offset0 + |all|])
    ensures |FileSystem.ReadSlice(file, offset0 + |bytes|, k)| == k <==> offset0 + |bytes| + k <= |file|
    ensures |file| <= WRAP - PGSIZE && offset0 + |bytes| + k > |file| ==>
              |bytes| + |FileSystem.ReadSlice(file, offset0 + |bytes|, k)| == if offset0 < |file| then |file| - offset0 else |bytes|
  {
    var offset := offset0 + |bytes|;
    if offset <= |file| && offset + k < WRAP {
      if offset + k > |file| { assert file[offset0..offset] + file[offset..] == file[offset0..]; assert offset0 <= |file|; }
      else { assert file[offset0..offset] + file[offset..offset + k] == file[offset0..offset + k]; }
    }
  }

  lemma Reaches(leaves: Leaves, root: nat, va: nat, n: nat, a: nat)
    requires Accessible(leaves, root, va, n, false) && va <= a < va + n
    ensures Access(leaves, root, a / PGSIZE, false)
  {
  }

  // ----- parent and child after fork -----

  /** The child reads at every mapped user address what the parent read before the fork, and still reads. */
  lemma ForkReads(leaves0: Leaves, data0: map<nat, seq<Byte>>, leaves: Leaves, data: map<nat, seq<Byte>>, parent: nat, child: nat,
                  regions: seq<Region>, a: nat)
    requires CopiedTo(leaves0, data0, leaves, data, parent, child, USER_PAGES, regions) && parent != child
    requires a / PGSIZE < USER_PAGES && (parent, a / PGSIZE) in leaves0
    ensures (child, a / PGSIZE) in leaves && (parent, a / PGSIZE) in leaves
    ensures View(leaves, data, child, a) == View(leaves0, data0, parent, a) == View(leaves, data, parent, a)
  {
    assert ChildPage(leaves0, data0, leaves, data, parent, child, a / PGSIZE, regions);
  }

  /** No byte written by one of them is the byte at a private address of the other. */
  lemma PrivateMissed(leaves0: Leaves, data0: map<nat, seq<Byte>>, leaves: Leaves, data: map<nat, seq<Byte>>, parent: nat, child: nat,
                      regions: seq<Region>, writer: nat, reader: nat, a: nat, b: nat)
    requires CopiedTo(leaves0, data0, leaves, data, parent, child, USER_PAGES, regions) && parent != child && Unaliased(leaves0)
    requires (writer, reader) == (parent, child) || (writer, reader) == (child, parent)
    requires a / PGSIZE < USER_PAGES && b / PGSIZE < USER_PAGES && (reader, a / PGSIZE) in leaves && !SharedAt(regions, a / PGSIZE * PGSIZE)
    ensures !Hits(leaves, writer, b, Target(leaves, reader, a))
  {
    var v, w := if writer == parent then b / PGSIZE else a / PGSIZE, if writer == parent then a / PGSIZE else b / PGSIZE;
    if (parent, v) in leaves0 && (child, w) in leaves {
      ForkSharing(leaves0, data0, leaves, data, parent, child, regions, v, w);
    }
  }

  /** A later write by either is invisible to the other at every address outside the shared regions. */
  lemma ForkIsolated(leaves0: Leaves, data0: map<nat, seq<Byte>>, leaves: Leaves, data: map<nat, seq<Byte>>, parent: nat, child: nat,
                     regions: seq<Region>, writer: nat, reader: nat, va: nat, bytes: seq<Byte>, data': map<nat, seq<Byte>>, a: nat)
    requires CopiedTo(leaves0, data0, leaves, data, parent, child, USER_PAGES, regions) && parent != child && Unaliased(leaves0)
    requires (writer, reader) == (parent, child) || (writer, reader) == (child, parent)
    requires Wrote(leaves, data, data', writer, va, bytes) && forall b :: va <= b < va + |bytes| ==> b / PGSIZE < USER_PAGES
    requires a / PGSIZE < USER_PAGES && (reader, a / PGSIZE) in leaves && !SharedAt(regions, a / PGSIZE * PGSIZE)
    ensures View(leaves, data', reader, a) == View(leaves, data, reader, a)
  {
    hide CopiedTo, Unaliased, SharedAt, Hits;
    forall b | va <= b < va + |bytes| ensures !Hits(leaves, writer, b, Target(leaves, reader, a)) {
      PrivateMissed(leaves0, data0, leaves, data, parent, child, regions, writer, reader, a, b);
    }
  }
}
