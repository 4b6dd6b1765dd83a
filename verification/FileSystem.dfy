/** The kernel's block allocator, bmap, readi and writei. */
module FileSystem {
  import opened Wrappers
  import opened FsTree

  const BPB: nat := BSIZE * 8

  /**
   A consistent disk: the trees are injective and disjoint, files have no holes,
   and a bitmap bit is set exactly for the metadata blocks below `start` and the
   blocks of some tree.
   */
  ghost predicate FsInv(disk: seq<Block>, bitmap: seq<bool>, inodes: Inodes, own: Owners, start: nat) {
    && TreeInv(disk, inodes, own) && |bitmap| == |disk| && 0 < start <= |disk|
    && Marked(bitmap, own, start)
    && (forall n :: n in inodes ==> SizeOk(disk, inodes[n]))
  }

  ghost predicate Marked(bitmap: seq<bool>, own: Owners, start: nat) {
    && (forall b :: 0 <= b < |bitmap| ==> (bitmap[b] <==> b < start || b in own))
    && (forall b :: b in own ==> start <= b < |bitmap|)
  }

  ghost predicate Full(bitmap: seq<bool>) {
    forall b :: 0 <= b < |bitmap| ==> bitmap[b]
  }

  /** All files keep all their bytes and their sizes. */
  ghost predicate Kept(disk: seq<Block>, inodes: Inodes, disk': seq<Block>, inodes': Inodes) {
    && inodes'.Keys == inodes.Keys && |disk'| == |disk|
    && forall n :: n in inodes ==> SameBytes(disk, inodes[n], disk', inodes'[n]) && inodes'[n].size == inodes[n].size
  }

  lemma KeptTrans(d0: seq<Block>, i0: Inodes, d1: seq<Block>, i1: Inodes, d2: seq<Block>, i2: Inodes)
    requires Kept(d0, i0, d1, i1) && Kept(d1, i1, d2, i2)
    ensures Kept(d0, i0, d2, i2)
  {
    hide SameBytes;
    forall n | n in i0 ensures SameBytes(d0, i0[n], d2, i2[n]) {
      SameBytesTrans(d0, i0[n], d1, i1[n], d2, i2[n]);
    }
  }

  lemma KeptRefl(disk: seq<Block>, inodes: Inodes)
    ensures Kept(disk, inodes, disk, inodes)
  {
  }

  lemma LinksKeeps(disk: seq<Block>, bitmap: seq<bool>, inodes: Inodes, own: Owners, start: nat, n: nat, p: Pos, b: nat,
                   disk': seq<Block>, inodes': Inodes, own': Owners)
    requires FsInv(disk, bitmap, inodes, own, start) && Links(disk, inodes, own, n, p, b, disk', inodes', own')
    requires start <= b
    ensures FsInv(disk', bitmap[b := true], inodes', own', start) && Kept(disk, inodes, disk', inodes')
    ensures PtrAt(disk', inodes'[n], p) == b
  {
    hide TreeInv, SizeOk, SameBytes, PtrAt;
    LinksKeepsTree(disk, inodes, own, n, p, b, disk', inodes', own');
    LinksPtr(disk, inodes, own, n, p, b, disk', inodes', own', n, p);
    forall n2 | n2 in inodes
      ensures n2 in inodes' && SameBytes(disk, inodes[n2], disk', inodes'[n2]) && SizeOk(disk', inodes'[n2])
    {
      LinksBytes(disk, inodes, own, n, p, b, disk', inodes', own', n2);
      SameContent(disk, inodes[n2], disk', inodes'[n2]);
    }
  }

  // ----- which blocks are taken -----

  /** From one state to the other file n gains exactly the pointers at ps, and no other file gains or loses any. */
  ghost predicate Gains(d0: seq<Block>, i0: Inodes, d1: seq<Block>, i1: Inodes, n: nat, ps: set<Pos>) {
    && i1.Keys == i0.Keys
    && forall m, p :: m in i0 && m in i1 && ValidPos(p) ==> GainsAt(d0, i0[m], d1, i1[m], m == n && p in ps, p)
  }

  ghost predicate GainsAt(d0: seq<Block>, ino0: Inode, d1: seq<Block>, ino1: Inode, gained: bool, p: Pos) {
    PtrAt(d1, ino1, p) != 0 <==> PtrAt(d0, ino0, p) != 0 || gained
  }

  lemma GainsNone(d0: seq<Block>, i0: Inodes, n: nat)
    ensures Gains(d0, i0, d0, i0, n, {})
  {
    hide PtrAt;
  }

  lemma GainsTrans(d0: seq<Block>, i0: Inodes, d1: seq<Block>, i1: Inodes, d2: seq<Block>, i2: Inodes, n: nat, ps: set<Pos>, qs: set<Pos>)
    requires Gains(d0, i0, d1, i1, n, ps) && Gains(d1, i1, d2, i2, n, qs)
    ensures Gains(d0, i0, d2, i2, n, ps + qs)
  {
    hide PtrAt, ValidPos, GainsAt;
    forall m, p | m in i0 && m in i2 && ValidPos(p) ensures GainsAt(d0, i0[m], d2, i2[m], m == n && p in ps + qs, p) {
      GainsAtTrans(d0, i0[m], d1, i1[m], d2, i2[m], m == n && p in ps, m == n && p in qs, p);
    }
  }

  lemma GainsAtTrans(d0: seq<Block>, a: Inode, d1: seq<Block>, b: Inode, d2: seq<Block>, c: Inode, g: bool, h: bool, p: Pos)
    requires GainsAt(d0, a, d1, b, g, p) && GainsAt(d1, b, d2, c, h, p)
    ensures GainsAt(d0, a, d2, c, g || h, p)
  {
    hide PtrAt;
  }

  lemma LinksGains(disk: seq<Block>, inodes: Inodes, own: Owners, n: nat, p: Pos, b: nat, disk': seq<Block>, inodes': Inodes, own': Owners)
    requires TreeInv(disk, inodes, own) && Links(disk, inodes, own, n, p, b, disk', inodes', own')
    ensures inodes'.Keys == inodes.Keys && Gains(disk, inodes, disk', inodes', n, {p})
  {
    hide TreeInv, PtrAt, ZeroBlock, Put32;
    forall m, p2 | m in inodes && m in inodes' && ValidPos(p2) ensures GainsAt(disk, inodes[m], disk', inodes'[m], m == n && p2 in {p}, p2) {
      LinksPtr(disk, inodes, own, n, p, b, disk', inodes', own', m, p2);
    }
  }

  /** The blocks not in use. */
  ghost function Free(bitmap: seq<bool>): set<nat> {
    set b: nat | b < |bitmap| && !bitmap[b]
  }

  lemma FreeTaken(bitmap: seq<bool>, b: nat)
    requires b < |bitmap| && !bitmap[b]
    ensures |Free(bitmap[b := true])| + 1 == |Free(bitmap)|
  {
    assert Free(bitmap) == Free(bitmap[b := true]) + {b};
  }

  lemma NotFull(bitmap: seq<bool>, b: nat)
    requires b < |bitmap| && !bitmap[b]
    ensures !Full(bitmap)
  {
  }

  lemma FreeNone(bitmap: seq<bool>)
    ensures Full(bitmap) <==> |Free(bitmap)| == 0
  {
    if Full(bitmap) {
      assert Free(bitmap) == {};
    } else {
      var b: nat :| b < |bitmap| && !bitmap[b];
      assert b in Free(bitmap);
    }
  }

  /** The positions whose pointers lead to a file's bn-th data block. */
  ghost function Way(bn: nat): (ps: set<Pos>)
    requires bn < MAXFILE
    ensures forall p :: p in ps ==> ValidPos(p)
  {
    match LeafPos(bn)
    case Direct(i) => {Direct(i)}
    case IndLeaf(j) => {Ind, IndLeaf(j)}
    case DblLeaf(i, j) => {Dbl, Mid(i), DblLeaf(i, j)}
  }

  /** The position p, if its pointer is empty. */
  ghost function Missing(disk: seq<Block>, ino: Inode, p: Pos): set<Pos> {
    if PtrAt(disk, ino, p) == 0 then {p} else {}
  }

  /** Those of them that are empty: the blocks that bmap has to allocate. */
  ghost function MissingAt(disk: seq<Block>, ino: Inode, bn: nat): set<Pos>
    requires bn < MAXFILE
  {
    set p | p in Way(bn) && PtrAt(disk, ino, p) == 0
  }

  lemma MissingParts(disk: seq<Block>, ino: Inode, bn: nat)
    requires bn < MAXFILE
    ensures MissingAt(disk, ino, bn) ==
            match LeafPos(bn)
            case Direct(i) => Missing(disk, ino, Direct(i))
            case IndLeaf(j) => Missing(disk, ino, Ind) + Missing(disk, ino, IndLeaf(j))
            case DblLeaf(i, j) => Missing(disk, ino, Dbl) + Missing(disk, ino, Mid(i)) + Missing(disk, ino, DblLeaf(i, j))
  {
    hide PtrAt;
  }

  lemma NoneMissing(disk: seq<Block>, ino: Inode, bn: nat)
    requires bn < MAXFILE
    ensures HasBlock(disk, ino, bn) <==> MissingAt(disk, ino, bn) == {}
  {
    assert LeafPos(bn) in Way(bn);
    if HasBlock(disk, ino, bn) {
      assert forall p :: p in Way(bn) ==> PtrAt(disk, ino, p) != 0;
    } else {
      assert LeafPos(bn) in MissingAt(disk, ino, bn);
    }
  }

  /** The empty positions on the ways to the data blocks lo .. hi. */
  ghost function MissingIn(disk: seq<Block>, ino: Inode, lo: nat, hi: nat): set<Pos>
    requires hi <= MAXFILE
  {
    set bn: nat, p | lo <= bn < hi && p in Way(bn) && PtrAt(disk, ino, p) == 0 :: p
  }

  /** The end of the data blocks that hold the bytes off .. off + len. */
  ghost function EndBlock(off: nat, len: nat): nat {
    if len == 0 then off / BSIZE else (off + len - 1) / BSIZE + 1
  }

  datatype Snapshot = Snapshot(disk: seq<Block>, bitmap: seq<bool>, inodes: Inodes, own: Owners)

  /** From s to s' file n takes exactly one block for each position in ps; every block taken before stays where it is. */
  ghost predicate Took(s: Snapshot, s': Snapshot, n: nat, ps: set<Pos>) {
    && Gains(s.disk, s.inodes, s'.disk, s'.inodes, n, ps)
    && |Free(s'.bitmap)| + |ps| == |Free(s.bitmap)|
    && forall b :: b in s.own ==> b in s'.own && s'.own[b] == s.own[b]
  }

  lemma TookNone(s: Snapshot, n: nat)
    ensures Took(s, s, n, {})
  {
    hide Gains;
    GainsNone(s.disk, s.inodes, n);
  }

  lemma TookTrans(s0: Snapshot, s1: Snapshot, s2: Snapshot, n: nat, ps: set<Pos>, qs: set<Pos>)
    requires Took(s0, s1, n, ps) && Took(s1, s2, n, qs) && ps !! qs
    ensures Took(s0, s2, n, ps + qs)
  {
    hide Gains, Free;
    GainsTrans(s0.disk, s0.inodes, s1.disk, s1.inodes, s2.disk, s2.inodes, n, ps, qs);
    assert |ps + qs| == |ps| + |qs|;
  }

  lemma TookPtr(s: Snapshot, s': Snapshot, n: nat, ps: set<Pos>, p: Pos)
    requires Took(s, s', n, ps) && n in s.inodes && ValidPos(p)
    ensures n in s'.inodes && (PtrAt(s'.disk, s'.inodes[n], p) != 0 <==> PtrAt(s.disk, s.inodes[n], p) != 0 || p in ps)
  {
    hide PtrAt, Free;
    assert GainsAt(s.disk, s.inodes[n], s'.disk, s'.inodes[n], p in ps, p);
  }

  /** Overwriting a data block moves no pointer. */
  lemma TookStore(s: Snapshot, s': Snapshot, n: nat, ps: set<Pos>, bn: nat, c: nat, blk: Block)
    requires Took(s, s', n, ps) && TreeInv(s'.disk, s'.inodes, s'.own) && n in s'.inodes && bn < MAXFILE
    requires c == PtrAt(s'.disk, s'.inodes[n], LeafPos(bn)) && c != 0
    ensures c < |s'.disk| && Took(s, s'.(disk := s'.disk[c := blk]), n, ps)
  {
    hide TreeInv, PtrAt, LeafPos, Free;
    StoreBytes(s'.disk, s'.inodes, s'.own, n, bn, c, blk, n, 0);
    LeafIsLeaf(bn);
    var disk' := s'.disk[c := blk];
    forall m, p | m in s.inodes && m in s'.inodes && ValidPos(p)
      ensures GainsAt(s.disk, s.inodes[m], disk', s'.inodes[m], m == n && p in ps, p)
    {
      assert GainsAt(s.disk, s.inodes[m], s'.disk, s'.inodes[m], m == n && p in ps, p);
      StorePtr(s'.disk, s'.inodes, s'.own, c, blk, m, p);
    }
  }

  lemma TookResize(s: Snapshot, s': Snapshot, n: nat, ps: set<Pos>, size: nat)
    requires Took(s, s', n, ps) && n in s'.inodes
    ensures Took(s, s'.(inodes := s'.inodes[n := s'.inodes[n].(size := size)]), n, ps)
  {
    hide PtrAt, Free;
    var inodes' := s'.inodes[n := s'.inodes[n].(size := size)];
    forall m, p | m in s.inodes && m in inodes' && ValidPos(p)
      ensures GainsAt(s.disk, s.inodes[m], s'.disk, inodes'[m], m == n && p in ps, p)
    {
      assert GainsAt(s.disk, s.inodes[m], s'.disk, s'.inodes[m], m == n && p in ps, p);
      SizeIrrelevant(s'.disk, s'.inodes[n], size, p);
    }
  }

  /** After the missing blocks of lo .. bn those of bn are taken too. */
  lemma TookMore(s: Snapshot, s1: Snapshot, s2: Snapshot, n: nat, ps: set<Pos>, qs: set<Pos>, lo: nat, bn: nat)
    requires lo <= bn < MAXFILE && n in s.inodes && n in s1.inodes && Took(s, s1, n, ps) && Took(s1, s2, n, qs)
    requires ps == MissingIn(s.disk, s.inodes[n], lo, bn) && qs <= MissingAt(s1.disk, s1.inodes[n], bn)
    ensures Took(s, s2, n, ps + qs) && ps + qs <= MissingIn(s.disk, s.inodes[n], lo, bn + 1)
    ensures qs == MissingAt(s1.disk, s1.inodes[n], bn) ==> ps + qs == MissingIn(s.disk, s.inodes[n], lo, bn + 1)
  {
    hide PtrAt, Way, Took;
    forall p | p in Way(bn)
      ensures p in MissingAt(s1.disk, s1.inodes[n], bn) <==> PtrAt(s.disk, s.inodes[n], p) == 0 && p !in ps
    {
      TookPtr(s, s1, n, ps, p);
    }
    TookTrans(s, s1, s2, n, ps, qs);
    forall p ensures p in MissingIn(s.disk, s.inodes[n], lo, bn + 1) <==>
                       p in ps || (p in Way(bn) && PtrAt(s.disk, s.inodes[n], p) == 0) { }
  }

  lemma NoBlocks(disk: seq<Block>, ino: Inode, lo: nat)
    requires lo <= MAXFILE
    ensures MissingIn(disk, ino, lo, lo) == {}
  {
  }

  lemma OneBlock(disk: seq<Block>, ino: Inode, bn: nat)
    requires bn < MAXFILE
    ensures MissingIn(disk, ino, bn, bn + 1) == MissingAt(disk, ino, bn)
  {
    hide PtrAt, Way;
  }

  lemma MissingMore(disk: seq<Block>, ino: Inode, lo: nat, mid: nat, hi: nat)
    requires mid <= hi <= MAXFILE
    ensures MissingIn(disk, ino, lo, mid) <= MissingIn(disk, ino, lo, hi)
  {
    hide PtrAt, Way;
  }

  /** The block that the next piece goes to, and the blocks behind it. */
  lemma PieceEnds(off: nat, tot: nat, len: nat)
    requires tot < len && off + len < MAXSIZE && (tot == 0 || (off + tot) % BSIZE == 0)
    ensures EndBlock(off, tot) == (off + tot) / BSIZE < MAXFILE && off / BSIZE <= (off + tot) / BSIZE
    ensures EndBlock(off, tot + 1) == (off + tot) / BSIZE + 1 <= EndBlock(off, len) <= MAXFILE
  {
  }

  lemma EndInside(off: nat, len: nat)
    requires off + len < MAXSIZE
    ensures EndBlock(off, len) <= MAXFILE
  {
  }

  lemma PieceEnd(off: nat, tot: nat, m: nat)
    requires 0 < m && (off + tot) % BSIZE + m <= BSIZE
    ensures EndBlock(off, tot + m) == (off + tot) / BSIZE + 1
  {
    var x := off + tot;
    assert x + m - 1 == x / BSIZE * BSIZE + (x % BSIZE + m - 1);
  }

  /** A write that is not short took all that was missing, and one that is had too few free blocks. */
  lemma WriteCount(s: Snapshot, s': Snapshot, n: nat, ps: set<Pos>, off: nat, tot: nat, len: nat)
    requires Took(s, s', n, ps) && n in s.inodes && n in s'.inodes && tot <= len && off + len < MAXSIZE
    requires tot == 0 || tot == len || (off + tot) % BSIZE == 0
    requires EndBlock(off, len) <= MAXFILE && (tot < len ==> (off + tot) / BSIZE + 1 <= EndBlock(off, len))
    requires tot == len ==> ps == MissingIn(s.disk, s.inodes[n], off / BSIZE, EndBlock(off, len))
    requires tot < len ==> Full(s'.bitmap) && !HasBlock(s'.disk, s'.inodes[n], (off + tot) / BSIZE)
    requires tot < len ==> ps <= MissingIn(s.disk, s.inodes[n], off / BSIZE, (off + tot) / BSIZE + 1)
    ensures tot == len <==> |MissingIn(s.disk, s.inodes[n], off / BSIZE, EndBlock(off, len))| <= |Free(s.bitmap)|
  {
    hide PtrAt, Gains, Full, Free, Way;
    if tot < len {
      var bn := (off + tot) / BSIZE;
      var all := MissingIn(s.disk, s.inodes[n], off / BSIZE, EndBlock(off, len));
      MissingMore(s.disk, s.inodes[n], off / BSIZE, bn + 1, EndBlock(off, len));
      TookPtr(s, s', n, ps, LeafPos(bn));
      LeafOnWay(bn);
      FreeNone(s'.bitmap);
      assert LeafPos(bn) in all - ps;
      SubsetSize(ps, all - {LeafPos(bn)});
    }
  }

  lemma LeafOnWay(bn: nat)
    requires bn < MAXFILE
    ensures LeafPos(bn) in Way(bn)
  {
  }

  /** Running out of free blocks is having fewer than are missing. */
  lemma ReachedCount(s: Snapshot, s': Snapshot, n: nat, bn: nat, addr: nat, got: set<Pos>)
    requires bn < MAXFILE && n in s.inodes && n in s'.inodes && Took(s, s', n, got) && addr == PtrAt(s'.disk, s'.inodes[n], LeafPos(bn))
    requires got <= MissingAt(s.disk, s.inodes[n], bn) && (addr == 0 ==> Full(s'.bitmap))
    requires addr != 0 ==> got == MissingAt(s.disk, s.inodes[n], bn)
    ensures addr == 0 <==> |Free(s.bitmap)| < |MissingAt(s.disk, s.inodes[n], bn)|
  {
    hide PtrAt, Gains, Full, Free;
    if addr == 0 {
      TookPtr(s, s', n, got, LeafPos(bn));
      FreeNone(s'.bitmap);
      assert LeafPos(bn) in MissingAt(s.disk, s.inodes[n], bn);
      SubsetSize(got, MissingAt(s.disk, s.inodes[n], bn) - {LeafPos(bn)});
    }
  }

  lemma {:induction false} SubsetSize(a: set<Pos>, b: set<Pos>)
    requires a <= b
    ensures |a| <= |b|
  {
    assert b == a + (b - a);
  }

  /** The bytes of src have been stored from offset off on in file n; every other byte that existed is as before. */
  ghost predicate Stored(disk: seq<Block>, inodes: Inodes, disk': seq<Block>, inodes': Inodes, n: nat, off: nat, src: seq<Byte>) {
    && inodes'.Keys == inodes.Keys && n in inodes && off + |src| < MAXSIZE
    && (forall m :: m in inodes && m != n ==> SameBytes(disk, inodes[m], disk', inodes'[m]))
    && (forall m :: m in inodes ==> inodes'[m].size == inodes[m].size)
    && (forall k :: off <= k < off + |src| ==> HasBlock(disk', inodes'[n], k / BSIZE) && FileByte(disk', inodes'[n], k) == src[k - off])
    && (forall bn :: 0 <= bn < MAXFILE && HasBlock(disk, inodes[n], bn) ==> HasBlock(disk', inodes'[n], bn))
    && (forall k :: 0 <= k < MAXSIZE && !(off <= k < off + |src|) ==>
          FileByte(disk', inodes'[n], k) == FileByte(disk, inodes[n], k))
  }

  lemma StoredNothing(disk: seq<Block>, inodes: Inodes, n: nat, off: nat)
    requires n in inodes && off < MAXSIZE
    ensures Stored(disk, inodes, disk, inodes, n, off, [])
  {
  }

  lemma StoredKept(d0: seq<Block>, i0: Inodes, d1: seq<Block>, i1: Inodes, d2: seq<Block>, i2: Inodes, n: nat, off: nat, src: seq<Byte>)
    requires Stored(d0, i0, d1, i1, n, off, src) && Kept(d1, i1, d2, i2)
    ensures Stored(d0, i0, d2, i2, n, off, src)
  {
    hide HasBlock, FileByte;
    forall m | m in i0 && m != n ensures SameBytes(d0, i0[m], d2, i2[m]) {
      SameBytesTrans(d0, i0[m], d1, i1[m], d2, i2[m]);
    }
  }

  /** memmove of `piece` into a block. */
  function SpliceBlock(blk: Block, at: nat, piece: seq<Byte>): (r: Block)
    requires at + |piece| <= BSIZE
    ensures forall i :: 0 <= i < BSIZE ==> r[i] == if at <= i < at + |piece| then piece[i - at] else blk[i]
  {
    blk[..at] + piece + blk[at + |piece|..]
  }

  lemma StoreOthers(disk: seq<Block>, inodes: Inodes, own: Owners, n: nat, bn: nat, c: nat, blk: Block, m: nat)
    requires TreeInv(disk, inodes, own) && n in inodes && m in inodes && m != n && bn < MAXFILE
    requires c == PtrAt(disk, inodes[n], LeafPos(bn)) && c != 0
    ensures c < |disk| && SameBytes(disk, inodes[m], disk[c := blk], inodes[m])
  {
    hide PtrAt, TreeInv, HasBlock, FileByte;
    StoreBytes(disk, inodes, own, n, bn, c, blk, m, 0);
    forall k | 0 <= k < MAXSIZE
      ensures FileByte(disk[c := blk], inodes[m], k) == FileByte(disk, inodes[m], k)
    {
      StoreBytes(disk, inodes, own, n, bn, c, blk, m, k);
    }
    forall b | 0 <= b < MAXFILE && HasBlock(disk, inodes[m], b) ensures HasBlock(disk[c := blk], inodes[m], b) {
      StoreHas(disk, inodes, own, n, bn, c, blk, m, b);
    }
  }

  lemma StoreHas(disk: seq<Block>, inodes: Inodes, own: Owners, n: nat, bn: nat, c: nat, blk: Block, m: nat, b: nat)
    requires TreeInv(disk, inodes, own) && n in inodes && m in inodes && bn < MAXFILE && b < MAXFILE
    requires c == PtrAt(disk, inodes[n], LeafPos(bn)) && c != 0
    ensures c < |disk| && HasBlock(disk[c := blk], inodes[m], b) == HasBlock(disk, inodes[m], b)
  {
    hide PtrAt, TreeInv;
    StoreBytes(disk, inodes, own, n, bn, c, blk, n, 0);
    StorePtr(disk, inodes, own, c, blk, m, LeafPos(b));
  }

  /** Storing the next piece, which stays within one block. */
  lemma StoredStep(d0: seq<Block>, i0: Inodes, disk: seq<Block>, inodes: Inodes, own: Owners, n: nat, off: nat, src: seq<Byte>,
                   piece: seq<Byte>, c: nat)
    requires Stored(d0, i0, disk, inodes, n, off, src) && TreeInv(disk, inodes, own) && n in inodes
    requires var k := off + |src|;
             && k + |piece| < MAXSIZE && k % BSIZE + |piece| <= BSIZE
             && c == PtrAt(disk, inodes[n], LeafPos(k / BSIZE)) && c != 0
    ensures c < |disk|
    ensures Stored(d0, i0, disk[c := SpliceBlock(disk[c], (off + |src|) % BSIZE, piece)], inodes, n, off, src + piece)
  {
    hide PtrAt, TreeInv, HasBlock, FileByte, LeafPos;
    var k := off + |src|;
    var bn := k / BSIZE;
    StoreBytes(disk, inodes, own, n, bn, c, ZeroBlock(), n, 0);
    var blk := SpliceBlock(disk[c], k % BSIZE, piece);
    var disk' := disk[c := blk];
    HasFromPtr(disk, inodes[n], bn, c);
    forall m | m in i0 && m != n ensures SameBytes(d0, i0[m], disk', inodes[m]) {
      StoreOthers(disk, inodes, own, n, bn, c, blk, m);
      SameBytesTrans(d0, i0[m], disk, inodes[m], disk', inodes[m]);
    }
    forall b | 0 <= b < MAXFILE && HasBlock(d0, i0[n], b) ensures HasBlock(disk', inodes[n], b) {
      StoreHas(disk, inodes, own, n, bn, c, blk, n, b);
    }
    forall x | 0 <= x < MAXSIZE
      ensures off <= x < k + |piece| ==>
                HasBlock(disk', inodes[n], x / BSIZE) && FileByte(disk', inodes[n], x) == (src + piece)[x - off]
      ensures !(off <= x < k + |piece|) ==>
                FileByte(disk', inodes[n], x) == FileByte(d0, i0[n], x)
    {
      StoreBytes(disk, inodes, own, n, bn, c, blk, n, x);
      ByteInBlock(disk, inodes[n], bn, c, x);
      if k <= x < k + |piece| { assert x / BSIZE == bn && x % BSIZE == k % BSIZE + (x - k); }
    }
  }

  lemma HasFromPtr(disk: seq<Block>, ino: Inode, bn: nat, c: nat)
    requires bn < MAXFILE && c == PtrAt(disk, ino, LeafPos(bn)) && c != 0
    ensures HasBlock(disk, ino, bn)
  {
  }

  lemma ByteInBlock(disk: seq<Block>, ino: Inode, bn: nat, c: nat, x: nat)
    requires bn < MAXFILE && c == PtrAt(disk, ino, LeafPos(bn)) && 0 < c < |disk| && x < MAXSIZE
    ensures x / BSIZE == bn ==> FileByte(disk, ino, x) == disk[c][x % BSIZE]
  {
    hide PtrAt;
  }

  /** c with src written over it from off on; the result may be longer. */
  function Spliced(c: seq<Byte>, off: nat, src: seq<Byte>): seq<Byte>
    requires off <= |c|
  {
    c[..off] + src + if off + |src| < |c| then c[off + |src|..] else []
  }

  lemma StoredContent(d0: seq<Block>, i0: Inodes, disk: seq<Block>, inodes: Inodes, n: nat, off: nat, src: seq<Byte>, ino: Inode)
    requires Stored(d0, i0, disk, inodes, n, off, src) && n in i0 && SizeOk(d0, i0[n]) && off <= i0[n].size
    requires ino == inodes[n].(size := if off + |src| > i0[n].size then off + |src| else i0[n].size)
    ensures SizeOk(disk, ino) && Content(disk, ino) == Spliced(Content(d0, i0[n]), off, src)
  {
    hide PtrAt, LeafPos;
    forall bn | 0 <= bn && bn * BSIZE < ino.size ensures HasBlock(disk, ino, bn) {
      if bn * BSIZE < i0[n].size {
        assert HasBlock(d0, i0[n], bn);
        assert HasBlock(disk, inodes[n], bn);
      } else {
        assert (bn * BSIZE) / BSIZE == bn;
        assert HasBlock(disk, inodes[n], (bn * BSIZE) / BSIZE);
      }
      SizeIrrelevant(disk, inodes[n], ino.size, LeafPos(bn));
    }
    forall k | 0 <= k < ino.size ensures Content(disk, ino)[k] == Spliced(Content(d0, i0[n]), off, src)[k] {
      SizeIrrelevant(disk, inodes[n], ino.size, LeafPos(k / BSIZE));
      assert FileByte(disk, ino, k) == FileByte(disk, inodes[n], k);
      if !(off <= k < off + |src|) {
        assert (k / BSIZE) * BSIZE < i0[n].size;
        assert HasBlock(d0, i0[n], k / BSIZE);
      }
    }
  }

  lemma SizeIrrelevant(disk: seq<Block>, ino: Inode, size: nat, p: Pos)
    ensures PtrAt(disk, ino.(size := size), p) == PtrAt(disk, ino, p)
  {
  }

  lemma HasIrrelevant(disk: seq<Block>, ino: Inode, size: nat, bn: nat)
    requires bn < MAXFILE
    ensures HasBlock(disk, ino.(size := size), bn) == HasBlock(disk, ino, bn)
  {
    SizeIrrelevant(disk, ino, size, LeafPos(bn));
  }

  lemma ResizeTree(disk: seq<Block>, inodes: Inodes, own: Owners, n: nat, size: nat)
    requires TreeInv(disk, inodes, own) && n in inodes
    ensures TreeInv(disk, inodes[n := inodes[n].(size := size)], own)
  {
    hide PtrAt;
    var inodes' := inodes[n := inodes[n].(size := size)];
    forall m, p | m in inodes' && ValidPos(p) ensures PtrOk(disk, inodes', own, m, p) {
      assert PtrOk(disk, inodes, own, m, p);
      SizeIrrelevant(disk, inodes[n], size, p);
    }
    forall b | b in own ensures OwnerOk(disk, inodes', own, b) {
      assert OwnerOk(disk, inodes, own, b);
      SizeIrrelevant(disk, inodes[n], size, own[b].1);
    }
  }

  /** What readi returns of a file: the bytes off .. off + len, cut at its end; nothing behind its end or if the sum wraps. */
  function ReadSlice(c: seq<Byte>, off: nat, len: nat): (r: seq<Byte>)
    ensures |r| <= len
    ensures off + len <= |c| < MAXSIZE ==> r == c[off..off + len]
  {
    if off > |c| || off + len >= MAXSIZE then []
    else if off + len > |c| then c[off..] else c[off..off + len]
  }

  class Fs {
    const start: nat
    var disk: seq<Block>
    var bitmap: seq<bool>
    var inodes: Inodes
    ghost var own: Owners

    ghost predicate Valid()
      reads this
    {
      FsInv(disk, bitmap, inodes, own, start)
    }

    ghost function Now(): Snapshot
      reads this
    {
      Snapshot(disk, bitmap, inodes, own)
    }

    /** balloc: mark and zero the first free block; 0 when the disk is full (block 0 is always in use). */
    method Balloc() returns (r: nat)
      requires |bitmap| == |disk| && |bitmap| > 0 && bitmap[0]
      modifies `bitmap, `disk
      ensures r == 0 ==> Full(bitmap) && bitmap == old(bitmap) && disk == old(disk)
      ensures r != 0 ==>
                && r < |old(bitmap)| && !old(bitmap)[r] && (forall b :: 0 <= b < r ==> old(bitmap)[b])
                && bitmap == old(bitmap)[r := true] && disk == old(disk)[r := ZeroBlock()]
    {
      var b := 0;
      while b < |bitmap|
        invariant bitmap == old(bitmap) && disk == old(disk)
        invariant forall j :: 0 <= j < b && j < |bitmap| ==> bitmap[j]
      {
        var bi := 0;
        while bi < BPB && b + bi < |bitmap|
          invariant 0 <= bi <= BPB && bitmap == old(bitmap) && disk == old(disk)
          invariant forall j :: 0 <= j < b + bi && j < |bitmap| ==> bitmap[j]
        {
          if !bitmap[b + bi] {
            bitmap := bitmap[b + bi := true];
            disk := disk[b + bi := ZeroBlock()];
            return b + bi;
          }
          bi := bi + 1;
        }
        b := b + BPB;
      }
      r := 0;
    }

    /** Mount a consistent image. */
    constructor (disk: seq<Block>, bitmap: seq<bool>, inodes: Inodes, ghost own: Owners, start: nat)
      requires FsInv(disk, bitmap, inodes, own, start)
      ensures Valid() && this.disk == disk && this.bitmap == bitmap && this.inodes == inodes
      ensures this.own == own && this.start == start
    {
      this.disk, this.bitmap, this.inodes, this.own, this.start := disk, bitmap, inodes, own, start;
    }

    /** bfree and clearing the pointer at position p of file n; the block is in use, so the panic does not occur. */
    method FreeAt(n: nat, p: Pos)
      requires Valid() && n in inodes && ValidPos(p) && inodes[n].size == 0
      requires PtrAt(disk, inodes[n], p) != 0 && Childless(disk, inodes[n], p)
      modifies `disk, `bitmap, `inodes, `own
      ensures Valid() && Unlinks(old(disk), old(inodes), old(own), n, p, disk, inodes, own)
      ensures bitmap == old(bitmap)[PtrAt(old(disk), old(inodes)[n], p) := false]
    {
      hide TreeInv, SizeOk, PtrAt, Put32, Childless;
      ghost var disk0, bitmap0, inodes0, own0 := disk, bitmap, inodes, own;
      var b := PtrAt(disk, inodes[n], p);
      PtrFacts(disk, inodes, own, n, p);
      assert bitmap[b];
      bitmap := bitmap[b := false];
      if InInode(p) {
        inodes := inodes[n := inodes[n].(addrs := inodes[n].addrs[Slot(p) := 0])];
      } else {
        var q := PtrAt(disk, inodes[n], Parent(p));
        ParentThere(disk, inodes, own, n, p);
        disk := disk[q := Put32(disk[q], Slot(p), 0)];
      }
      own := own - {b};
      UnlinksValid(disk0, bitmap0, inodes0, own0, start, n, p, disk, bitmap, inodes, own);
    }

    /** Everything but file n, whose tree loses positions, stays. */
    ghost predicate Shrinks(disk0: seq<Block>, inodes0: Inodes, own0: Owners, n: nat)
      reads this
    {
      && Valid() && inodes.Keys == inodes0.Keys && n in inodes && inodes[n].size == 0 && |disk| == |disk0|
      && (forall m :: m in inodes && m != n ==> inodes[m] == inodes0[m] && SameBytes(disk0, inodes0[m], disk, inodes[m]))
      && (forall b :: b in own ==> b in own0 && own[b] == own0[b])
      && (forall b :: b in own0 && own0[b].0 != n ==> b in own)
    }

    /**
     itrunc for a file without a double-indirect block: the file becomes empty,
     exactly its blocks become free, and no other file changes.
     */
    method Itrunc(n: nat)
      requires Valid() && n in inodes && inodes[n].addrs[NDIRECT + 1] == 0
      modifies `disk, `bitmap, `inodes, `own
      ensures Valid() && inodes.Keys == old(inodes).Keys && File(n) == []
      ensures forall m :: m in old(inodes) && m != n ==> File(m) == old(File(m))
      ensures forall b :: b in own <==> b in old(own) && old(own)[b].0 != n
    {
      hide FsInv, Childless, Unlinks, SameBytes, PtrAt, Cleared, Cut;
      ghost var disk0, bitmap0, inodes0, own0 := disk, bitmap, inodes, own;
      FileSize(disk, bitmap, inodes, own, start, n);
      ResizeEmpty(disk, bitmap, inodes, own, start, n);
      inodes := inodes[n := inodes[n].(size := 0)];
      FsPtr(disk, bitmap, inodes, own, start, n, Dbl);
      TruncStart(disk, inodes0, inodes, n);
      PtrDef(disk, inodes[n], 0);
      ClearedNone(disk, inodes[n], 0, 0);
      var i := 0;
      while i < NDIRECT
        invariant 0 <= i <= NDIRECT && Shrinks(disk0, inodes0, own0, n) && Cleared(disk, inodes[n], i, 0)
        invariant |inodes[n].addrs| == NDIRECT + 2 && PtrAt(disk, inodes[n], Dbl) == 0
      {
        PtrDef(disk, inodes[n], i);
        ClearedNone(disk, inodes[n], i, 0);
        if inodes[n].addrs[i] != 0 {
          ghost var disk1, ino1 := disk, inodes[n];
          FreeStep(n, Direct(i), disk0, inodes0, own0);
          CutCleared(disk1, ino1, disk, inodes[n], Direct(i), i, 0);
          CutAt(disk1, ino1, disk, inodes[n], Direct(i), Dbl);
        }
        i := i + 1;
      }
      PtrDef(disk, inodes[n], 0);
      if inodes[n].addrs[NDIRECT] != 0 {
        TruncIndirect(n, disk0, inodes0, own0);
      }
      NothingOwned(disk, bitmap, inodes, own, start, n);
      FileSize(disk, bitmap, inodes, own, start, n);
      forall m | m in inodes0 && m != n ensures Content(disk, inodes[m]) == Content(disk0, inodes0[m]) {
        SameContent(disk0, inodes0[m], disk, inodes[m]);
      }
    }

    /** The part of itrunc for the indirect block. */
    method TruncIndirect(n: nat, ghost disk0: seq<Block>, ghost inodes0: Inodes, ghost own0: Owners)
      requires Shrinks(disk0, inodes0, own0, n) && |inodes[n].addrs| == NDIRECT + 2 && PtrAt(disk, inodes[n], Dbl) == 0
      requires inodes[n].addrs[NDIRECT] != 0 && Cleared(disk, inodes[n], NDIRECT, 0)
      modifies `disk, `bitmap, `inodes, `own
      ensures Shrinks(disk0, inodes0, own0, n) && Cleared(disk, inodes[n], NDIRECT, 0)
      ensures PtrAt(disk, inodes[n], Dbl) == 0 && PtrAt(disk, inodes[n], Ind) == 0
    {
      hide FsInv, Childless, SameBytes, PtrAt, Get32, Cleared, Cut;
      PtrDef(disk, inodes[n], 0);
      var j := 0;
      while j < NINDIRECT
        invariant 0 <= j <= NINDIRECT && Shrinks(disk0, inodes0, own0, n) && Cleared(disk, inodes[n], NDIRECT, j)
        invariant |inodes[n].addrs| == NDIRECT + 2 && PtrAt(disk, inodes[n], Dbl) == 0
        invariant PtrAt(disk, inodes[n], Ind) == inodes[n].addrs[NDIRECT] != 0
      {
        FsPtr(disk, bitmap, inodes, own, start, n, Ind);
        PtrDefInd(disk, inodes[n], j);
        ClearedNone(disk, inodes[n], NDIRECT, j);
        if Get32(disk[inodes[n].addrs[NDIRECT]], j) != 0 {
          ghost var disk1, ino1 := disk, inodes[n];
          FreeStep(n, IndLeaf(j), disk0, inodes0, own0);
          CutCleared(disk1, ino1, disk, inodes[n], IndLeaf(j), NDIRECT, j);
          CutAt(disk1, ino1, disk, inodes[n], IndLeaf(j), Dbl);
          CutAt(disk1, ino1, disk, inodes[n], IndLeaf(j), Ind);
          PtrDef(disk, inodes[n], 0);
        }
        j := j + 1;
      }
      ClearedNone(disk, inodes[n], NDIRECT, 0);
      ghost var disk1, ino1 := disk, inodes[n];
      FreeStep(n, Ind, disk0, inodes0, own0);
      CutCleared(disk1, ino1, disk, inodes[n], Ind, NDIRECT, NINDIRECT);
      CutAt(disk1, ino1, disk, inodes[n], Ind, Dbl);
      CutAt(disk1, ino1, disk, inodes[n], Ind, Ind);
      ClearedLess(disk, inodes[n], NDIRECT, NINDIRECT);
    }

    method FreeStep(n: nat, p: Pos, ghost disk0: seq<Block>, ghost inodes0: Inodes, ghost own0: Owners)
      requires Shrinks(disk0, inodes0, own0, n) && ValidPos(p)
      requires PtrAt(disk, inodes[n], p) != 0 && Childless(disk, inodes[n], p)
      modifies `disk, `bitmap, `inodes, `own
      ensures Shrinks(disk0, inodes0, own0, n) && |inodes[n].addrs| == NDIRECT + 2
      ensures Cut(old(disk), old(inodes)[n], disk, inodes[n], p)
    {
      hide TreeInv, PtrAt, Childless, SizeOk, SameBytes, Unlinks, Marked;
      ghost var disk1, inodes1, own1 := disk, inodes, own;
      FreeAt(n, p);
      UnlinksKeeps(disk1, inodes1, own1, n, p, disk, inodes, own);
      forall m | m in inodes && m != n ensures inodes[m] == inodes0[m] && SameBytes(disk0, inodes0[m], disk, inodes[m]) {
        UnlinksOther(disk1, inodes1, own1, n, p, disk, inodes, own, m);
        SameBytesTrans(disk0, inodes0[m], disk1, inodes1[m], disk, inodes[m]);
      }
    }

    /** The allocating step of bmap: a new block at the empty position p of file n, if one is free. */
    method AllocAt(n: nat, p: Pos) returns (addr: nat, ghost got: set<Pos>)
      requires Valid() && n in inodes && ValidPos(p) && PtrAt(disk, inodes[n], p) == 0
      requires !InInode(p) ==> PtrAt(disk, inodes[n], Parent(p)) != 0
      modifies `disk, `bitmap, `inodes, `own
      ensures Valid() && n in inodes && Kept(old(disk), old(inodes), disk, inodes) && Took(old(Now()), Now(), n, got)
      ensures addr == PtrAt(disk, inodes[n], p) && (addr == 0 ==> Full(old(bitmap)) && Now() == old(Now()))
      ensures got == (if addr == 0 then {} else {p}) && (addr != 0 ==> addr < |disk| && addr !in old(own))
    {
      hide TreeInv, SizeOk, PtrAt, ZeroBlock, Put32, Gains, Full;
      ghost var s := Now();
      KeptRefl(disk, inodes);
      TookNone(s, n);
      var q := if InInode(p) then 0 else PtrAt(disk, inodes[n], Parent(p));
      PtrFacts(disk, inodes, own, n, p);
      addr := Balloc();
      got := {};
      if addr == 0 {
        return;
      }
      NotFull(s.bitmap, addr);
      got := {p};
      if InInode(p) {
        inodes := inodes[n := inodes[n].(addrs := inodes[n].addrs[Slot(p) := addr])];
      } else {
        disk := disk[q := Put32(disk[q], Slot(p), addr)];
      }
      own := own[addr := (n, p)];
      LinksKeeps(s.disk, s.bitmap, s.inodes, s.own, start, n, p, addr, disk, inodes, own);
      LinksGains(s.disk, s.inodes, s.own, n, p, addr, disk, inodes, own);
      FreeTaken(s.bitmap, addr);
    }

    /** What a lookup by bmap of block bn from state s came to: the missing blocks are allocated as far as blocks are free. */
    ghost predicate Reached(s: Snapshot, n: nat, bn: nat, addr: nat, got: set<Pos>)
      requires bn < MAXFILE
      reads this
    {
      && Valid() && n in inodes && n in s.inodes && Kept(s.disk, s.inodes, disk, inodes) && Took(s, Now(), n, got)
      && addr == PtrAt(disk, inodes[n], LeafPos(bn))
      && got <= MissingAt(s.disk, s.inodes[n], bn)
      && (addr == 0 ==> Full(bitmap))
      && (addr != 0 ==> got == MissingAt(s.disk, s.inodes[n], bn))
      && (got == {} ==> Now() == s)
    }

    /** The pointer at position p, allocated if empty. */
    method PtrOrAlloc(n: nat, p: Pos, addr0: nat) returns (addr: nat, ghost got: set<Pos>)
      requires Valid() && n in inodes && ValidPos(p) && addr0 == PtrAt(disk, inodes[n], p)
      requires !InInode(p) ==> PtrAt(disk, inodes[n], Parent(p)) != 0
      modifies `disk, `bitmap, `inodes, `own
      ensures Valid() && n in inodes && Kept(old(disk), old(inodes), disk, inodes) && Took(old(Now()), Now(), n, got)
      ensures addr == PtrAt(disk, inodes[n], p) && (addr == 0 ==> Full(bitmap))
      ensures addr0 != 0 || addr == 0 ==> Now() == old(Now()) && got == {}
      ensures addr0 == 0 && addr != 0 ==> got == {p}
    {
      hide FsInv, Kept, Took, PtrAt;
      KeptRefl(disk, inodes);
      TookNone(Now(), n);
      addr, got := addr0, {};
      if addr == 0 {
        addr, got := AllocAt(n, p);
      }
    }

    /** bmap through the inode. */
    method BmapDirect(n: nat, bn: nat) returns (addr: nat, ghost got: set<Pos>)
      requires Valid() && n in inodes && bn < NDIRECT
      modifies `disk, `bitmap, `inodes, `own
      ensures Reached(old(Now()), n, bn, addr, got)
    {
      hide FsInv, Kept, Took, Full, MissingAt;
      MissingParts(disk, inodes[n], bn);
      FsPtr(disk, bitmap, inodes, own, start, n, Direct(bn));
      addr := inodes[n].addrs[bn];
      addr, got := PtrOrAlloc(n, Direct(bn), addr);
    }

    /** bmap through the indirect block. */
    method BmapIndirect(n: nat, bn: nat) returns (addr: nat, ghost got: set<Pos>)
      requires Valid() && n in inodes && NDIRECT <= bn < NDIRECT + NINDIRECT
      modifies `disk, `bitmap, `inodes, `own
      ensures Reached(old(Now()), n, bn, addr, got)
    {
      hide FsInv, Kept, Took, Full, MissingAt;
      ghost var s := Now();
      var b := bn - NDIRECT;
      MissingParts(disk, inodes[n], bn);
      FsPtr(disk, bitmap, inodes, own, start, n, Ind);
      addr := inodes[n].addrs[NDIRECT];
      addr, got := PtrOrAlloc(n, Ind, addr);
      if addr == 0 {
        return;
      }
      ghost var s1, got2 := Now(), {};
      TookPtr(s, s1, n, got, IndLeaf(b));
      FsPtr(disk, bitmap, inodes, own, start, n, Ind);
      addr := Get32(disk[addr], b);
      addr, got2 := PtrOrAlloc(n, IndLeaf(b), addr);
      KeptTrans(s.disk, s.inodes, s1.disk, s1.inodes, disk, inodes);
      TookTrans(s, s1, Now(), n, got, got2);
      got := got + got2;
    }

    /** bmap through the double-indirect block. */
    method BmapDouble(n: nat, bn: nat) returns (addr: nat, ghost got: set<Pos>)
      requires Valid() && n in inodes && NDIRECT + NINDIRECT <= bn < MAXFILE
      modifies `disk, `bitmap, `inodes, `own
      ensures Reached(old(Now()), n, bn, addr, got)
    {
      hide FsInv, Kept, Took, Full, MissingAt;
      ghost var s := Now();
      var b := bn - NDIRECT - NINDIRECT;
      var idx1, idx2 := b / NINDIRECT, b % NINDIRECT;
      MissingParts(disk, inodes[n], bn);
      FsPtr(disk, bitmap, inodes, own, start, n, Dbl);
      addr := inodes[n].addrs[NDIRECT + 1];
      addr, got := PtrOrAlloc(n, Dbl, addr);
      if addr == 0 {
        return;
      }
      ghost var s1, got2, got3 := Now(), {}, {};
      TookPtr(s, s1, n, got, Mid(idx1));
      TookPtr(s, s1, n, got, DblLeaf(idx1, idx2));
      FsPtr(disk, bitmap, inodes, own, start, n, Dbl);
      addr := Get32(disk[addr], idx1);
      addr, got2 := PtrOrAlloc(n, Mid(idx1), addr);
      KeptTrans(s.disk, s.inodes, s1.disk, s1.inodes, disk, inodes);
      TookTrans(s, s1, Now(), n, got, got2);
      got := got + got2;
      if addr == 0 {
        return;
      }
      ghost var s2 := Now();
      TookPtr(s, s2, n, got, DblLeaf(idx1, idx2));
      FsPtr(disk, bitmap, inodes, own, start, n, Mid(idx1));
      addr := Get32(disk[addr], idx2);
      addr, got3 := PtrOrAlloc(n, DblLeaf(idx1, idx2), addr);
      KeptTrans(s.disk, s.inodes, s2.disk, s2.inodes, disk, inodes);
      TookTrans(s, s2, Now(), n, got, got3);
      got := got + got3;
    }

    /**
     bmap: the block number of the file's bn-th block. Exactly the missing blocks
     on the way to it are allocated; 0 when fewer than these are free.
     */
    method Bmap(n: nat, bn: nat) returns (addr: nat, ghost got: set<Pos>)
      requires Valid() && n in inodes && bn < MAXFILE
      modifies `disk, `bitmap, `inodes, `own
      ensures Reached(old(Now()), n, bn, addr, got)
      ensures addr == 0 <==> |Free(old(bitmap))| < |MissingAt(old(disk), old(inodes)[n], bn)|
      ensures HasBlock(old(disk), old(inodes)[n], bn) ==> addr != 0 && Now() == old(Now())
    {
      hide FsInv, Kept, Took, Full, MissingAt, PtrAt, HasBlock;
      NoneMissing(disk, inodes[n], bn);
      if bn < NDIRECT {
        addr, got := BmapDirect(n, bn);
      } else if bn < NDIRECT + NINDIRECT {
        addr, got := BmapIndirect(n, bn);
      } else {
        addr, got := BmapDouble(n, bn);
      }
      ReachedCount(old(Now()), Now(), n, bn, addr, got);
    }

    ghost function File(n: nat): seq<Byte>
      requires Valid() && n in inodes
      reads this
    {
      Content(disk, inodes[n])
    }

    /** The body of the loop of readi: up to `most` bytes at offset o, as far as its block goes. */
    method ReadPiece(n: nat, o: nat, most: nat) returns (piece: seq<Byte>)
      requires Valid() && n in inodes && 0 < most && o + most <= inodes[n].size
      modifies `disk, `bitmap, `inodes, `own
      ensures disk == old(disk) && bitmap == old(bitmap) && inodes == old(inodes) && own == old(own) && Valid()
      ensures 0 < |piece| <= most && o + |piece| <= |File(n)| && piece == File(n)[o..o + |piece|]
    {
      hide FsInv, HasBlock, PtrAt, Content, Kept;
      FileSize(disk, bitmap, inodes, own, start, n);
      BlockThere(disk, bitmap, inodes, own, start, n, o);
      var addr, got := Bmap(n, o / BSIZE);
      FsPtr(disk, bitmap, inodes, own, start, n, LeafPos(o / BSIZE));
      var m := if most < BSIZE - o % BSIZE then most else BSIZE - o % BSIZE;
      BlockSlice(disk, inodes[n], o, m, addr);
      piece := disk[addr][o % BSIZE..o % BSIZE + m];
    }

    /**
     readi: the bytes off .. off + len of the file, cut at its end. A file
     without holes is not changed by reading it.
     */
    method ReadI(n: nat, off: nat, len: nat) returns (dst: seq<Byte>)
      requires Valid() && n in inodes && off < MAXSIZE && len < MAXSIZE
      modifies `disk, `bitmap, `inodes, `own
      ensures disk == old(disk) && bitmap == old(bitmap) && inodes == old(inodes) && own == old(own) && Valid()
      ensures dst == ReadSlice(File(n), off, len)
    {
      hide FsInv, HasBlock, PtrAt, Content, Kept;
      FileSize(disk, bitmap, inodes, own, start, n);
      ghost var file := File(n);
      dst := [];
      if off > inodes[n].size || off + len >= MAXSIZE {
        return;
      }
      var count := if off + len > inodes[n].size then inodes[n].size - off else len;
      while |dst| < count
        invariant |dst| <= count
        invariant disk == old(disk) && bitmap == old(bitmap) && inodes == old(inodes) && own == old(own)
        invariant |file| == inodes[n].size && dst == file[off..off + |dst|]
        decreases count - |dst|
      {
        var piece := ReadPiece(n, off + |dst|, count - |dst|);
        assert file[off..off + |dst|] + piece == file[off..off + |dst| + |piece|];
        dst := dst + piece;
      }
    }

    /**
     The body of the loop of writei: the next bytes of src, as far as their
     block goes, once bmap has allocated what is missing on the way to it.
     Nothing is written exactly when too few blocks are free for that.
     */
    method WritePiece(n: nat, src: seq<Byte>, off: nat, tot: nat, ghost disk0: seq<Block>, ghost inodes0: Inodes)
      returns (m: nat, ghost got: set<Pos>)
      requires Valid() && n in inodes && tot < |src| && off + |src| < MAXSIZE
      requires Stored(disk0, inodes0, disk, inodes, n, off, src[..tot])
      modifies `disk, `bitmap, `inodes, `own
      ensures Valid() && inodes.Keys == old(inodes).Keys && tot + m <= |src|
      ensures Stored(disk0, inodes0, disk, inodes, n, off, src[..tot + m])
      ensures Took(old(Now()), Now(), n, got) && got <= MissingAt(old(disk), old(inodes)[n], (off + tot) / BSIZE)
      ensures m == 0 <==> |Free(old(bitmap))| < |MissingAt(old(disk), old(inodes)[n], (off + tot) / BSIZE)|
      ensures m == 0 ==> Full(bitmap) && !HasBlock(disk, inodes[n], (off + tot) / BSIZE)
      ensures m == 0 ==> !HasBlock(old(disk), old(inodes)[n], (off + tot) / BSIZE)
      ensures m != 0 ==> got == MissingAt(old(disk), old(inodes)[n], (off + tot) / BSIZE)
      ensures m != 0 ==> m == if |src| - tot < BSIZE - (off + tot) % BSIZE then |src| - tot else BSIZE - (off + tot) % BSIZE
    {
      hide FsInv, PtrAt, Kept, Stored, LeafPos, SpliceBlock, Full, Free, MissingAt, Took;
      var o := off + tot;
      ghost var s := Now();
      var addr;
      addr, got := Bmap(n, o / BSIZE);
      StoredKept(disk0, inodes0, s.disk, s.inodes, disk, inodes, n, off, src[..tot]);
      KeptKeys(s.disk, s.inodes, disk, inodes);
      if addr == 0 {
        assert src[..tot + 0] == src[..tot];
        return 0, got;
      }
      m := if |src| - tot < BSIZE - o % BSIZE then |src| - tot else BSIZE - o % BSIZE;
      FsTreeInv(disk, bitmap, inodes, own, start);
      StoredStep(disk0, inodes0, disk, inodes, own, n, off, src[..tot], src[tot..tot + m], addr);
      StoreValid(disk, bitmap, inodes, own, start, n, o / BSIZE, addr, SpliceBlock(disk[addr], o % BSIZE, src[tot..tot + m]));
      TookStore(s, Now(), n, got, o / BSIZE, addr, SpliceBlock(disk[addr], o % BSIZE, src[tot..tot + m]));
      disk := disk[addr := SpliceBlock(disk[addr], o % BSIZE, src[tot..tot + m])];
      assert src[..tot] + src[tot..tot + m] == src[..tot + m];
    }

    /** The loop of writei, which stores src[..tot] and takes the blocks this needs. */
    method WritePieces(n: nat, src: seq<Byte>, off: nat) returns (tot: nat, ghost got: set<Pos>)
      requires Valid() && n in inodes && off <= inodes[n].size && off + |src| < MAXSIZE
      modifies `disk, `bitmap, `inodes, `own
      ensures Valid() && inodes.Keys == old(inodes).Keys && tot <= |src| && Took(old(Now()), Now(), n, got)
      ensures Stored(old(disk), old(inodes), disk, inodes, n, off, src[..tot])
      ensures EndBlock(off, |src|) <= MAXFILE && EndBlock(off, tot) <= MAXFILE
      ensures tot == |src| <==> |MissingIn(old(disk), old(inodes)[n], off / BSIZE, EndBlock(off, |src|))| <= |Free(old(bitmap))|
      ensures MissingIn(old(disk), old(inodes)[n], off / BSIZE, EndBlock(off, tot)) <= got
      ensures got <= MissingIn(old(disk), old(inodes)[n], off / BSIZE, EndBlock(off, if tot < |src| then tot + 1 else tot))
      ensures tot < |src| ==> Full(bitmap) && !HasBlock(disk, inodes[n], (off + tot) / BSIZE)
      ensures tot < |src| ==> off + |src| > old(inodes)[n].size && (tot == 0 || (off + tot) % BSIZE == 0)
    {
      hide FsInv, HasBlock, PtrAt, Stored, SizeOk, Content, Full, Took, MissingIn, MissingAt, Free;
      ghost var s := Now();
      tot, got := 0, {};
      StoredNothing(disk, inodes, n, off);
      TookNone(s, n);
      NoBlocks(disk, inodes[n], off / BSIZE);
      assert src[..0] == [];
      while tot < |src|
        invariant 0 <= tot <= |src| && Valid() && inodes.Keys == s.inodes.Keys
        invariant Stored(s.disk, s.inodes, disk, inodes, n, off, src[..tot])
        invariant tot == 0 || tot == |src| || (off + tot) % BSIZE == 0
        invariant Took(s, Now(), n, got) && got == MissingIn(s.disk, s.inodes[n], off / BSIZE, EndBlock(off, tot))
        decreases |src| - tot
      {
        StoredSize(s.disk, s.inodes, disk, inodes, n, off, src[..tot]);
        if off + tot < inodes[n].size { BlockThere(disk, bitmap, inodes, own, start, n, off + tot); }
        ghost var s1, got1 := Now(), {};
        PieceEnds(off, tot, |src|);
        var m;
        m, got1 := WritePiece(n, src, off, tot, s.disk, s.inodes);
        TookMore(s, s1, Now(), n, got, got1, off / BSIZE, (off + tot) / BSIZE);
        got := got + got1;
        if m == 0 {
          break;
        }
        PieceEnd(off, tot, m);
        tot := tot + m;
      }
      if tot < |src| {
        PieceEnds(off, tot, |src|);
        MissingMore(s.disk, s.inodes[n], off / BSIZE, (off + tot) / BSIZE, (off + tot) / BSIZE + 1);
      }
      EndInside(off, |src|);
      WriteCount(s, Now(), n, got, off, tot, |src|);
    }

    /**
     writei: None is the -1 result. Otherwise the first r bytes were written: all
     of src exactly when enough blocks were free for what was missing. The file is
     the old one with them spliced in, no other file changes, and the file took
     exactly the missing blocks, those of src or those up to the one that failed.
     */
    method WriteI(n: nat, src: seq<Byte>, off: nat) returns (r: Option<nat>, ghost got: set<Pos>)
      requires Valid() && n in inodes && off < MAXSIZE && |src| < MAXSIZE
      modifies `disk, `bitmap, `inodes, `own
      ensures Valid() && inodes.Keys == old(inodes).Keys
      ensures r.None? <==> off > |old(File(n))| || off + |src| >= MAXSIZE
      ensures r.None? ==> Now() == old(Now())
      ensures r.Some? ==> r.value <= |src| && Took(old(Now()), Now(), n, got)
      ensures r.Some? ==> EndBlock(off, |src|) <= MAXFILE && EndBlock(off, r.value) <= MAXFILE
      ensures r.Some? ==> (r.value == |src| <==>
                |MissingIn(old(disk), old(inodes)[n], off / BSIZE, EndBlock(off, |src|))| <= |Free(old(bitmap))|)
      ensures r.Some? ==> MissingIn(old(disk), old(inodes)[n], off / BSIZE, EndBlock(off, r.value)) <= got
      ensures r.Some? ==> got <= MissingIn(old(disk), old(inodes)[n], off / BSIZE,
                                           EndBlock(off, if r.value < |src| then r.value + 1 else r.value))
      ensures r.Some? && r.value < |src| ==>
                && Full(bitmap) && !HasBlock(disk, inodes[n], (off + r.value) / BSIZE)
                && off + |src| > |old(File(n))| && (r.value == 0 || (off + r.value) % BSIZE == 0)
      ensures r.Some? ==> File(n) == Spliced(old(File(n)), off, src[..r.value])
      ensures forall m :: m in old(inodes) && m != n ==> File(m) == old(File(m))
    {
      hide FsInv, HasBlock, PtrAt, Stored, SizeOk, Content, Full, Spliced, Took, MissingIn, Free;
      ghost var s := Now();
      got := {};
      FileSize(disk, bitmap, inodes, own, start, n);
      if off > inodes[n].size || off + |src| >= MAXSIZE {
        return None, got;
      }
      var tot;
      tot, got := WritePieces(n, src, off);
      ghost var s1 := Now();
      StoredSize(s.disk, s.inodes, disk, inodes, n, off, src[..tot]);
      ghost var size := if off + tot > inodes[n].size then off + tot else inodes[n].size;
      StoredContent(s.disk, s.inodes, disk, inodes, n, off, src[..tot], inodes[n].(size := size));
      ResizeValid(disk, bitmap, inodes, own, start, n, size);
      OthersKept(s.disk, s.inodes, disk, inodes, n, off, src[..tot], size);
      TookResize(s, s1, n, got, size);
      if tot < |src| { HasIrrelevant(disk, inodes[n], size, (off + tot) / BSIZE); }
      if off + tot > inodes[n].size {
        inodes := inodes[n := inodes[n].(size := off + tot)];
      }
      assert inodes == s1.inodes[n := s1.inodes[n].(size := size)];
      r := Some(tot);
    }
  }

  lemma PtrFacts(disk: seq<Block>, inodes: Inodes, own: Owners, n: nat, p: Pos)
    requires TreeInv(disk, inodes, own) && n in inodes && ValidPos(p)
    ensures |inodes[n].addrs| == NDIRECT + 2 && |disk| < 0x1_0000_0000
    ensures PtrAt(disk, inodes[n], p) != 0 ==> PtrAt(disk, inodes[n], p) in own && 0 < PtrAt(disk, inodes[n], p) < |disk|
    ensures !InInode(p) && PtrAt(disk, inodes[n], Parent(p)) != 0 ==>
              PtrAt(disk, inodes[n], Parent(p)) in own && PtrAt(disk, inodes[n], Parent(p)) < |disk|
  {
    assert PtrOk(disk, inodes, own, n, p);
    if !InInode(p) { assert PtrOk(disk, inodes, own, n, Parent(p)); }
  }

  lemma FsPtr(disk: seq<Block>, bitmap: seq<bool>, inodes: Inodes, own: Owners, start: nat, n: nat, p: Pos)
    requires FsInv(disk, bitmap, inodes, own, start) && n in inodes && ValidPos(p)
    ensures |inodes[n].addrs| == NDIRECT + 2
    ensures PtrAt(disk, inodes[n], p) < |disk| && (PtrAt(disk, inodes[n], p) != 0 ==> PtrAt(disk, inodes[n], p) in own)
  {
    hide TreeInv;
    PtrFacts(disk, inodes, own, n, p);
  }

  lemma FileSize(disk: seq<Block>, bitmap: seq<bool>, inodes: Inodes, own: Owners, start: nat, n: nat)
    requires FsInv(disk, bitmap, inodes, own, start) && n in inodes
    ensures inodes[n].size < MAXSIZE && |Content(disk, inodes[n])| == inodes[n].size && SizeOk(disk, inodes[n])
    ensures forall m :: m in inodes ==> SizeOk(disk, inodes[m])
  {
    hide TreeInv;
  }

  lemma FsTreeInv(disk: seq<Block>, bitmap: seq<bool>, inodes: Inodes, own: Owners, start: nat)
    requires FsInv(disk, bitmap, inodes, own, start)
    ensures TreeInv(disk, inodes, own)
  {
    hide TreeInv;
  }

  lemma KeptKeys(disk: seq<Block>, inodes: Inodes, disk': seq<Block>, inodes': Inodes)
    requires Kept(disk, inodes, disk', inodes')
    ensures inodes'.Keys == inodes.Keys
  {
  }

  lemma BlockThere(disk: seq<Block>, bitmap: seq<bool>, inodes: Inodes, own: Owners, start: nat, n: nat, o: nat)
    requires FsInv(disk, bitmap, inodes, own, start) && n in inodes && o < inodes[n].size
    ensures o / BSIZE < MAXFILE && HasBlock(disk, inodes[n], o / BSIZE)
  {
    hide TreeInv;
    assert SizeOk(disk, inodes[n]) && (o / BSIZE) * BSIZE < inodes[n].size;
  }

  lemma BlockSlice(disk: seq<Block>, ino: Inode, o: nat, m: nat, addr: nat)
    requires ino.size < MAXSIZE && o + m <= ino.size && o % BSIZE + m <= BSIZE
    requires addr == PtrAt(disk, ino, LeafPos(o / BSIZE)) && 0 < addr < |disk|
    ensures disk[addr][o % BSIZE..o % BSIZE + m] == Content(disk, ino)[o..o + m]
  {
    hide PtrAt;
    var xs, ys := disk[addr][o % BSIZE..o % BSIZE + m], Content(disk, ino)[o..o + m];
    forall i | 0 <= i < m ensures xs[i] == ys[i] {
      assert (o + i) / BSIZE == o / BSIZE && (o + i) % BSIZE == o % BSIZE + i;
      assert FileByte(disk, ino, o + i) == disk[addr][o % BSIZE + i];
    }
  }

  lemma StoreValid(disk: seq<Block>, bitmap: seq<bool>, inodes: Inodes, own: Owners, start: nat, n: nat, bn: nat, c: nat, blk: Block)
    requires FsInv(disk, bitmap, inodes, own, start) && n in inodes && bn < MAXFILE
    requires c == PtrAt(disk, inodes[n], LeafPos(bn)) && c != 0
    ensures c < |disk| && FsInv(disk[c := blk], bitmap, inodes, own, start)
  {
    hide TreeInv, PtrAt, LeafPos, HasBlock, Marked;
    StoreBytes(disk, inodes, own, n, bn, c, blk, n, 0);
    LeafIsLeaf(bn);
    StoreKeepsTree(disk, inodes, own, c, blk);
    forall m | m in inodes ensures SizeOk(disk[c := blk], inodes[m]) {
      forall b | 0 <= b && b * BSIZE < inodes[m].size ensures HasBlock(disk[c := blk], inodes[m], b) {
        StoreHas(disk, inodes, own, n, bn, c, blk, m, b);
      }
    }
  }

  lemma LeafIsLeaf(bn: nat)
    requires bn < MAXFILE
    ensures IsLeaf(LeafPos(bn))
  {
  }

  lemma StoredSize(d0: seq<Block>, i0: Inodes, disk: seq<Block>, inodes: Inodes, n: nat, off: nat, src: seq<Byte>)
    requires Stored(d0, i0, disk, inodes, n, off, src)
    ensures n in inodes && n in i0 && inodes[n].size == i0[n].size
  {
    hide HasBlock, FileByte;
  }

  lemma ResizeValid(disk: seq<Block>, bitmap: seq<bool>, inodes: Inodes, own: Owners, start: nat, n: nat, size: nat)
    requires FsInv(disk, bitmap, inodes, own, start) && n in inodes && SizeOk(disk, inodes[n].(size := size))
    ensures FsInv(disk, bitmap, inodes[n := inodes[n].(size := size)], own, start)
  {
    hide TreeInv, SizeOk;
    ResizeTree(disk, inodes, own, n, size);
  }

  lemma OthersKept(d0: seq<Block>, i0: Inodes, disk: seq<Block>, inodes: Inodes, n: nat, off: nat, src: seq<Byte>, size: nat)
    requires Stored(d0, i0, disk, inodes, n, off, src) && forall m :: m in i0 ==> SizeOk(d0, i0[m])
    ensures var inodes' := inodes[n := inodes[n].(size := size)];
            forall m :: m in i0 && m != n ==> m in inodes' && inodes'[m].size < MAXSIZE && Content(disk, inodes'[m]) == Content(d0, i0[m])
  {
    hide HasBlock, FileByte, SameBytes;
    forall m | m in i0 && m != n ensures m in inodes && inodes[m].size < MAXSIZE && Content(disk, inodes[m]) == Content(d0, i0[m]) {
      SameContent(d0, i0[m], disk, inodes[m]);
    }
  }

  // ----- unlinking -----

  /** No pointer hangs below position p. */
  ghost predicate Childless(disk: seq<Block>, ino: Inode, p: Pos) {
    match p
    case Ind => forall j :: 0 <= j < NINDIRECT ==> PtrAt(disk, ino, IndLeaf(j)) == 0
    case Dbl => false
    case Mid(_) => false
    case _ => true
  }

  /** The pointer at position p of file n is cleared and its block disowned. */
  ghost predicate Unlinks(disk: seq<Block>, inodes: Inodes, own: Owners, n: nat, p: Pos,
                          disk': seq<Block>, inodes': Inodes, own': Owners)
  {
    && n in inodes && ValidPos(p) && |inodes[n].addrs| == NDIRECT + 2 && own' == own - {PtrAt(disk, inodes[n], p)}
    && PtrAt(disk, inodes[n], p) != 0 && Childless(disk, inodes[n], p)
    && if InInode(p) then
         inodes' == inodes[n := inodes[n].(addrs := inodes[n].addrs[Slot(p) := 0])] && disk' == disk
       else
         var q := PtrAt(disk, inodes[n], Parent(p));
         0 < q < |disk| && inodes' == inodes && disk' == disk[q := Put32(disk[q], Slot(p), 0)]
  }

  lemma ParentThere(disk: seq<Block>, inodes: Inodes, own: Owners, n: nat, p: Pos)
    requires TreeInv(disk, inodes, own) && n in inodes && ValidPos(p) && !InInode(p) && PtrAt(disk, inodes[n], p) != 0
    ensures 0 < PtrAt(disk, inodes[n], Parent(p)) < |disk|
  {
    assert PtrOk(disk, inodes, own, n, Parent(p));
  }

  lemma UnlinksWord(disk: seq<Block>, inodes: Inodes, own: Owners, n: nat, p: Pos,
                    disk': seq<Block>, inodes': Inodes, own': Owners, q: nat, j: nat)
    requires Unlinks(disk, inodes, own, n, p, disk', inodes', own') && j < NINDIRECT
    ensures Word(disk', q, j) ==
            if !InInode(p) && q == PtrAt(disk, inodes[n], Parent(p)) && j == Slot(p) then 0 else Word(disk, q, j)
  {
    hide Get32, Put32, PtrAt, Childless;
    if !InInode(p) {
      PutGet(disk[PtrAt(disk, inodes[n], Parent(p))], Slot(p), 0, j);
    }
  }

  lemma UnlinksPtr(disk: seq<Block>, inodes: Inodes, own: Owners, n: nat, p: Pos,
                   disk': seq<Block>, inodes': Inodes, own': Owners, n2: nat, p2: Pos)
    requires TreeInv(disk, inodes, own) && Unlinks(disk, inodes, own, n, p, disk', inodes', own')
    requires n2 in inodes && ValidPos(p2)
    ensures n2 in inodes' && |inodes'[n2].addrs| == NDIRECT + 2
    ensures PtrAt(disk', inodes'[n2], p2) == if n2 == n && p2 == p then 0 else PtrAt(disk, inodes[n2], p2)
  {
    hide Word, Put32;
    if !InInode(p) { assert PtrOk(disk, inodes, own, n, Parent(p)); }
    var ino' := inodes'[n2];
    match p2
    case Direct(_) =>
    case Ind =>
    case Dbl =>
    case IndLeaf(j) =>
      assert PtrOk(disk, inodes, own, n2, Ind);
      ZeroWord(disk', j);
      UnlinksWord(disk, inodes, own, n, p, disk', inodes', own', Addr(ino', NDIRECT), j);
    case Mid(i) =>
      assert PtrOk(disk, inodes, own, n2, Dbl);
      UnlinksWord(disk, inodes, own, n, p, disk', inodes', own', Addr(ino', NDIRECT + 1), i);
    case DblLeaf(i, j) =>
      assert PtrOk(disk, inodes, own, n2, Dbl) && PtrOk(disk, inodes, own, n2, Mid(i));
      UnlinksWord(disk, inodes, own, n, p, disk', inodes', own', Addr(ino', NDIRECT + 1), i);
      UnlinksWord(disk, inodes, own, n, p, disk', inodes', own', Word(disk', Addr(ino', NDIRECT + 1), i), j);
  }

  lemma UnlinksTree(disk: seq<Block>, inodes: Inodes, own: Owners, n: nat, p: Pos,
                    disk': seq<Block>, inodes': Inodes, own': Owners)
    requires TreeInv(disk, inodes, own) && Unlinks(disk, inodes, own, n, p, disk', inodes', own')
    ensures TreeInv(disk', inodes', own')
  {
    hide PtrAt, Put32, Childless;
    assert PtrOk(disk, inodes, own, n, p);
    forall n2, p2 | n2 in inodes' && ValidPos(p2) ensures PtrOk(disk', inodes', own', n2, p2) {
      assert PtrOk(disk, inodes, own, n2, p2);
      UnlinksPtr(disk, inodes, own, n, p, disk', inodes', own', n2, p2);
    }
    forall c | c in own' ensures OwnerOk(disk', inodes', own', c) {
      assert OwnerOk(disk, inodes, own, c);
      UnlinksPtr(disk, inodes, own, n, p, disk', inodes', own', own[c].0, own[c].1);
    }
  }

  lemma UnlinksOther(disk: seq<Block>, inodes: Inodes, own: Owners, n: nat, p: Pos,
                     disk': seq<Block>, inodes': Inodes, own': Owners, m: nat)
    requires TreeInv(disk, inodes, own) && Unlinks(disk, inodes, own, n, p, disk', inodes', own') && m in inodes && m != n
    ensures m in inodes' && inodes'[m] == inodes[m] && SameBytes(disk, inodes[m], disk', inodes'[m])
  {
    hide PtrAt, Put32, Childless;
    UnlinksPtr(disk, inodes, own, n, p, disk', inodes', own', m, p);
    forall bn | 0 <= bn < MAXFILE && HasBlock(disk, inodes[m], bn) ensures HasBlock(disk', inodes'[m], bn) {
      UnlinksPtr(disk, inodes, own, n, p, disk', inodes', own', m, LeafPos(bn));
    }
    forall k | 0 <= k < MAXSIZE ensures FileByte(disk', inodes'[m], k) == FileByte(disk, inodes[m], k) {
      UnlinksByte(disk, inodes, own, n, p, disk', inodes', own', m, k);
    }
  }

  lemma UnlinksByte(disk: seq<Block>, inodes: Inodes, own: Owners, n: nat, p: Pos,
                    disk': seq<Block>, inodes': Inodes, own': Owners, m: nat, k: nat)
    requires TreeInv(disk, inodes, own) && Unlinks(disk, inodes, own, n, p, disk', inodes', own') && m in inodes && m != n && k < MAXSIZE
    ensures m in inodes' && FileByte(disk', inodes'[m], k) == FileByte(disk, inodes[m], k)
  {
    hide PtrAt, Put32, Childless;
    if !InInode(p) { assert PtrOk(disk, inodes, own, n, Parent(p)); }
    UnlinksPtr(disk, inodes, own, n, p, disk', inodes', own', m, LeafPos(k / BSIZE));
    assert PtrOk(disk, inodes, own, m, LeafPos(k / BSIZE));
  }

  lemma UnlinksValid(disk: seq<Block>, bitmap: seq<bool>, inodes: Inodes, own: Owners, start: nat, n: nat, p: Pos,
                     disk': seq<Block>, bitmap': seq<bool>, inodes': Inodes, own': Owners)
    requires FsInv(disk, bitmap, inodes, own, start) && Unlinks(disk, inodes, own, n, p, disk', inodes', own')
    requires PtrAt(disk, inodes[n], p) < |bitmap| && bitmap' == bitmap[PtrAt(disk, inodes[n], p) := false]
    requires inodes[n].size == 0
    ensures FsInv(disk', bitmap', inodes', own', start)
  {
    hide TreeInv, PtrAt, Childless, SizeOk, Put32;
    PtrFacts(disk, inodes, own, n, p);
    UnlinksTree(disk, inodes, own, n, p, disk', inodes', own');
    forall m | m in inodes' ensures SizeOk(disk', inodes'[m]) {
      if m == n {
        EmptySizeOk(disk', inodes'[n]);
      } else {
        UnlinksOther(disk, inodes, own, n, p, disk', inodes', own', m);
        SameContent(disk, inodes[m], disk', inodes'[m]);
      }
    }
  }

  lemma EmptySizeOk(disk: seq<Block>, ino: Inode)
    requires ino.size == 0
    ensures SizeOk(disk, ino)
  {
  }

  lemma UnlinksKeeps(disk: seq<Block>, inodes: Inodes, own: Owners, n: nat, p: Pos,
                     disk': seq<Block>, inodes': Inodes, own': Owners)
    requires TreeInv(disk, inodes, own) && Unlinks(disk, inodes, own, n, p, disk', inodes', own')
    ensures inodes'.Keys == inodes.Keys && |disk'| == |disk| && inodes'[n].size == inodes[n].size
    ensures |inodes'[n].addrs| == NDIRECT + 2
    ensures forall b :: b in own' ==> b in own && own'[b] == own[b]
    ensures forall b :: b in own && own[b].0 != n ==> b in own'
    ensures forall p2 :: ValidPos(p2) ==>
              PtrAt(disk', inodes'[n], p2) == if p2 == p then 0 else PtrAt(disk, inodes[n], p2)
  {
    hide PtrAt, Childless, Put32;
    assert PtrOk(disk, inodes, own, n, p);
    forall p2 | ValidPos(p2) ensures PtrAt(disk', inodes'[n], p2) == if p2 == p then 0 else PtrAt(disk, inodes[n], p2) {
      UnlinksPtr(disk, inodes, own, n, p, disk', inodes', own', n, p2);
    }
  }

  /** The pointer at p is cleared, every other pointer of the file stays. */
  ghost predicate Cut(disk: seq<Block>, ino: Inode, disk': seq<Block>, ino': Inode, p: Pos) {
    forall p2 :: ValidPos(p2) ==> PtrAt(disk', ino', p2) == if p2 == p then 0 else PtrAt(disk, ino, p2)
  }

  lemma CutAt(disk: seq<Block>, ino: Inode, disk': seq<Block>, ino': Inode, p: Pos, p2: Pos)
    requires Cut(disk, ino, disk', ino', p) && ValidPos(p2)
    ensures PtrAt(disk', ino', p2) == if p2 == p then 0 else PtrAt(disk, ino, p2)
  {
  }

  /** The direct pointers below i and, if asked, the indirect pointers below j are zero. */
  ghost predicate Cleared(disk: seq<Block>, ino: Inode, i: nat, j: nat) {
    && (forall k :: 0 <= k < i && k < NDIRECT ==> PtrAt(disk, ino, Direct(k)) == 0)
    && (forall k :: 0 <= k < j && k < NINDIRECT ==> PtrAt(disk, ino, IndLeaf(k)) == 0)
  }

  lemma CutCleared(disk: seq<Block>, ino: Inode, disk': seq<Block>, ino': Inode, p: Pos, i: nat, j: nat)
    requires Cut(disk, ino, disk', ino', p) && Cleared(disk, ino, i, j)
    ensures Cleared(disk', ino', i, j)
    ensures p == Direct(i) ==> Cleared(disk', ino', i + 1, j)
    ensures p == IndLeaf(j) ==> Cleared(disk', ino', i, j + 1)
  {
    hide PtrAt;
  }

  lemma ClearedNone(disk: seq<Block>, ino: Inode, i: nat, j: nat)
    ensures Cleared(disk, ino, 0, 0)
    ensures Cleared(disk, ino, i, j) && (i < NDIRECT ==> PtrAt(disk, ino, Direct(i)) == 0) ==> Cleared(disk, ino, i + 1, j)
    ensures Cleared(disk, ino, i, j) && (j < NINDIRECT ==> PtrAt(disk, ino, IndLeaf(j)) == 0) ==> Cleared(disk, ino, i, j + 1)
    ensures Cleared(disk, ino, i, NINDIRECT) ==> Childless(disk, ino, Ind)
  {
    hide PtrAt;
  }

  lemma ClearedLess(disk: seq<Block>, ino: Inode, i: nat, j: nat)
    requires Cleared(disk, ino, i, j)
    ensures Cleared(disk, ino, i, 0)
  {
    hide PtrAt;
  }

  lemma ResizeEmpty(disk: seq<Block>, bitmap: seq<bool>, inodes: Inodes, own: Owners, start: nat, n: nat)
    requires FsInv(disk, bitmap, inodes, own, start) && n in inodes
    ensures FsInv(disk, bitmap, inodes[n := inodes[n].(size := 0)], own, start)
  {
    hide TreeInv, SizeOk;
    EmptySizeOk(disk, inodes[n].(size := 0));
    ResizeTree(disk, inodes, own, n, 0);
  }

  lemma TruncStart(disk: seq<Block>, inodes0: Inodes, inodes: Inodes, n: nat)
    requires n in inodes0 && inodes == inodes0[n := inodes0[n].(size := 0)]
    ensures forall m :: m in inodes && m != n ==> inodes[m] == inodes0[m] && SameBytes(disk, inodes0[m], disk, inodes[m])
  {
    hide HasBlock, FileByte;
  }

  lemma PtrDef(disk: seq<Block>, ino: Inode, i: nat)
    requires |ino.addrs| == NDIRECT + 2 && i < NDIRECT
    ensures PtrAt(disk, ino, Direct(i)) == ino.addrs[i] && Childless(disk, ino, Direct(i))
    ensures PtrAt(disk, ino, Ind) == ino.addrs[NDIRECT] && PtrAt(disk, ino, Dbl) == ino.addrs[NDIRECT + 1]
    ensures (forall j :: 0 <= j < NINDIRECT ==> PtrAt(disk, ino, IndLeaf(j)) == 0) ==> Childless(disk, ino, Ind)
  {
  }

  lemma PtrDefInd(disk: seq<Block>, ino: Inode, j: nat)
    requires |ino.addrs| == NDIRECT + 2 && j < NINDIRECT && 0 < ino.addrs[NDIRECT] < |disk|
    ensures PtrAt(disk, ino, IndLeaf(j)) == Get32(disk[ino.addrs[NDIRECT]], j) && Childless(disk, ino, IndLeaf(j))
  {
  }

  /** A tree with no direct, indirect or double-indirect root owns nothing. */
  lemma NothingOwned(disk: seq<Block>, bitmap: seq<bool>, inodes: Inodes, own: Owners, start: nat, n: nat)
    requires FsInv(disk, bitmap, inodes, own, start) && n in inodes
    requires PtrAt(disk, inodes[n], Ind) == 0 && PtrAt(disk, inodes[n], Dbl) == 0
    requires Cleared(disk, inodes[n], NDIRECT, 0)
    ensures forall b :: b in own ==> own[b].0 != n
  {
    forall b | b in own ensures own[b].0 != n {
      assert OwnerOk(disk, inodes, own, b);
    }
  }
}
