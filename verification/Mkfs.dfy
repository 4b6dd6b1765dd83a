/**
 The image builder: iappend allocates blocks with a bump counter and builds the
 same trees with its own code; balloc writes the bitmap of the finished image.
 */
module Mkfs {
  import opened Wrappers
  import opened FsTree
  import opened FileSystem

  /** Blocks below `start` are metadata, the allocated ones are start .. freeblock, and the rest of the image is zero. */
  ghost predicate MkInv(disk: seq<Block>, inodes: Inodes, own: Owners, start: nat, freeblock: nat) {
    && TreeInv(disk, inodes, own) && 0 < start <= freeblock <= |disk|
    && (forall b :: b in own <==> start <= b < freeblock)
    && (forall b :: freeblock <= b < |disk| ==> disk[b] == ZeroBlock())
    && (forall n :: n in inodes ==> SizeOk(disk, inodes[n]))
  }

  // ----- the exact shape of the trees iappend builds -----

  /** The first file block for which position p is needed. */
  function First(p: Pos): nat {
    match p
    case Direct(i) => i
    case Ind => NDIRECT
    case IndLeaf(j) => NDIRECT + j
    case Dbl => NDIRECT + NINDIRECT
    case Mid(i) => NDIRECT + NINDIRECT + i * NINDIRECT
    case DblLeaf(i, j) => NDIRECT + NINDIRECT + i * NINDIRECT + j
  }

  ghost predicate ShapeAt(disk: seq<Block>, ino: Inode, d: nat, p: Pos) {
    ValidPos(p) ==> (PtrAt(disk, ino, p) != 0 <==> First(p) < d)
  }

  /** The file has exactly its first d data blocks and the index blocks they need. */
  ghost predicate Shape(disk: seq<Block>, ino: Inode, d: nat) {
    forall p :: ShapeAt(disk, ino, d, p)
  }

  /** Every byte from `from` on is zero. */
  ghost predicate Zeros(disk: seq<Block>, ino: Inode, from: nat) {
    forall k :: from <= k < MAXSIZE ==> FileByte(disk, ino, k) == 0
  }

  function Blocks(size: nat): nat {
    (size + BSIZE - 1) / BSIZE
  }

  /** The blocks that data block d takes with it: itself and the index blocks it is the first to need. */
  function Cost(d: nat): nat {
    1 + (if d == NDIRECT then 1 else 0) + (if d == NDIRECT + NINDIRECT then 1 else 0)
    + (if d >= NDIRECT + NINDIRECT && (d - NDIRECT - NINDIRECT) % NINDIRECT == 0 then 1 else 0)
  }

  /** The blocks of a file with d data blocks, index blocks included. */
  function Total(d: nat): nat {
    if d == 0 then 0 else Total(d - 1) + Cost(d - 1)
  }

  lemma {:induction false} TotalGrows(d: nat, e: nat)
    requires d <= e
    ensures Total(d) <= Total(e)
    decreases e - d
  {
    if d < e { TotalGrows(d + 1, e); }
  }

  function AddedAt(d: nat): set<Pos>
    requires d < MAXFILE
  {
    {LeafPos(d)} + (if d == NDIRECT then {Ind} else {}) + (if d == NDIRECT + NINDIRECT then {Dbl} else {})
    + (if d >= NDIRECT + NINDIRECT && (d - NDIRECT - NINDIRECT) % NINDIRECT == 0 then {Mid((d - NDIRECT - NINDIRECT) / NINDIRECT)} else {})
  }

  lemma AddedExactly(d: nat, p: Pos)
    requires d < MAXFILE && ValidPos(p)
    ensures p in AddedAt(d) <==> First(p) == d
  {
  }

  lemma GainsShapeAt(d0: seq<Block>, ino0: Inode, d1: seq<Block>, ino1: Inode, gained: bool, d: nat, e: nat, p: Pos)
    requires ShapeAt(d0, ino0, d, p) && (ValidPos(p) ==> GainsAt(d0, ino0, d1, ino1, gained, p))
    requires ValidPos(p) ==> (First(p) < e <==> First(p) < d || gained)
    ensures ShapeAt(d1, ino1, e, p)
  {
    hide PtrAt, First;
  }

  /** A file that gains nothing keeps its shape. */
  lemma GainsOther(d0: seq<Block>, i0: Inodes, d1: seq<Block>, i1: Inodes, n: nat, ps: set<Pos>, m: nat, d: nat)
    requires Gains(d0, i0, d1, i1, n, ps) && m in i0 && Shape(d0, i0[m], d) && (m != n || ps == {})
    ensures m in i1 && Shape(d1, i1[m], d)
  {
    hide GainsAt, ShapeAt, First;
    forall p ensures ShapeAt(d1, i1[m], d, p) {
      assert ShapeAt(d0, i0[m], d, p);
      GainsShapeAt(d0, i0[m], d1, i1[m], m == n && p in ps, d, d, p);
    }
  }

  /** File n with d data blocks has d + 1 after gaining what block d needs. */
  lemma GainsNext(d0: seq<Block>, i0: Inodes, d1: seq<Block>, i1: Inodes, n: nat, d: nat, e: nat)
    requires d < MAXFILE && e == d + 1 && Gains(d0, i0, d1, i1, n, AddedAt(d)) && n in i0 && Shape(d0, i0[n], d)
    ensures n in i1 && Shape(d1, i1[n], e)
  {
    hide GainsAt, ShapeAt, First, AddedAt;
    forall p ensures ShapeAt(d1, i1[n], e, p) {
      assert ShapeAt(d0, i0[n], d, p);
      if ValidPos(p) { AddedExactly(d, p); }
      GainsShapeAt(d0, i0[n], d1, i1[n], p in AddedAt(d), d, e, p);
    }
  }

  lemma MkLinks(disk: seq<Block>, inodes: Inodes, own: Owners, start: nat, b: nat, n: nat, p: Pos,
                disk': seq<Block>, inodes': Inodes, own': Owners)
    requires MkInv(disk, inodes, own, start, b) && b < |disk| && Links(disk, inodes, own, n, p, b, disk', inodes', own')
    ensures MkInv(disk', inodes', own', start, b + 1) && Kept(disk, inodes, disk', inodes')
    ensures PtrAt(disk', inodes'[n], p) == b
  {
    hide TreeInv, SizeOk, SameBytes, PtrAt, ZeroBlock, Put32;
    LinksKeepsTree(disk, inodes, own, n, p, b, disk', inodes', own');
    LinksPtr(disk, inodes, own, n, p, b, disk', inodes', own', n, p);
    PtrFacts(disk, inodes, own, n, p);
    forall n2 | n2 in inodes
      ensures n2 in inodes' && SameBytes(disk, inodes[n2], disk', inodes'[n2]) && SizeOk(disk', inodes'[n2])
    {
      LinksBytes(disk, inodes, own, n, p, b, disk', inodes', own', n2);
      SameContent(disk, inodes[n2], disk', inodes'[n2]);
    }
  }

  lemma MkStore(disk: seq<Block>, inodes: Inodes, own: Owners, start: nat, freeblock: nat, n: nat, bn: nat, c: nat, blk: Block)
    requires MkInv(disk, inodes, own, start, freeblock) && n in inodes && bn < MAXFILE
    requires c == PtrAt(disk, inodes[n], LeafPos(bn)) && c != 0
    ensures c < |disk| && MkInv(disk[c := blk], inodes, own, start, freeblock)
  {
    hide TreeInv, PtrAt, LeafPos, HasBlock;
    StoreBytes(disk, inodes, own, n, bn, c, blk, n, 0);
    LeafIsLeaf(bn);
    StoreKeepsTree(disk, inodes, own, c, blk);
    forall m | m in inodes ensures SizeOk(disk[c := blk], inodes[m]) {
      forall b | 0 <= b && b * BSIZE < inodes[m].size ensures HasBlock(disk[c := blk], inodes[m], b) {
        StoreHas(disk, inodes, own, n, bn, c, blk, m, b);
      }
    }
  }

  /** The finished image is a consistent kernel disk. */
  lemma FinishedImage(disk: seq<Block>, inodes: Inodes, own: Owners, start: nat, freeblock: nat, bitmap: seq<bool>)
    requires MkInv(disk, inodes, own, start, freeblock) && |bitmap| == |disk|
    requires forall b :: 0 <= b < |bitmap| ==> (bitmap[b] <==> b < freeblock)
    ensures FsInv(disk, bitmap, inodes, own, start)
  {
    hide TreeInv, SizeOk;
  }

  /** File n gains the pointers at ps; no block and no byte of any file is lost. */
  ghost predicate Grew(d0: seq<Block>, i0: Inodes, d1: seq<Block>, i1: Inodes, n: nat, ps: set<Pos>) {
    Gains(d0, i0, d1, i1, n, ps) && Kept(d0, i0, d1, i1)
  }

  lemma GrewTrans(d0: seq<Block>, i0: Inodes, d1: seq<Block>, i1: Inodes, d2: seq<Block>, i2: Inodes, n: nat, ps: set<Pos>, qs: set<Pos>)
    requires Grew(d0, i0, d1, i1, n, ps) && Grew(d1, i1, d2, i2, n, qs)
    ensures Grew(d0, i0, d2, i2, n, ps + qs)
  {
    hide Gains, Kept;
    GainsTrans(d0, i0, d1, i1, d2, i2, n, ps, qs);
    KeptTrans(d0, i0, d1, i1, d2, i2);
  }

  /** A pointer that was there, or was gained, is there. */
  lemma GrewPtr(d0: seq<Block>, i0: Inodes, d1: seq<Block>, i1: Inodes, n: nat, ps: set<Pos>, p: Pos)
    requires Grew(d0, i0, d1, i1, n, ps) && n in i0 && ValidPos(p)
    ensures n in i1 && (PtrAt(d1, i1[n], p) != 0 <==> PtrAt(d0, i0[n], p) != 0 || p in ps)
  {
    hide PtrAt, Kept;
    assert GainsAt(d0, i0[n], d1, i1[n], p in ps, p);
  }

  lemma ShapePtr(disk: seq<Block>, ino: Inode, d: nat, p: Pos)
    requires Shape(disk, ino, d) && ValidPos(p)
    ensures PtrAt(disk, ino, p) != 0 <==> First(p) < d
  {
    hide PtrAt, First;
    assert ShapeAt(disk, ino, d, p);
  }

  /** A finished file: its blocks are exactly those its size needs, and the rest of the last one is zero. */
  ghost predicate FileOk(disk: seq<Block>, ino: Inode, d: nat, off: nat) {
    Shape(disk, ino, d) && Zeros(disk, ino, off)
  }

  /** Every file is finished, but file n has d data blocks and ends at off. */
  ghost predicate FilesBut(disk: seq<Block>, inodes: Inodes, n: nat, d: nat, off: nat) {
    forall m :: m in inodes ==> if m == n then FileOk(disk, inodes[m], d, off) else FileOk(disk, inodes[m], Blocks(inodes[m].size), inodes[m].size)
  }

  ghost predicate Files(disk: seq<Block>, inodes: Inodes) {
    forall m :: m in inodes ==> FileOk(disk, inodes[m], Blocks(inodes[m].size), inodes[m].size)
  }

  lemma ZerosKept(d0: seq<Block>, ino0: Inode, d1: seq<Block>, ino1: Inode, from: nat)
    requires Zeros(d0, ino0, from) && SameBytes(d0, ino0, d1, ino1)
    ensures Zeros(d1, ino1, from)
  {
    hide FileByte, HasBlock;
  }

  /** Taking what data block d needs changes no byte and completes the shape of file n. */
  lemma FilesGain(d0: seq<Block>, i0: Inodes, d1: seq<Block>, i1: Inodes, n: nat, d: nat, off: nat, ps: set<Pos>, e: nat)
    requires FilesBut(d0, i0, n, d, off) && Gains(d0, i0, d1, i1, n, ps) && Kept(d0, i0, d1, i1)
    requires if ps == {} then e == d else d < MAXFILE && ps == AddedAt(d) && e == d + 1
    ensures FilesBut(d1, i1, n, e, off)
  {
    hide Gains, Shape, Zeros, SameBytes, AddedAt;
    forall m | m in i1
      ensures if m == n then FileOk(d1, i1[m], e, off) else FileOk(d1, i1[m], Blocks(i1[m].size), i1[m].size)
    {
      ZerosKept(d0, i0[m], d1, i1[m], if m == n then off else i0[m].size);
      if m != n || ps == {} {
        GainsOther(d0, i0, d1, i1, n, ps, m, if m == n then d else Blocks(i0[m].size));
      } else {
        GainsNext(d0, i0, d1, i1, n, d, e);
      }
    }
  }

  lemma StoreShape(disk: seq<Block>, inodes: Inodes, own: Owners, n: nat, bn: nat, c: nat, blk: Block, m: nat, d: nat)
    requires TreeInv(disk, inodes, own) && n in inodes && m in inodes && bn < MAXFILE && Shape(disk, inodes[m], d)
    requires c == PtrAt(disk, inodes[n], LeafPos(bn)) && c != 0
    ensures c < |disk| && Shape(disk[c := blk], inodes[m], d)
  {
    hide PtrAt, TreeInv, First;
    StoreBytes(disk, inodes, own, n, bn, c, blk, n, 0);
    LeafIsLeaf(bn);
    var disk' := disk[c := blk];
    forall p ensures ShapeAt(disk', inodes[m], d, p) {
      assert ShapeAt(disk, inodes[m], d, p);
      if ValidPos(p) { StorePtr(disk, inodes, own, c, blk, m, p); }
    }
  }

  /** Storing bytes at off inside block bn leaves zeros behind them. */
  lemma StoreZeros(disk: seq<Block>, inodes: Inodes, own: Owners, n: nat, bn: nat, c: nat, off: nat, piece: seq<Byte>, m: nat, from: nat, from': nat)
    requires TreeInv(disk, inodes, own) && n in inodes && m in inodes && bn < MAXFILE && Zeros(disk, inodes[m], from)
    requires c == PtrAt(disk, inodes[n], LeafPos(bn)) && 0 < c < |disk| && off / BSIZE == bn && off % BSIZE + |piece| <= BSIZE
    requires if m == n then from == off && from' == off + |piece| else from' == from
    ensures Zeros(disk[c := SpliceBlock(disk[c], off % BSIZE, piece)], inodes[m], from')
  {
    hide PtrAt, TreeInv, LeafPos, FileByte;
    var blk := SpliceBlock(disk[c], off % BSIZE, piece);
    var disk' := disk[c := blk];
    forall k | from' <= k < MAXSIZE ensures FileByte(disk', inodes[m], k) == 0 {
      StoreBytes(disk, inodes, own, n, bn, c, blk, m, k);
      ByteInBlock(disk, inodes[n], bn, c, k);
    }
  }

  lemma FilesStore(disk: seq<Block>, inodes: Inodes, own: Owners, n: nat, d: nat, bn: nat, c: nat, off: nat, piece: seq<Byte>)
    requires TreeInv(disk, inodes, own) && n in inodes && bn < MAXFILE && FilesBut(disk, inodes, n, d, off)
    requires c == PtrAt(disk, inodes[n], LeafPos(bn)) && 0 < c < |disk| && off / BSIZE == bn && off % BSIZE + |piece| <= BSIZE
    ensures FilesBut(disk[c := SpliceBlock(disk[c], off % BSIZE, piece)], inodes, n, d, off + |piece|)
  {
    hide PtrAt, TreeInv, LeafPos, Shape, Zeros, SpliceBlock;
    var disk' := disk[c := SpliceBlock(disk[c], off % BSIZE, piece)];
    forall m | m in inodes
      ensures if m == n then FileOk(disk', inodes[m], d, off + |piece|) else FileOk(disk', inodes[m], Blocks(inodes[m].size), inodes[m].size)
    {
      StoreShape(disk, inodes, own, n, bn, c, SpliceBlock(disk[c], off % BSIZE, piece), m, if m == n then d else Blocks(inodes[m].size));
      StoreZeros(disk, inodes, own, n, bn, c, off, piece, m, if m == n then off else inodes[m].size, if m == n then off + |piece| else inodes[m].size);
    }
  }

  lemma FilesSize(disk: seq<Block>, inodes: Inodes, n: nat, d: nat, off: nat)
    requires FilesBut(disk, inodes, n, d, off) && n in inodes && d == Blocks(off)
    ensures Files(disk, inodes[n := inodes[n].(size := off)])
  {
    hide FileOk;
    SizeFree(disk, inodes[n], off, d, off);
  }

  lemma FilesFrom(disk: seq<Block>, inodes: Inodes, n: nat)
    requires Files(disk, inodes) && n in inodes
    ensures FilesBut(disk, inodes, n, Blocks(inodes[n].size), inodes[n].size)
  {
    hide FileOk;
  }

  lemma SizeFree(disk: seq<Block>, ino: Inode, size: nat, d: nat, off: nat)
    requires FileOk(disk, ino, d, off)
    ensures FileOk(disk, ino.(size := size), d, off)
  {
    hide PtrAt, First;
    forall p ensures ShapeAt(disk, ino.(size := size), d, p) {
      assert ShapeAt(disk, ino, d, p);
      SizeIrrelevant(disk, ino, size, p);
    }
    forall k | off <= k < MAXSIZE ensures FileByte(disk, ino.(size := size), k) == 0 {
      SizeIrrelevant(disk, ino, size, LeafPos(k / BSIZE));
      assert FileByte(disk, ino, k) == 0;
    }
  }
  class Image {
    const start: nat
    var disk: seq<Block>
    var inodes: Inodes
    var freeblock: nat
    var freeinode: nat
    ghost var own: Owners

    ghost predicate Valid()
      reads this
    {
      MkInv(disk, inodes, own, start, freeblock) && Files(disk, inodes) && forall n :: n in inodes ==> n < freeinode
    }

    /** What iappend keeps while it works on its copy `din` of inode n. */
    ghost predicate Working(n: nat, din: Inode)
      reads this
    {
      n in inodes && MkInv(disk, inodes[n := din], own, start, freeblock)
    }

    /** A blank image with the given blocks of metadata. */
    constructor (size: nat, start: nat)
      requires 0 < start <= size < 0x1_0000_0000
      ensures Valid() && inodes == map[] && freeblock == start && freeinode == 1 && |disk| == size
    {
      this.start := start;
      disk := seq(size, _ => ZeroBlock());
      inodes := map[];
      freeblock := start;
      freeinode := 1;
      own := map[];
    }

    /** ialloc: the next inode, empty. */
    method Ialloc() returns (inum: nat)
      requires Valid()
      modifies `inodes, `freeinode
      ensures Valid() && inum == old(freeinode) && freeinode == inum + 1 && inum !in old(inodes)
      ensures inodes == old(inodes)[inum := Inode(0, seq(NDIRECT + 2, _ => 0))]
    {
      hide SizeOk, FileOk;
      inum := freeinode;
      freeinode := freeinode + 1;
      ghost var inodes0 := inodes;
      inodes := inodes[inum := Inode(0, seq(NDIRECT + 2, _ => 0))];
      EmptyTree(disk, inodes0, own, inum, inodes);
      EmptySizeOk(disk, inodes[inum]);
      EmptyFileOk(disk, inodes[inum]);
    }

    /**
     A pointer of file n: if it is empty, freeblock++ goes there. False means
     that this block lies beyond the image, whose read then ends mkfs.
     */
    method Take(n: nat, din: Inode, p: Pos) returns (ok: bool, din': Inode, ghost ps: set<Pos>)
      requires Working(n, din) && ValidPos(p) && (!InInode(p) ==> PtrAt(disk, din, Parent(p)) != 0)
      modifies `disk, `freeblock, `own
      ensures ps == (if PtrAt(old(disk), din, p) == 0 then {p} else {})
      ensures ok <==> old(freeblock) + |ps| <= |old(disk)|
      ensures ok ==> Working(n, din') && freeblock == old(freeblock) + |ps| && |disk| == |old(disk)| && din'.size == din.size
      ensures ok ==> Grew(old(disk), inodes[n := din], disk, inodes[n := din'], n, ps) && PtrAt(disk, din', p) != 0
    {
      hide TreeInv, SizeOk, PtrAt, ZeroBlock, Put32, SameBytes, Gains;
      ghost var disk0, own0 := disk, own;
      din' := din;
      MkPtr(disk, inodes[n := din], own, start, freeblock, n, p);
      MkRange(disk, inodes[n := din], own, start, freeblock);
      if PtrAt(disk, din, p) != 0 {
        ps := {};
        KeptRefl(disk, inodes[n := din]);
        GainsNone(disk, inodes[n := din], n);
        return true, din', ps;
      }
      ps := {p};
      if freeblock == |disk| {
        return false, din', ps;
      }
      PtrFacts(disk, inodes[n := din], own, n, p);
      if InInode(p) {
        din' := din.(addrs := din.addrs[Slot(p) := freeblock]);
      } else {
        var q := PtrAt(disk, din, Parent(p));
        disk := disk[q := Put32(disk[q], Slot(p), freeblock)];
      }
      own := own[freeblock := (n, p)];
      assert disk0[freeblock := ZeroBlock()] == disk0;
      MkLinks(disk0, inodes[n := din], own0, start, freeblock, n, p, disk, inodes[n := din'], own);
      LinksGains(disk0, inodes[n := din], own0, n, p, freeblock, disk, inodes[n := din'], own);
      freeblock := freeblock + 1;
      ok := true;
    }

    /** A data block reached through the inode. */
    method DirectBlock(n: nat, din: Inode, fbn: nat, ghost d: nat) returns (ok: bool, din': Inode, ghost ps: set<Pos>)
      requires Working(n, din) && Shape(disk, din, d) && d <= fbn + 1 && fbn <= d && fbn < NDIRECT
      modifies `disk, `freeblock, `own
      ensures ps == (if fbn == d then AddedAt(d) else {}) && (ok <==> old(freeblock) + |ps| <= |old(disk)|)
      ensures ok ==> Working(n, din') && freeblock == old(freeblock) + |ps| && |disk| == |old(disk)| && din'.size == din.size
      ensures ok ==> Grew(old(disk), inodes[n := din], disk, inodes[n := din'], n, ps) && PtrAt(disk, din', LeafPos(fbn)) != 0
    {
      hide MkInv, Grew, Shape, PtrAt;
      ShapePtr(disk, din, d, Direct(fbn));
      ok, din', ps := Take(n, din, Direct(fbn));
    }

    /** A data block reached through the indirect block. */
    method IndirectBlock(n: nat, din: Inode, fbn: nat, ghost d: nat) returns (ok: bool, din': Inode, ghost ps: set<Pos>)
      requires Working(n, din) && Shape(disk, din, d) && d <= fbn + 1 && fbn <= d && NDIRECT <= fbn < NDIRECT + NINDIRECT
      modifies `disk, `freeblock, `own
      ensures ps == (if fbn == d then AddedAt(d) else {}) && (ok <==> old(freeblock) + |ps| <= |old(disk)|)
      ensures ok ==> Working(n, din') && freeblock == old(freeblock) + |ps| && |disk| == |old(disk)| && din'.size == din.size
      ensures ok ==> Grew(old(disk), inodes[n := din], disk, inodes[n := din'], n, ps) && PtrAt(disk, din', LeafPos(fbn)) != 0
    {
      hide MkInv, Grew, Shape, PtrAt;
      ghost var disk0 := disk;
      var leaf := IndLeaf(fbn - NDIRECT);
      ShapePtr(disk, din, d, Ind);
      ShapePtr(disk, din, d, leaf);
      ps := Missing(disk, din, Ind) + Missing(disk, din, leaf);
      Sizes(Missing(disk, din, Ind), Missing(disk, din, leaf), {});
      var din1;
      ghost var p1, p2;
      ok, din1, p1 := Take(n, din, Ind);
      din' := din1;
      if ok {
        GrewPtr(disk0, inodes[n := din], disk, inodes[n := din1], n, p1, leaf);
        ghost var disk1 := disk;
        ok, din', p2 := Take(n, din1, leaf);
        if ok { GrewTrans(disk0, inodes[n := din], disk1, inodes[n := din1], disk, inodes[n := din'], n, p1, p2); }
      }
    }

    /** A data block reached through the double-indirect block. */
    method DoubleBlock(n: nat, din: Inode, fbn: nat, ghost d: nat) returns (ok: bool, din': Inode, ghost ps: set<Pos>)
      requires Working(n, din) && Shape(disk, din, d) && d <= fbn + 1 && fbn <= d && NDIRECT + NINDIRECT <= fbn < MAXFILE
      modifies `disk, `freeblock, `own
      ensures ps == (if fbn == d then AddedAt(d) else {}) && (ok <==> old(freeblock) + |ps| <= |old(disk)|)
      ensures ok ==> Working(n, din') && freeblock == old(freeblock) + |ps| && |disk| == |old(disk)| && din'.size == din.size
      ensures ok ==> Grew(old(disk), inodes[n := din], disk, inodes[n := din'], n, ps) && PtrAt(disk, din', LeafPos(fbn)) != 0
    {
      hide MkInv, Grew, Shape, PtrAt, AddedAt, First, LeafPos;
      ghost var disk0 := disk;
      var idx1 := (fbn - NDIRECT - NINDIRECT) / NINDIRECT;
      var idx2 := (fbn - NDIRECT - NINDIRECT) % NINDIRECT;
      var mid, leaf := Mid(idx1), DblLeaf(idx1, idx2);
      DoublePath(fbn, d, mid, leaf);
      ShapePtr(disk, din, d, Dbl);
      ShapePtr(disk, din, d, mid);
      ShapePtr(disk, din, d, leaf);
      ghost var qs, rs := Missing(disk, din, mid), Missing(disk, din, leaf);
      ps := Missing(disk, din, Dbl) + qs + rs;
      Sizes(Missing(disk, din, Dbl), qs, rs);
      var din1, din2;
      ghost var p1, p2, p3;
      ok, din1, p1 := Take(n, din, Dbl);
      din' := din1;
      if ok {
        GrewPtr(disk0, inodes[n := din], disk, inodes[n := din1], n, p1, mid);
        GrewPtr(disk0, inodes[n := din], disk, inodes[n := din1], n, p1, leaf);
        ghost var disk1 := disk;
        ok, din2, p2 := Take(n, din1, mid);
        din' := din2;
        if ok {
          GrewTrans(disk0, inodes[n := din], disk1, inodes[n := din1], disk, inodes[n := din2], n, p1, p2);
          GrewPtr(disk0, inodes[n := din], disk, inodes[n := din2], n, p1 + p2, leaf);
          ghost var disk2 := disk;
          ok, din', p3 := Take(n, din2, leaf);
          if ok { GrewTrans(disk0, inodes[n := din], disk2, inodes[n := din2], disk, inodes[n := din'], n, p1 + p2, p3); }
        }
      }
    }

    /** The lookup of iappend: the block of file block fbn, with the missing blocks on the way to it. */
    method BlockFor(n: nat, din: Inode, fbn: nat, ghost d: nat) returns (ok: bool, din': Inode, x: nat, ghost ps: set<Pos>)
      requires Working(n, din) && Shape(disk, din, d) && d <= fbn + 1 && fbn <= d && fbn < MAXFILE
      modifies `disk, `freeblock, `own
      ensures ps == (if fbn == d then AddedAt(d) else {}) && (ok <==> old(freeblock) + |ps| <= |old(disk)|)
      ensures ok ==> Working(n, din') && freeblock == old(freeblock) + |ps| && |disk| == |old(disk)| && din'.size == din.size
      ensures ok ==> Grew(old(disk), inodes[n := din], disk, inodes[n := din'], n, ps) && x == PtrAt(disk, din', LeafPos(fbn)) != 0
    {
      hide MkInv, Grew, Shape, PtrAt;
      x := 0;
      if fbn < NDIRECT {
        ok, din', ps := DirectBlock(n, din, fbn, d);
      } else if fbn < NDIRECT + NINDIRECT {
        ok, din', ps := IndirectBlock(n, din, fbn, d);
      } else {
        ok, din', ps := DoubleBlock(n, din, fbn, d);
      }
      if ok {
        x := PtrAt(disk, din', LeafPos(fbn));
      }
    }

    /**
     The body of the loop of iappend: the piece of xp from p on that stays
     within one block goes to offset off. False is the end of mkfs for want of
     blocks.
     */
    method PutPiece(n: nat, din: Inode, off: nat, xp: seq<Byte>, p: nat, ghost size: nat, ghost disk0: seq<Block>, ghost inodes0: Inodes)
      returns (ok: bool, din': Inode, n1: nat)
      requires Working(n, din) && p < |xp| && off == size + p && size + |xp| < MAXSIZE
      requires Stored(disk0, inodes0, disk, inodes[n := din], n, size, xp[..p]) && FilesBut(disk, inodes[n := din], n, Blocks(off), off)
      modifies `disk, `freeblock, `own
      ensures n1 == if |xp| - p < BSIZE - off % BSIZE then |xp| - p else BSIZE - off % BSIZE
      ensures ok <==> old(freeblock) + Total(Blocks(off + n1)) - Total(Blocks(off)) <= |old(disk)|
      ensures ok ==> Working(n, din') && |disk| == |old(disk)| && din'.size == din.size
      ensures ok ==> freeblock == old(freeblock) + Total(Blocks(off + n1)) - Total(Blocks(off))
      ensures ok ==> Stored(disk0, inodes0, disk, inodes[n := din'], n, size, xp[..p + n1])
      ensures ok ==> FilesBut(disk, inodes[n := din'], n, Blocks(off + n1), off + n1)
    {
      hide TreeInv, HasBlock, PtrAt, Kept, Gains, Stored, SizeOk, LeafPos, SpliceBlock, Content, FilesBut, Total, AddedAt;
      var fbn := off / BSIZE;
      ghost var disk1, d := disk, Blocks(off);
      n1 := if |xp| - p < (fbn + 1) * BSIZE - off then |xp| - p else (fbn + 1) * BSIZE - off;
      PieceBlocks(off, n1);
      FilesShape(disk, inodes[n := din], n, d, off);
      var x;
      ghost var ps;
      ok, din', x, ps := BlockFor(n, din, fbn, d);
      if !ok {
        return;
      }
      StoredKept(disk0, inodes0, disk1, inodes[n := din], disk, inodes[n := din'], n, size, xp[..p]);
      FilesGain(disk1, inodes[n := din], disk, inodes[n := din'], n, d, off, ps, Blocks(off + n1));
      MkPtr(disk, inodes[n := din'], own, start, freeblock, n, LeafPos(fbn));
      FilesStore(disk, inodes[n := din'], own, n, Blocks(off + n1), fbn, x, off, xp[p..p + n1]);
      StoredStep(disk0, inodes0, disk, inodes[n := din'], own, n, size, xp[..p], xp[p..p + n1], x);
      MkStore(disk, inodes[n := din'], own, start, freeblock, n, fbn, x, SpliceBlock(disk[x], off % BSIZE, xp[p..p + n1]));
      disk := disk[x := SpliceBlock(disk[x], off - fbn * BSIZE, xp[p..p + n1])];
      assert xp[..p] + xp[p..p + n1] == xp[..p + n1];
    }

    /**
     iappend: the file grows by exactly xp and no other file changes. It
     succeeds exactly when the image has the blocks this takes.
     */
    method Iappend(n: nat, xp: seq<Byte>) returns (ok: bool)
      requires Valid() && n in inodes && inodes[n].size + |xp| < MAXSIZE
      modifies `disk, `inodes, `freeblock, `own
      ensures ok <==> old(freeblock) + Total(Blocks(old(inodes[n].size) + |xp|)) - Total(Blocks(old(inodes[n].size))) <= |old(disk)|
      ensures ok ==> Valid() && inodes.Keys == old(inodes).Keys && |disk| == |old(disk)|
      ensures ok ==> freeblock == old(freeblock) + Total(Blocks(old(inodes[n].size) + |xp|)) - Total(Blocks(old(inodes[n].size)))
      ensures ok ==> inodes[n].size == old(inodes[n].size) + |xp|
      ensures ok ==> Content(disk, inodes[n]) == old(Content(disk, inodes[n])) + xp
      ensures ok ==> SameOthers(old(disk), old(inodes), disk, inodes, n)
    {
      hide TreeInv, HasBlock, PtrAt, Kept, Stored, SizeOk, LeafPos, SpliceBlock, Content, Total, FilesBut, Files, Blocks;
      ghost var disk0, inodes0, free0 := disk, inodes, freeblock;
      var din := inodes[n];
      var size := din.size;
      var off := din.size;
      var left := |xp|;
      assert inodes[n := din] == inodes;
      MkSize(disk, inodes, own, start, freeblock);
      MkRange(disk, inodes, own, start, freeblock);
      StoredNothing(disk, inodes, n, size);
      FilesFrom(disk, inodes, n);
      assert xp[..0] == [];
      while left > 0
        invariant 0 <= left <= |xp| && off == size + (|xp| - left) && Working(n, din) && |disk| == |disk0|
        invariant inodes == inodes0 && n in inodes && din.size == size
        invariant freeblock == free0 + Total(Blocks(off)) - Total(Blocks(size)) <= |disk|
        invariant Stored(disk0, inodes0, disk, inodes[n := din], n, size, xp[..|xp| - left])
        invariant FilesBut(disk, inodes[n := din], n, Blocks(off), off)
      {
        var n1;
        ghost var q := |xp| - left;
        ok, din, n1 := PutPiece(n, din, off, xp, |xp| - left, size, disk0, inodes0);
        BlocksGrow(off + n1, size + |xp|);
        if !ok {
          return;
        }
        MkRange(disk, inodes[n := din], own, start, freeblock);
        left := left - n1;
        off := off + n1;
        assert q + n1 == |xp| - left;
      }
      assert xp[..|xp| - left] == xp;
      StoredContent(disk0, inodes0, disk, inodes[n := din], n, size, xp, din.(size := off));
      OthersKept(disk0, inodes0, disk, inodes[n := din], n, size, xp, off);
      MkResize(disk, inodes[n := din], own, start, freeblock, n, off);
      FilesSize(disk, inodes[n := din], n, Blocks(off), off);
      SplicedAtEnd(Content(disk0, inodes0[n]), xp);
      StoredSizes(disk0, inodes0, disk, inodes[n := din], n, size, xp);
      ghost var dinF := din;
      din := din.(size := off);
      assert inodes[n := dinF][n := din] == inodes[n := din];
      inodes := inodes[n := din];
      ok := true;
    }

    /** A sequence of iappend calls: the file ends with the concatenation of the chunks and no other file changes. */
    method AppendAll(n: nat, chunks: seq<seq<Byte>>) returns (ok: bool)
      requires Valid() && n in inodes && inodes[n].size + |Flatten(chunks)| < MAXSIZE
      modifies `disk, `inodes, `freeblock, `own
      ensures ok <==> old(freeblock) + Total(Blocks(old(inodes[n].size) + |Flatten(chunks)|)) - Total(Blocks(old(inodes[n].size))) <= |old(disk)|
      ensures ok ==> Valid() && inodes.Keys == old(inodes).Keys && |disk| == |old(disk)|
      ensures ok ==> inodes[n].size == old(inodes[n].size) + |Flatten(chunks)|
      ensures ok ==> Content(disk, inodes[n]) == old(Content(disk, inodes[n])) + Flatten(chunks)
      ensures ok ==> SameOthers(old(disk), old(inodes), disk, inodes, n)
    {
      hide MkInv, Content, Files, Total, Blocks, Flatten, SameOthers;
      MkSize(disk, inodes, own, start, freeblock);
      MkRange(disk, inodes, own, start, freeblock);
      ghost var size := inodes[n].size;
      SameOthersRefl(disk, inodes, n);
      FlattenNone();
      var i := 0;
      assert chunks[0..] == chunks;
      while i < |chunks|
        invariant 0 <= i <= |chunks| && Valid() && inodes.Keys == old(inodes).Keys && |disk| == |old(disk)| && n in inodes
        invariant inodes[n].size + |Flatten(chunks[i..])| == size + |Flatten(chunks)| < MAXSIZE
        invariant freeblock == old(freeblock) + Total(Blocks(inodes[n].size)) - Total(Blocks(size)) <= |disk|
        invariant Content(disk, inodes[n]) + Flatten(chunks[i..]) == old(Content(disk, inodes[n])) + Flatten(chunks)
        invariant SameOthers(old(disk), old(inodes), disk, inodes, n)
      {
        FlattenStep(chunks, i);
        ghost var c, done, disk1, inodes1 := Content(disk, inodes[n]), inodes[n].size, disk, inodes;
        ok := Iappend(n, chunks[i]);
        BlocksGrow(done + |chunks[i]|, size + |Flatten(chunks)|);
        if !ok {
          return;
        }
        MkRange(disk, inodes, own, start, freeblock);
        SameOthersTrans(old(disk), old(inodes), disk1, inodes1, disk, inodes, n);
        assert c + (chunks[i] + Flatten(chunks[i + 1..])) == (c + chunks[i]) + Flatten(chunks[i + 1..]);
        i := i + 1;
      }
      assert chunks[i..] == [];
      assert Content(disk, inodes[n]) + [] == Content(disk, inodes[n]);
      ok := true;
    }

    /**
     The last change of mkfs: the size of the root directory is raised past the
     next block boundary, in 32-bit arithmetic. The image stays consistent
     exactly if the size was not on a boundary already; then zeros follow the
     directory.
     */
    method FixRoot(root: nat)
      requires Valid() && root in inodes
      modifies `inodes
      ensures inodes == old(inodes)[root := old(inodes[root]).(size := Raised(old(inodes[root].size)))]
      ensures MkInv(disk, inodes, own, start, freeblock) <==> old(inodes[root].size) % BSIZE != 0 || Raised(old(inodes[root].size)) == 0
      ensures old(inodes[root].size) % BSIZE != 0 && Raised(old(inodes[root].size)) != 0 ==>
                && Valid() && inodes[root].size < MAXSIZE
                && Content(disk, inodes[root]) == old(Content(disk, inodes[root])) + seq(inodes[root].size - old(inodes[root].size), _ => 0)
      ensures forall m :: m in inodes && m != root ==> inodes[m] == old(inodes[m])
    {
      hide TreeInv, Content;
      ghost var inodes0 := inodes;
      var off := inodes[root].size;
      var size := Raised(off);
      MkSize(disk, inodes, own, start, freeblock);
      RaisedIff(disk, inodes, own, start, freeblock, root, inodes[root := inodes[root].(size := size)]);
      inodes := inodes[root := inodes[root].(size := size)];
    }

    /** Build, finish, mount and read the root directory: what was appended, then zeros up to the block boundary. */
    method FinishAndReadRoot(root: nat, len: nat) returns (fs: Fs, dst: seq<Byte>)
      requires Valid() && root in inodes && inodes[root].size % BSIZE != 0 && Raised(inodes[root].size) != 0
      requires Raised(inodes[root].size) <= len < MAXSIZE
      modifies `inodes
      ensures fs.Valid() && fs.disk == disk && fs.inodes == inodes && inodes.Keys == old(inodes).Keys
      ensures dst == old(Content(disk, inodes[root])) + seq(Raised(old(inodes[root].size)) - old(inodes[root].size), _ => 0)
    {
      hide MkInv, Files, Content;
      MkSize(disk, inodes, own, start, freeblock);
      FixRoot(root);
      fs, dst := MountAndRead(root, len);
    }

    /** Build, mount and read back: the kernel's readi returns what mkfs appended. */
    method MountAndRead(n: nat, len: nat) returns (fs: Fs, dst: seq<Byte>)
      requires Valid() && n in inodes && inodes[n].size <= len < MAXSIZE
      ensures fs.Valid() && fs.inodes == inodes && fs.disk == disk
      ensures inodes[n].size < MAXSIZE && dst == Content(disk, inodes[n])
      ensures forall b :: 0 <= b < |fs.bitmap| && !fs.bitmap[b] ==> b >= freeblock && b !in own
    {
      var bitmap := Bitmap();
      fs := new Fs(disk, bitmap, inodes, own, start);
      hide MkInv, FsInv, Content, Files;
      MkSize(disk, inodes, own, start, freeblock);
      FileSize(disk, bitmap, inodes, own, start, n);
      OwnedBelow(disk, inodes, own, start, freeblock);
      dst := fs.ReadI(n, 0, len);
    }

    /** balloc(used): the bitmap of the finished image. */
    method Bitmap() returns (bitmap: seq<bool>)
      requires Valid()
      ensures |bitmap| == |disk| && forall b :: 0 <= b < |bitmap| ==> (bitmap[b] <==> b < freeblock)
      ensures FsInv(disk, bitmap, inodes, own, start)
    {
      hide MkInv;
      var used := freeblock;
      bitmap := seq(|disk|, _ => false);
      MkRange(disk, inodes, own, start, freeblock);
      var usedBlk := (used - 1) / BPB + 1;
      var j := 0;
      while j < usedBlk
        invariant 0 <= j <= usedBlk && |bitmap| == |disk|
        invariant forall b :: 0 <= b < |bitmap| ==> (bitmap[b] <==> b < used && b < j * BPB)
      {
        var k := if BPB < used - j * BPB then BPB else used - j * BPB;
        var i := 0;
        while i < k
          invariant 0 <= i <= k && |bitmap| == |disk|
          invariant forall b :: 0 <= b < |bitmap| ==> (bitmap[b] <==> b < used && b < j * BPB + i)
        {
          bitmap := bitmap[j * BPB + i := true];
          i := i + 1;
        }
        j := j + 1;
      }
      FinishedImage(disk, inodes, own, start, freeblock, bitmap);
    }
  }

  lemma Sizes(a: set<Pos>, b: set<Pos>, c: set<Pos>)
    requires a !! b && a !! c && b !! c
    ensures |a + b + c| == |a| + |b| + |c|
  {
    assert |(a + b) + c| == |a + b| + |c|;
  }

  /** The positions on the way to a double-indirect block, and which of them block d is the first to need. */
  lemma DoublePath(fbn: nat, d: nat, mid: Pos, leaf: Pos)
    requires NDIRECT + NINDIRECT <= fbn < MAXFILE && d <= fbn + 1 && fbn <= d
    requires mid == Mid((fbn - NDIRECT - NINDIRECT) / NINDIRECT)
    requires leaf == DblLeaf((fbn - NDIRECT - NINDIRECT) / NINDIRECT, (fbn - NDIRECT - NINDIRECT) % NINDIRECT)
    ensures LeafPos(fbn) == leaf && ValidPos(mid) && ValidPos(leaf)
    ensures fbn < d ==> First(Dbl) < d && First(mid) < d && First(leaf) < d
    ensures fbn == d ==>
              AddedAt(d) == (if First(Dbl) < d then {} else {Dbl}) + (if First(mid) < d then {} else {mid}) + (if First(leaf) < d then {} else {leaf})
  {
  }

  lemma EmptyFileOk(disk: seq<Block>, ino: Inode)
    requires ino == Inode(0, seq(NDIRECT + 2, _ => 0))
    ensures FileOk(disk, ino, Blocks(ino.size), ino.size)
  {
    forall p ensures ShapeAt(disk, ino, 0, p) { }
    assert forall k :: 0 <= k < MAXSIZE ==> FileByte(disk, ino, k) == 0;
  }

  /** Every file but n has the contents it had. */
  ghost predicate SameOthers(disk0: seq<Block>, inodes0: Inodes, disk: seq<Block>, inodes: Inodes, n: nat) {
    forall m :: m in inodes && m != n ==>
      m in inodes0 && inodes[m].size == inodes0[m].size < MAXSIZE && Content(disk, inodes[m]) == Content(disk0, inodes0[m])
  }

  lemma SameOthersRefl(disk: seq<Block>, inodes: Inodes, n: nat)
    requires forall m :: m in inodes ==> inodes[m].size < MAXSIZE
    ensures SameOthers(disk, inodes, disk, inodes, n)
  {
  }

  lemma SameOthersTrans(d0: seq<Block>, i0: Inodes, d1: seq<Block>, i1: Inodes, d2: seq<Block>, i2: Inodes, n: nat)
    requires SameOthers(d0, i0, d1, i1, n) && SameOthers(d1, i1, d2, i2, n)
    ensures SameOthers(d0, i0, d2, i2, n)
  {
    hide Content;
  }

  lemma FlattenNone()
    ensures Flatten([]) == []
  {
  }

  lemma FlattenStep(chunks: seq<seq<Byte>>, i: nat)
    requires i < |chunks|
    ensures Flatten(chunks[i..]) == chunks[i] + Flatten(chunks[i + 1..])
  {
    assert chunks[i..][0] == chunks[i] && chunks[i..][1..] == chunks[i + 1..];
  }

  function Flatten(chunks: seq<seq<Byte>>): seq<Byte> {
    if chunks == [] then [] else chunks[0] + Flatten(chunks[1..])
  }

  lemma OwnedBelow(disk: seq<Block>, inodes: Inodes, own: Owners, start: nat, freeblock: nat)
    requires MkInv(disk, inodes, own, start, freeblock)
    ensures forall b :: b in own ==> b < freeblock
  {
    hide TreeInv, SizeOk;
  }

  lemma EmptyTree(disk: seq<Block>, inodes: Inodes, own: Owners, n: nat, inodes': Inodes)
    requires TreeInv(disk, inodes, own) && n !in inodes
    requires inodes' == inodes[n := Inode(0, seq(NDIRECT + 2, _ => 0))]
    ensures TreeInv(disk, inodes', own)
  {
    forall m, p | m in inodes' && ValidPos(p) ensures PtrOk(disk, inodes', own, m, p) {
      if m != n { assert PtrOk(disk, inodes, own, m, p); }
    }
    forall b | b in own ensures OwnerOk(disk, inodes', own, b) {
      assert OwnerOk(disk, inodes, own, b);
    }
  }

  lemma MkPtr(disk: seq<Block>, inodes: Inodes, own: Owners, start: nat, freeblock: nat, n: nat, p: Pos)
    requires MkInv(disk, inodes, own, start, freeblock) && n in inodes && ValidPos(p)
    ensures |inodes[n].addrs| == NDIRECT + 2
    ensures PtrAt(disk, inodes[n], p) < |disk|
  {
    hide TreeInv;
    PtrFacts(disk, inodes, own, n, p);
  }

  lemma MkSize(disk: seq<Block>, inodes: Inodes, own: Owners, start: nat, freeblock: nat)
    requires MkInv(disk, inodes, own, start, freeblock)
    ensures forall n :: n in inodes ==> SizeOk(disk, inodes[n]) && inodes[n].size < MAXSIZE
  {
    hide TreeInv;
  }

  lemma MkRange(disk: seq<Block>, inodes: Inodes, own: Owners, start: nat, freeblock: nat)
    requires MkInv(disk, inodes, own, start, freeblock)
    ensures 0 < freeblock <= |disk|
  {
    hide TreeInv, SizeOk;
  }

  lemma MkResize(disk: seq<Block>, inodes: Inodes, own: Owners, start: nat, freeblock: nat, n: nat, size: nat)
    requires MkInv(disk, inodes, own, start, freeblock) && n in inodes && SizeOk(disk, inodes[n].(size := size))
    ensures MkInv(disk, inodes[n := inodes[n].(size := size)], own, start, freeblock)
  {
    hide TreeInv, SizeOk;
    ResizeTree(disk, inodes, own, n, size);
  }

  lemma SplicedAtEnd(c: seq<Byte>, xp: seq<Byte>)
    ensures Spliced(c, |c|, xp) == c + xp
  {
  }

  lemma StoredSizes(d0: seq<Block>, i0: Inodes, disk: seq<Block>, inodes: Inodes, n: nat, off: nat, src: seq<Byte>)
    requires Stored(d0, i0, disk, inodes, n, off, src)
    ensures inodes.Keys == i0.Keys && forall m :: m in i0 ==> inodes[m].size == i0[m].size
  {
    hide HasBlock, FileByte;
  }

  /** The piece that goes into one block completes it or ends in it. */
  lemma PieceBlocks(off: nat, n1: nat)
    requires off < MAXSIZE && 0 < n1 <= BSIZE - off % BSIZE
    ensures off / BSIZE < MAXFILE && Blocks(off) <= off / BSIZE + 1 && off / BSIZE <= Blocks(off) && Blocks(off + n1) == off / BSIZE + 1
    ensures Total(Blocks(off + n1)) - Total(Blocks(off)) == if off / BSIZE == Blocks(off) then |AddedAt(off / BSIZE)| else 0
    ensures AddedAt(off / BSIZE) != {}
  {
    hide Total;
    TotalStep(off / BSIZE);
    AddedExactly(off / BSIZE, LeafPos(off / BSIZE));
  }

  lemma TotalStep(d: nat)
    requires d < MAXFILE
    ensures Total(d + 1) == Total(d) + |AddedAt(d)|
  {
    AddedSize(d);
  }

  lemma AddedSize(d: nat)
    requires d < MAXFILE
    ensures |AddedAt(d)| == Cost(d)
  {
    hide LeafPos;
    LeafIsLeaf(d);
    var n := d - NDIRECT - NINDIRECT;
    var b, c := if d == NDIRECT then {Ind} else {}, if n == 0 then {Dbl} else {};
    var e := if n >= 0 && n % NINDIRECT == 0 then {Mid(n / NINDIRECT)} else {};
    Sizes({LeafPos(d)}, b, c);
    assert ({LeafPos(d)} + b + c) !! e;
    assert |({LeafPos(d)} + b + c) + e| == |{LeafPos(d)} + b + c| + |e|;
  }

  lemma BlocksGrow(a: nat, b: nat)
    ensures a <= b ==> Total(Blocks(a)) <= Total(Blocks(b))
  {
    if a <= b { TotalGrows(Blocks(a), Blocks(b)); }
  }

  lemma FilesShape(disk: seq<Block>, inodes: Inodes, n: nat, d: nat, off: nat)
    requires FilesBut(disk, inodes, n, d, off) && n in inodes
    ensures Shape(disk, inodes[n], d)
  {
  }

  /** off = ((off / BSIZE) + 1) * BSIZE in 32 bits */
  function Raised(off: nat): nat {
    (off / BSIZE + 1) * BSIZE % MAXSIZE
  }

  lemma RaisedBlocks(off: nat)
    requires off < MAXSIZE
    ensures Raised(off) != 0 ==> Raised(off) == (off / BSIZE + 1) * BSIZE && off <= Raised(off) < MAXSIZE
    ensures Raised(off) != 0 && off % BSIZE != 0 ==> Blocks(Raised(off)) == Blocks(off)
    ensures off % BSIZE == 0 ==> Blocks(off) == off / BSIZE
  {
  }

  /** In a file of known shape the blocks below a size are there exactly if there are enough of them. */
  lemma ShapeSize(disk: seq<Block>, ino: Inode, d: nat, size: nat)
    requires Shape(disk, ino, d) && size < MAXSIZE
    ensures SizeOk(disk, ino.(size := size)) <==> Blocks(size) <= d
  {
    hide PtrAt;
    forall bn | 0 <= bn < MAXFILE ensures HasBlock(disk, ino.(size := size), bn) <==> bn < d {
      assert ShapeAt(disk, ino, d, LeafPos(bn));
      SizeIrrelevant(disk, ino, size, LeafPos(bn));
      LeafFirst(bn);
    }
    if SizeOk(disk, ino.(size := size)) && size > 0 {
      var bn := Blocks(size) - 1;
      assert HasBlock(disk, ino.(size := size), bn);
    }
  }

  lemma LeafFirst(bn: nat)
    requires bn < MAXFILE
    ensures First(LeafPos(bn)) == bn
  {
  }

  lemma MkSized(disk: seq<Block>, inodes: Inodes, own: Owners, start: nat, freeblock: nat, n: nat, size: nat)
    requires MkInv(disk, inodes, own, start, freeblock) && n in inodes
    ensures MkInv(disk, inodes[n := inodes[n].(size := size)], own, start, freeblock) <==> SizeOk(disk, inodes[n].(size := size))
  {
    hide TreeInv, SizeOk;
    ResizeTree(disk, inodes, own, n, size);
    var inodes' := inodes[n := inodes[n].(size := size)];
    assert inodes'[n] == inodes[n].(size := size);
  }

  lemma ZerosBehind(disk: seq<Block>, ino: Inode, size: nat)
    requires Zeros(disk, ino, ino.size) && ino.size <= size < MAXSIZE
    ensures Zeros(disk, ino.(size := size), size)
    ensures Content(disk, ino.(size := size)) == Content(disk, ino) + seq(size - ino.size, _ => 0)
  {
    hide PtrAt;
    forall k | 0 <= k < MAXSIZE ensures FileByte(disk, ino.(size := size), k) == FileByte(disk, ino, k) {
      SizeIrrelevant(disk, ino, size, LeafPos(k / BSIZE));
    }
  }

  lemma RaisedIff(disk: seq<Block>, inodes: Inodes, own: Owners, start: nat, freeblock: nat, n: nat, inodes': Inodes)
    requires MkInv(disk, inodes, own, start, freeblock) && Files(disk, inodes) && n in inodes && inodes[n].size < MAXSIZE
    requires inodes' == inodes[n := inodes[n].(size := Raised(inodes[n].size))]
    ensures MkInv(disk, inodes', own, start, freeblock) <==> inodes[n].size % BSIZE != 0 || Raised(inodes[n].size) == 0
    ensures inodes[n].size % BSIZE != 0 && Raised(inodes[n].size) != 0 ==>
              Files(disk, inodes') && inodes[n].size <= Raised(inodes[n].size) < MAXSIZE
    ensures inodes[n].size % BSIZE != 0 && Raised(inodes[n].size) != 0 ==>
              Content(disk, inodes'[n]) == Content(disk, inodes[n]) + seq(Raised(inodes[n].size) - inodes[n].size, _ => 0)
  {
    hide MkInv, Shape, Zeros, Raised, Content, Blocks;
    var off, size := inodes[n].size, Raised(inodes[n].size);
    RaisedBlocks(off);
    RaisedRange(off);
    ShapeSize(disk, inodes[n], Blocks(off), size);
    BlocksOf(off, size);
    MkSized(disk, inodes, own, start, freeblock, n, size);
    if off % BSIZE != 0 && size != 0 {
      ZerosBehind(disk, inodes[n], size);
      SizeFree(disk, inodes[n], size, Blocks(off), off);
    }
  }

  lemma RaisedRange(off: nat)
    ensures Raised(off) < MAXSIZE
  {
  }

  lemma BlocksOf(off: nat, size: nat)
    requires off < MAXSIZE && size == Raised(off)
    ensures Blocks(size) <= Blocks(off) <==> off % BSIZE != 0 || size == 0
  {
  }
}
