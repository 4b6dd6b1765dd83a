/**
 The block trees of files: direct, indirect and double-indirect pointers held in
 inodes and index blocks. The ghost map `own` gives every allocated block its
 one place in one file, which makes all trees injective and disjoint.
 */
module FsTree {
  import opened Wrappers

  const BSIZE: nat := 4096
  const NDIRECT: nat := 11
  const NINDIRECT: nat := 1024
  const MAXFILE: nat := NDIRECT + NINDIRECT + NINDIRECT * NINDIRECT

  type Block = s: seq<Byte> | |s| == BSIZE witness seq(BSIZE, _ => 0)

  // ----- 32-bit little-endian words in a block -----

  function Get32(b: Block, i: nat): nat
    requires i < NINDIRECT
  {
    b[4 * i] as int + 0x100 * (b[4 * i + 1] as int) + 0x1_0000 * (b[4 * i + 2] as int) + 0x100_0000 * (b[4 * i + 3] as int)
  }

  function Put32(b: Block, i: nat, x: nat): Block
    requires i < NINDIRECT && x < 0x1_0000_0000
  {
    b[4 * i := x % 0x100][4 * i + 1 := (x / 0x100) % 0x100][4 * i + 2 := (x / 0x100 / 0x100) % 0x100][4 * i + 3 := x / 0x100 / 0x100 / 0x100]
  }

  function ZeroBlock(): (b: Block)
    ensures forall i :: 0 <= i < BSIZE ==> b[i] == 0
  {
    seq(BSIZE, _ => 0)
  }

  lemma PutGet(b: Block, i: nat, x: nat, j: nat)
    requires i < NINDIRECT && x < 0x1_0000_0000 && j < NINDIRECT
    ensures Get32(Put32(b, i, x), j) == if i == j then x else Get32(b, j)
  {
    var q1 := x / 0x100;
    var q2 := q1 / 0x100;
    assert x == x % 0x100 + 0x100 * (q1 % 0x100 + 0x100 * (q2 % 0x100 + 0x100 * (q2 / 0x100)));
  }

  /** The four bytes of a word in a block, low byte first; all others stay. */
  lemma PutBytes(b: Block, i: nat, x: nat, k: nat)
    requires i < NINDIRECT && x < 0x1_0000_0000 && k < BSIZE
    ensures Put32(b, i, x)[k] ==
            if k == 4 * i then x % 256 else if k == 4 * i + 1 then x / 256 % 256
            else if k == 4 * i + 2 then x / 65536 % 256 else if k == 4 * i + 3 then x / 16777216 else b[k]
  {
  }

  lemma ZeroGet(j: nat)
    requires j < NINDIRECT
    ensures Get32(ZeroBlock(), j) == 0
  {
  }

  // ----- inodes and positions -----

  datatype Inode = Inode(size: nat, addrs: seq<nat>)

  datatype Pos = Direct(i: nat) | Ind | IndLeaf(j: nat) | Dbl | Mid(i: nat) | DblLeaf(i: nat, j: nat)

  predicate ValidPos(p: Pos) {
    match p
    case Direct(i) => i < NDIRECT
    case IndLeaf(j) => j < NINDIRECT
    case Mid(i) => i < NINDIRECT
    case DblLeaf(i, j) => i < NINDIRECT && j < NINDIRECT
    case _ => true
  }

  /** The position of a file's bn-th data block. */
  function LeafPos(bn: nat): (p: Pos)
    requires bn < MAXFILE
    ensures ValidPos(p)
  {
    if bn < NDIRECT then Direct(bn)
    else if bn < NDIRECT + NINDIRECT then IndLeaf(bn - NDIRECT)
    else DblLeaf((bn - NDIRECT - NINDIRECT) / NINDIRECT, (bn - NDIRECT - NINDIRECT) % NINDIRECT)
  }

  predicate IsLeaf(p: Pos) {
    p.Direct? || p.IndLeaf? || p.DblLeaf?
  }

  lemma LeafPosInjective(a: nat, b: nat)
    requires a < MAXFILE && b < MAXFILE && LeafPos(a) == LeafPos(b)
    ensures a == b
  {
  }

  /** Word i of block b; zero when there is no block. */
  function Word(disk: seq<Block>, b: nat, i: nat): nat {
    if 0 < b < |disk| && i < NINDIRECT then Get32(disk[b], i) else 0
  }

  function Addr(ino: Inode, i: nat): nat {
    if i < |ino.addrs| then ino.addrs[i] else 0
  }

  /** The block number stored at a position; zero when the tree does not reach it. */
  function PtrAt(disk: seq<Block>, ino: Inode, p: Pos): nat {
    match p
    case Direct(i) => Addr(ino, i)
    case Ind => Addr(ino, NDIRECT)
    case Dbl => Addr(ino, NDIRECT + 1)
    case IndLeaf(j) => Word(disk, Addr(ino, NDIRECT), j)
    case Mid(i) => Word(disk, Addr(ino, NDIRECT + 1), i)
    case DblLeaf(i, j) => Word(disk, Word(disk, Addr(ino, NDIRECT + 1), i), j)
  }

  // ----- the tree invariant -----

  type Inodes = map<nat, Inode>
  type Owners = map<nat, (nat, Pos)>

  ghost predicate PtrOk(disk: seq<Block>, inodes: Inodes, own: Owners, n: nat, p: Pos)
    requires n in inodes
  {
    var b := PtrAt(disk, inodes[n], p);
    b != 0 ==> b in own && own[b] == (n, p)
  }

  ghost predicate OwnerOk(disk: seq<Block>, inodes: Inodes, own: Owners, b: nat)
    requires b in own
  {
    own[b].0 in inodes && ValidPos(own[b].1) && PtrAt(disk, inodes[own[b].0], own[b].1) == b
  }

  /** Pointers and owners correspond: a non-zero pointer at a position is a block owned by that position, and back. */
  ghost predicate TreeInv(disk: seq<Block>, inodes: Inodes, own: Owners) {
    && |disk| < 0x1_0000_0000
    && (forall b :: b in own ==> 0 < b < |disk| && OwnerOk(disk, inodes, own, b))
    && (forall n :: n in inodes ==> |inodes[n].addrs| == NDIRECT + 2)
    && (forall n, p :: n in inodes && ValidPos(p) ==> PtrOk(disk, inodes, own, n, p))
  }

  /** The position whose block holds pointer p, and the word it is in. */
  function Parent(p: Pos): Pos
    requires p.IndLeaf? || p.Mid? || p.DblLeaf?
  {
    match p case IndLeaf(_) => Ind case Mid(_) => Dbl case DblLeaf(i, _) => Mid(i)
  }

  function Slot(p: Pos): nat {
    match p
    case Direct(i) => i
    case Ind => NDIRECT
    case Dbl => NDIRECT + 1
    case IndLeaf(j) => j
    case Mid(i) => i
    case DblLeaf(_, j) => j
  }

  predicate InInode(p: Pos) {
    p.Direct? || p.Ind? || p.Dbl?
  }

  /** A zeroed block b is linked in at the empty position p of file n. */
  ghost predicate Links(disk: seq<Block>, inodes: Inodes, own: Owners, n: nat, p: Pos, b: nat,
                        disk': seq<Block>, inodes': Inodes, own': Owners)
  {
    && n in inodes && ValidPos(p) && PtrAt(disk, inodes[n], p) == 0 && |inodes[n].addrs| == NDIRECT + 2
    && 0 < b < |disk| < 0x1_0000_0000 && b !in own && own' == own[b := (n, p)]
    && if InInode(p) then
         inodes' == inodes[n := inodes[n].(addrs := inodes[n].addrs[Slot(p) := b])] && disk' == disk[b := ZeroBlock()]
       else
         var q := PtrAt(disk, inodes[n], Parent(p));
         q != 0 && q < |disk| && inodes' == inodes && disk' == disk[b := ZeroBlock()][q := Put32(disk[q], Slot(p), b)]
  }

  lemma LinksWord(disk: seq<Block>, inodes: Inodes, own: Owners, n: nat, p: Pos, b: nat,
                  disk': seq<Block>, inodes': Inodes, own': Owners, q: nat, j: nat)
    requires Links(disk, inodes, own, n, p, b, disk', inodes', own') && j < NINDIRECT
    requires !InInode(p) ==> PtrAt(disk, inodes[n], Parent(p)) in own
    ensures Word(disk', q, j) ==
            if !InInode(p) && q == PtrAt(disk, inodes[n], Parent(p)) && j == Slot(p) then b
            else if q == b then 0 else Word(disk, q, j)
  {
    hide Get32, Put32, PtrAt, ZeroBlock;
    ZeroGet(j);
    if !InInode(p) {
      var q := PtrAt(disk, inodes[n], Parent(p));
      PutGet(disk[q], Slot(p), b, j);
    }
  }

  /** Linking a block in changes one pointer of one file and no other pointer anywhere. */
  lemma LinksPtr(disk: seq<Block>, inodes: Inodes, own: Owners, n: nat, p: Pos, b: nat,
                 disk': seq<Block>, inodes': Inodes, own': Owners, n2: nat, p2: Pos)
    requires TreeInv(disk, inodes, own) && Links(disk, inodes, own, n, p, b, disk', inodes', own')
    requires n2 in inodes && ValidPos(p2)
    ensures n2 in inodes' && |inodes'[n2].addrs| == NDIRECT + 2
    ensures PtrAt(disk', inodes'[n2], p2) == if n2 == n && p2 == p then b else PtrAt(disk, inodes[n2], p2)
  {
    hide Word, Put32, ZeroBlock;
    if !InInode(p) { assert PtrOk(disk, inodes, own, n, Parent(p)); }
    var ino, ino' := inodes[n2], inodes'[n2];
    match p2
    case Direct(_) =>
    case Ind =>
    case Dbl =>
    case IndLeaf(j) =>
      assert PtrOk(disk, inodes, own, n2, Ind);
      ZeroWord(disk, j);
      LinksWord(disk, inodes, own, n, p, b, disk', inodes', own', Addr(ino', NDIRECT), j);
    case Mid(i) =>
      assert PtrOk(disk, inodes, own, n2, Dbl);
      ZeroWord(disk, i);
      LinksWord(disk, inodes, own, n, p, b, disk', inodes', own', Addr(ino', NDIRECT + 1), i);
    case DblLeaf(i, j) =>
      assert PtrOk(disk, inodes, own, n2, Dbl) && PtrOk(disk, inodes, own, n2, Mid(i));
      ZeroWord(disk, i);
      ZeroWord(disk, j);
      LinksWord(disk, inodes, own, n, p, b, disk', inodes', own', Addr(ino', NDIRECT + 1), i);
      LinksWord(disk, inodes, own, n, p, b, disk', inodes', own', Word(disk', Addr(ino', NDIRECT + 1), i), j);
  }

  lemma ZeroWord(disk: seq<Block>, j: nat)
    ensures Word(disk, 0, j) == 0
  {
  }

  lemma LinksKeepsTree(disk: seq<Block>, inodes: Inodes, own: Owners, n: nat, p: Pos, b: nat,
                       disk': seq<Block>, inodes': Inodes, own': Owners)
    requires TreeInv(disk, inodes, own) && Links(disk, inodes, own, n, p, b, disk', inodes', own')
    ensures TreeInv(disk', inodes', own')
  {
    hide PtrAt, ZeroBlock, Put32;
    forall c | c in own' ensures OwnerOk(disk', inodes', own', c) {
      if c in own { assert OwnerOk(disk, inodes, own, c); }
      LinksPtr(disk, inodes, own, n, p, b, disk', inodes', own', own'[c].0, own'[c].1);
    }
    forall n2, p2 | n2 in inodes' && ValidPos(p2) ensures PtrOk(disk', inodes', own', n2, p2) {
      assert PtrOk(disk, inodes, own, n2, p2);
      LinksPtr(disk, inodes, own, n, p, b, disk', inodes', own', n2, p2);
    }
  }

  // ----- files as byte sequences -----

  const MAXSIZE: nat := 0x1_0000_0000

  predicate HasBlock(disk: seq<Block>, ino: Inode, bn: nat)
    requires bn < MAXFILE
  {
    PtrAt(disk, ino, LeafPos(bn)) != 0
  }

  /** Byte k of the file, read through the tree. */
  function FileByte(disk: seq<Block>, ino: Inode, k: nat): Byte
    requires k < MAXSIZE
  {
    var b := PtrAt(disk, ino, LeafPos(k / BSIZE));
    if 0 < b < |disk| then disk[b][k % BSIZE] else 0
  }

  /** No holes: every block below the size is there. */
  ghost predicate SizeOk(disk: seq<Block>, ino: Inode) {
    ino.size < MAXSIZE && forall bn :: 0 <= bn && bn * BSIZE < ino.size ==> HasBlock(disk, ino, bn)
  }

  function Content(disk: seq<Block>, ino: Inode): (c: seq<Byte>)
    requires ino.size < MAXSIZE
    ensures |c| == ino.size && forall k :: 0 <= k < ino.size ==> c[k] == FileByte(disk, ino, k)
  {
    seq(ino.size, k requires 0 <= k < ino.size => FileByte(disk, ino, k))
  }

  /** Every block that the file has stays, and every byte; a missing block reads as zeros. */
  ghost predicate SameBytes(disk: seq<Block>, ino: Inode, disk': seq<Block>, ino': Inode) {
    && (forall bn :: 0 <= bn < MAXFILE && HasBlock(disk, ino, bn) ==> HasBlock(disk', ino', bn))
    && (forall k :: 0 <= k < MAXSIZE ==> FileByte(disk', ino', k) == FileByte(disk, ino, k))
  }

  lemma SameContent(disk: seq<Block>, ino: Inode, disk': seq<Block>, ino': Inode)
    requires SizeOk(disk, ino) && SameBytes(disk, ino, disk', ino') && ino'.size == ino.size
    ensures SizeOk(disk', ino') && Content(disk', ino') == Content(disk, ino)
  {
    hide HasBlock, FileByte;
    forall k | 0 <= k < ino.size ensures FileByte(disk', ino', k) == FileByte(disk, ino, k) {
      assert (k / BSIZE) * BSIZE < ino.size;
    }
  }

  lemma SameBytesTrans(d0: seq<Block>, i0: Inode, d1: seq<Block>, i1: Inode, d2: seq<Block>, i2: Inode)
    requires SameBytes(d0, i0, d1, i1) && SameBytes(d1, i1, d2, i2)
    ensures SameBytes(d0, i0, d2, i2)
  {
    hide HasBlock, FileByte;
  }

  /** Linking a block in loses no block and no byte of any file. */
  lemma LinksBytes(disk: seq<Block>, inodes: Inodes, own: Owners, n: nat, p: Pos, b: nat,
                   disk': seq<Block>, inodes': Inodes, own': Owners, n2: nat)
    requires TreeInv(disk, inodes, own) && Links(disk, inodes, own, n, p, b, disk', inodes', own') && n2 in inodes
    ensures n2 in inodes' && SameBytes(disk, inodes[n2], disk', inodes'[n2])
  {
    hide PtrAt, ZeroBlock, Put32;
    LinksPtr(disk, inodes, own, n, p, b, disk', inodes', own', n2, p);
    forall bn | 0 <= bn < MAXFILE && HasBlock(disk, inodes[n2], bn) ensures HasBlock(disk', inodes'[n2], bn) {
      LinksPtr(disk, inodes, own, n, p, b, disk', inodes', own', n2, LeafPos(bn));
    }
    forall k | 0 <= k < MAXSIZE ensures FileByte(disk', inodes'[n2], k) == FileByte(disk, inodes[n2], k) {
      LinksByte(disk, inodes, own, n, p, b, disk', inodes', own', n2, k);
    }
  }

  lemma LinksByte(disk: seq<Block>, inodes: Inodes, own: Owners, n: nat, p: Pos, b: nat,
                  disk': seq<Block>, inodes': Inodes, own': Owners, n2: nat, k: nat)
    requires TreeInv(disk, inodes, own) && Links(disk, inodes, own, n, p, b, disk', inodes', own') && n2 in inodes && k < MAXSIZE
    ensures n2 in inodes' && FileByte(disk', inodes'[n2], k) == FileByte(disk, inodes[n2], k)
  {
    hide PtrAt, Put32;
    var q := LeafPos(k / BSIZE);
    LinksPtr(disk, inodes, own, n, p, b, disk', inodes', own', n2, q);
    assert PtrOk(disk, inodes, own, n2, q);
    if !InInode(p) { assert PtrOk(disk, inodes, own, n, Parent(p)); }
  }

  /** Overwriting a data block changes no pointer. */
  lemma StorePtr(disk: seq<Block>, inodes: Inodes, own: Owners, c: nat, blk: Block, n2: nat, p2: Pos)
    requires TreeInv(disk, inodes, own) && c in own && IsLeaf(own[c].1) && n2 in inodes && ValidPos(p2)
    ensures c < |disk| && PtrAt(disk[c := blk], inodes[n2], p2) == PtrAt(disk, inodes[n2], p2)
  {
    assert PtrOk(disk, inodes, own, n2, Ind) && PtrOk(disk, inodes, own, n2, Dbl);
    if p2.DblLeaf? { assert PtrOk(disk, inodes, own, n2, Mid(p2.i)); }
    hide Get32;
  }

  lemma StoreKeepsTree(disk: seq<Block>, inodes: Inodes, own: Owners, c: nat, blk: Block)
    requires TreeInv(disk, inodes, own) && c in own && IsLeaf(own[c].1)
    ensures c < |disk| && TreeInv(disk[c := blk], inodes, own)
  {
    hide PtrAt;
    forall b | b in own ensures OwnerOk(disk[c := blk], inodes, own, b) {
      assert OwnerOk(disk, inodes, own, b);
      StorePtr(disk, inodes, own, c, blk, own[b].0, own[b].1);
    }
    forall n2, p2 | n2 in inodes && ValidPos(p2) ensures PtrOk(disk[c := blk], inodes, own, n2, p2) {
      assert PtrOk(disk, inodes, own, n2, p2);
      StorePtr(disk, inodes, own, c, blk, n2, p2);
    }
  }

  /** Overwriting file n's block bn changes those bytes of file n and no other byte of any file. */
  lemma StoreBytes(disk: seq<Block>, inodes: Inodes, own: Owners, n: nat, bn: nat, c: nat, blk: Block, n2: nat, k: nat)
    requires TreeInv(disk, inodes, own) && n in inodes && n2 in inodes && bn < MAXFILE && k < MAXSIZE
    requires c == PtrAt(disk, inodes[n], LeafPos(bn)) && c != 0
    ensures c in own && own[c] == (n, LeafPos(bn)) && c < |disk|
    ensures HasBlock(disk[c := blk], inodes[n2], k / BSIZE) == HasBlock(disk, inodes[n2], k / BSIZE)
    ensures FileByte(disk[c := blk], inodes[n2], k) ==
            if n2 == n && k / BSIZE == bn then blk[k % BSIZE] else FileByte(disk, inodes[n2], k)
  {
    assert PtrOk(disk, inodes, own, n, LeafPos(bn));
    assert PtrOk(disk, inodes, own, n2, LeafPos(k / BSIZE));
    StorePtr(disk, inodes, own, c, blk, n2, LeafPos(k / BSIZE));
    hide PtrAt, TreeInv;
    if n2 == n && LeafPos(k / BSIZE) == LeafPos(bn) { LeafPosInjective(k / BSIZE, bn); }
  }
}
