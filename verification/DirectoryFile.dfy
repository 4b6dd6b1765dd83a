/**
 Directories as files: 64-byte records of an inode number, a type and a name
 padded with zeros, read and written through the block trees. The operations on
 the bytes refine the name map of the entries.
 */
module DirectoryFile {
  import opened Wrappers
  import opened FileSystem
  import opened Paths
  import opened Directory

  /** Size of a record. */
  const RECORD: nat := 64

  /** A name as C passes it: bytes without a zero. */
  ghost predicate IsCString(s: string) {
    forall i :: 0 <= i < |s| ==> 0 < s[i] as int < 0x100
  }

  /** strncpy into the name field: cut to size, padded with zeros. */
  function Padded(name: string): (r: seq<Byte>)
    requires IsCString(name)
    ensures |r| == DIRSIZ
  {
    seq(DIRSIZ, i requires 0 <= i < DIRSIZ => if i < |name| then name[i] as int else 0)
  }

  /** The name in a field: its bytes up to the first zero or the end. */
  function NameOf(field: seq<Byte>): (r: string)
    ensures |r| <= |field| && IsCString(r)
  {
    if field == [] || field[0] == 0 then "" else [field[0] as char] + NameOf(field[1..])
  }

  /** The first zero, or the end, decides the name. */
  lemma {:induction false} NameIs(field: seq<Byte>, name: string)
    requires |name| <= |field| && IsCString(name) && (|name| < |field| ==> field[|name|] == 0)
    requires forall i :: 0 <= i < |name| ==> field[i] == name[i] as int
    ensures NameOf(field) == name
  {
    if name != "" {
      assert forall i :: 0 <= i < |name[1..]| ==> field[1..][i] == name[1..][i] as int;
      NameIs(field[1..], name[1..]);
      assert name == [name[0]] + name[1..];
    }
  }

  /** What NameIs asks of a name holds of the name in the field. */
  lemma {:induction false} NameAt(field: seq<Byte>)
    ensures forall i :: 0 <= i < |NameOf(field)| ==> field[i] == NameOf(field)[i] as int
    ensures |NameOf(field)| < |field| ==> field[|NameOf(field)|] == 0
  {
    if field != [] && field[0] != 0 {
      NameAt(field[1..]);
      assert forall i :: 0 < i < |NameOf(field)| ==> field[i] == field[1..][i - 1];
    }
  }

  lemma NameOfPadded(name: string)
    requires IsCString(name)
    ensures NameOf(Padded(name)) == Truncate(name)
  {
    NameIs(Padded(name), Truncate(name));
  }

  // ----- records -----

  /** The bytes that dirlink writes. */
  function Encode(inum: nat, kind: nat, name: string): (r: seq<Byte>)
    requires inum < 0x1_0000_0000 && kind < 0x1_0000 && IsCString(name)
    ensures |r| == RECORD
  {
    [inum % 0x100, inum / 0x100 % 0x100, inum / 0x1_0000 % 0x100, inum / 0x100_0000, kind % 0x100, kind / 0x100] + Padded(name)
  }

  function Inum(rec: seq<Byte>): nat
    requires |rec| == RECORD
  {
    rec[0] as int + 0x100 * (rec[1] as int) + 0x1_0000 * (rec[2] as int) + 0x100_0000 * (rec[3] as int)
  }

  function Decode(rec: seq<Byte>): Dirent
    requires |rec| == RECORD
  {
    Dirent(Inum(rec), NameOf(rec[6..]))
  }

  /** A record gives back what was encoded, the name cut to size. */
  lemma DecodeEncode(inum: nat, kind: nat, name: string)
    requires inum < 0x1_0000_0000 && kind < 0x1_0000 && IsCString(name)
    ensures Decode(Encode(inum, kind, name)) == Dirent(inum, Truncate(name))
  {
    var rec := Encode(inum, kind, name);
    assert rec[6..] == Padded(name);
    NameOfPadded(name);
    var q1 := inum / 0x100;
    var q2 := q1 / 0x100;
    assert inum / 0x1_0000 == q2 && inum / 0x100_0000 == q2 / 0x100;
    assert inum == inum % 0x100 + 0x100 * (q1 % 0x100 + 0x100 * (q2 % 0x100 + 0x100 * (q2 / 0x100)));
  }

  /**
   The 64 bytes of c at `at` are a stored record: the inode number and the type,
   low byte first, and the name followed by zeros.
   */
  ghost predicate HoldsRecord(c: seq<Byte>, at: nat, inum: nat, kind: nat, name: string) {
    && at + 64 <= |c|
    && c[at] == inum % 256 && c[at + 1] == inum / 256 % 256 && c[at + 2] == inum / 65536 % 256 && c[at + 3] == inum / 16777216
    && c[at + 4] == kind % 256 && c[at + 5] == kind / 256
    && forall j :: at + 6 <= j < at + 64 ==> c[j] == if j - at - 6 < |name| then name[j - at - 6] as int else 0
  }

  /** c' is c but for the 64 bytes at `at`, which may lie at its end. */
  ghost predicate ChangedAt(c: seq<Byte>, c': seq<Byte>, at: nat) {
    && |c'| == (if at == |c| then |c| + 64 else |c|)
    && forall j :: 0 <= j < |c| && !(at <= j < at + 64) ==> c'[j] == c[j]
  }

  lemma SplicedRecord(c: seq<Byte>, at: nat, rec: seq<Byte>)
    requires at <= |c| && |rec| == RECORD && |c| % RECORD == 0 && at % RECORD == 0
    ensures ChangedAt(c, Spliced(c, at, rec), at) && at + 64 <= |Spliced(c, at, rec)|
    ensures forall j :: at <= j < at + 64 ==> Spliced(c, at, rec)[j] == rec[j - at]
  {
  }

  /** The bytes that dirlink stores. */
  lemma EncodeHolds(c: seq<Byte>, at: nat, inum: nat, kind: nat, name: string)
    requires at <= |c| && |c| % RECORD == 0 && at % RECORD == 0
    requires inum < 0x1_0000_0000 && kind < 0x1_0000 && IsCString(name)
    ensures ChangedAt(c, Spliced(c, at, Encode(inum, kind, name)), at)
    ensures HoldsRecord(Spliced(c, at, Encode(inum, kind, name)), at, inum, kind, name)
  {
    var rec := Encode(inum, kind, name);
    SplicedRecord(c, at, rec);
    hide Spliced, Encode;
    EncodeBytes(inum, kind, name);
  }

  lemma EncodeBytes(inum: nat, kind: nat, name: string)
    requires inum < 0x1_0000_0000 && kind < 0x1_0000 && IsCString(name)
    ensures HoldsRecord(Encode(inum, kind, name), 0, inum, kind, name)
  {
    assert forall i :: 6 <= i < 64 ==> Encode(inum, kind, name)[i] == Padded(name)[i - 6];
  }

  function ZeroRecord(): (r: seq<Byte>)
    ensures |r| == RECORD
  {
    seq(RECORD, _ => 0)
  }

  // ----- directories -----

  ghost predicate IsDirectory(c: seq<Byte>) {
    |c| % RECORD == 0
  }

  function Record(c: seq<Byte>, k: nat): (r: seq<Byte>)
    requires RECORD * k + RECORD <= |c|
    ensures |r| == RECORD
  {
    c[RECORD * k..RECORD * k + RECORD]
  }

  /** The entries in the bytes of a directory. */
  ghost function Entries(c: seq<Byte>): (es: seq<Dirent>)
    requires IsDirectory(c)
    ensures |es| == |c| / RECORD
    ensures forall k :: 0 <= k < |es| ==> es[k] == Decode(Record(c, k))
  {
    seq(|c| / RECORD, k requires 0 <= k < |c| / RECORD => Decode(Record(c, k)))
  }

  /** The first unused entry, or the number of entries. */
  ghost function Unused(es: seq<Dirent>): (k: nat)
    ensures k <= |es| && (k < |es| ==> es[k].inum == 0) && forall j :: 0 <= j < k ==> es[j].inum != 0
  {
    if es == [] || es[0].inum == 0 then 0 else
      var k := Unused(es[1..]);
      assert forall j :: 0 < j <= k ==> es[j] == es[1..][j - 1];
      k + 1
  }

  /** Entries after record k was written or appended. */
  ghost function WithEntry(es: seq<Dirent>, k: nat, e: Dirent): seq<Dirent>
    requires k <= |es|
  {
    if k < |es| then es[k := e] else es + [e]
  }

  /** Writing a record changes its entry and no other. */
  lemma RecordWritten(c: seq<Byte>, k: nat, rec: seq<Byte>)
    requires IsDirectory(c) && k <= |Entries(c)| && |rec| == RECORD
    ensures IsDirectory(Spliced(c, RECORD * k, rec))
    ensures Entries(Spliced(c, RECORD * k, rec)) == WithEntry(Entries(c), k, Decode(rec))
  {
    var c' := Spliced(c, RECORD * k, rec);
    var es' := WithEntry(Entries(c), k, Decode(rec));
    assert |c'| == RECORD * |es'|;
    forall j | 0 <= j < |es'| ensures Entries(c')[j] == es'[j] {
      if j == k {
        assert Record(c', j) == rec;
      } else {
        assert Record(c', j) == Record(c, j);
      }
    }
  }

  lemma SplicedNothing(c: seq<Byte>, off: nat)
    requires off <= |c|
    ensures Spliced(c, off, []) == c
  {
  }

  lemma UnusedIs(es: seq<Dirent>, k: nat)
    requires k <= |es| && (k < |es| ==> es[k].inum == 0) && forall j :: 0 <= j < k ==> es[j].inum != 0
    ensures Unused(es) == k
  {
  }

  /** The entries gain the name of the new record. */
  lemma LinkedMap(es: seq<Dirent>, k: nat, name: string, inum: nat, kind: nat)
    requires Tidy(es) && k <= |es| && (k < |es| ==> es[k].inum == 0) && LookUp(es, name).None?
    requires IsCString(name) && 0 < inum < 0x1_0000_0000 && kind < 0x1_0000
    ensures var es' := WithEntry(es, k, Decode(Encode(inum, kind, name)));
            && Tidy(es')
            && forall s: string :: LookUp(es', s) == if Truncate(s) == Truncate(name) then Some(inum) else LookUp(es, s)
  {
    hide LookUp, Tidy, Encode, Decode;
    DecodeEncode(inum, kind, name);
    var e := Dirent(inum, Truncate(name));
    var es' := WithEntry(es, k, e);
    LookUpTruncated(es, name);
    LinkTidy(es, k, e, es');
    forall s: string ensures LookUp(es', s) == if Truncate(s) == Truncate(name) then Some(inum) else LookUp(es, s) {
      LinkAt(es, k, e, es', s);
    }
  }

  lemma ZeroUnused()
    ensures Decode(ZeroRecord()) == Dirent(0, "")
  {
  }

  // ----- operations -----

  /** namecmp(name, de.name) == 0: strncmp of a string with a name field. */
  method NameCmp(name: string, field: seq<Byte>) returns (same: bool)
    requires IsCString(name) && |field| == DIRSIZ
    ensures same <==> NameOf(field) == Truncate(name)
  {
    var n := 0;
    while n < DIRSIZ && n < |name| && name[n] as int == field[n]
      invariant 0 <= n <= DIRSIZ && n <= |name| && forall i :: 0 <= i < n ==> field[i] == name[i] as int
    {
      n := n + 1;
    }
    same := n == DIRSIZ || (if n < |name| then name[n] as int else 0) == field[n];
    if same {
      NameIs(field, Truncate(name));
    } else {
      NameAt(field);
    }
  }

  /** The name map of the directory in file n. */
  ghost function NameMap(fs: Fs, n: nat, name: string): Option<nat>
    requires fs.Valid() && n in fs.inodes && IsDirectory(fs.File(n))
    reads fs
  {
    LookUp(Entries(fs.File(n)), name)
  }

  /** readi of record k. */
  method ReadRecord(fs: Fs, n: nat, k: nat) returns (rec: seq<Byte>)
    requires fs.Valid() && n in fs.inodes && IsDirectory(fs.File(n)) && RECORD * k < fs.inodes[n].size
    modifies fs
    ensures fs.disk == old(fs.disk) && fs.bitmap == old(fs.bitmap) && fs.inodes == old(fs.inodes) && fs.own == old(fs.own)
    ensures fs.Valid() && |rec| == RECORD && k < |Entries(fs.File(n))|
    ensures Decode(rec) == Entries(fs.File(n))[k] && Inum(rec) == Entries(fs.File(n))[k].inum
  {
    hide FsInv, FsTree.Content, NameOf, Inum;
    FileSize(fs.disk, fs.bitmap, fs.inodes, fs.own, fs.start, n);
    rec := fs.ReadI(n, RECORD * k, RECORD);
    assert rec == Record(fs.File(n), k);
  }

  /** The tests of dirlookup on one record. */
  method IsNamed(rec: seq<Byte>, name: string) returns (named: bool)
    requires |rec| == RECORD && IsCString(name)
    ensures named <==> Names(Decode(rec), name)
  {
    if Inum(rec) == 0 {
      return false;
    }
    named := NameCmp(name, rec[6..]);
  }

  /** dirlookup: the inode number of a name and the byte offset of its record. */
  method DirLookup(fs: Fs, n: nat, name: string) returns (r: Option<(nat, nat)>)
    requires fs.Valid() && n in fs.inodes && IsDirectory(fs.File(n)) && IsCString(name)
    modifies fs
    ensures fs.disk == old(fs.disk) && fs.bitmap == old(fs.bitmap) && fs.inodes == old(fs.inodes) && fs.own == old(fs.own)
    ensures fs.Valid() && (r.None? <==> NameMap(fs, n, name).None?)
    ensures r.Some? ==> NameMap(fs, n, name) == Some(r.value.0)
    ensures r.Some? ==> r.value.1 % RECORD == 0 && Find(Entries(fs.File(n)), name) == Some(r.value.1 / RECORD)
  {
    hide FsInv, FsTree.Content, Decode, Inum, Names, Find;
    FileSize(fs.disk, fs.bitmap, fs.inodes, fs.own, fs.start, n);
    ghost var es := Entries(fs.File(n));
    var off := 0;
    while off < fs.inodes[n].size
      invariant fs.disk == old(fs.disk) && fs.bitmap == old(fs.bitmap) && fs.inodes == old(fs.inodes) && fs.own == old(fs.own)
      invariant off % RECORD == 0 && off <= fs.inodes[n].size
      invariant forall j :: 0 <= j < off / RECORD ==> !Names(es[j], name)
    {
      ghost var k := off / RECORD;
      var rec := ReadRecord(fs, n, off / RECORD);
      var named := IsNamed(rec, name);
      if named {
        FindIs(es, name, k);
        return Some((Inum(rec), off));
      }
      off := off + RECORD;
    }
    return None;
  }

  /** A directory can grow by a record: it is not at the largest size, and what is missing on the way to its next block is free. */
  ghost predicate CanGrow(fs: Fs, n: nat)
    requires fs.Valid() && n in fs.inodes
    reads fs
  {
    var size := |fs.File(n)|;
    size + 64 < FsTree.MAXSIZE && |MissingAt(fs.disk, fs.inodes[n], size / 4096)| <= |Free(fs.bitmap)|
  }

  /** A record does not cross a block. */
  lemma WithinBlock(k: nat, m: nat)
    requires m < 64
    ensures (64 * k + m) % 4096 == 0 ==> m == 0
  {
    var q := (64 * k + m) / 4096;
    assert 64 * k + m == 4096 * q + (64 * k + m) % 4096;
  }

  lemma RecordBlock(k: nat)
    ensures (64 * k + 64 - 1) / 4096 == 64 * k / 4096
  {
    var q := 64 * k / 4096;
    var r := 64 * k - 4096 * q;
    assert 0 <= r < 4096 && r == 64 * (k - 64 * q);
  }

  /** writei of a record at its place: all of it or nothing. */
  method WriteRecord(fs: Fs, n: nat, k: nat, rec: seq<Byte>) returns (ok: bool)
    requires fs.Valid() && n in fs.inodes && IsDirectory(fs.File(n)) && k <= |Entries(fs.File(n))| && |rec| == RECORD
    modifies fs
    ensures fs.Valid() && fs.inodes.Keys == old(fs.inodes).Keys && n in fs.inodes && IsDirectory(fs.File(n))
    ensures ok ==> fs.File(n) == Spliced(old(fs.File(n)), RECORD * k, rec)
    ensures ok ==> Entries(fs.File(n)) == WithEntry(old(Entries(fs.File(n))), k, Decode(rec))
    ensures ok <==> k < |old(Entries(fs.File(n)))| || old(CanGrow(fs, n))
    ensures !ok ==> fs.File(n) == old(fs.File(n))
    ensures ok ==> 64 * k / 4096 < FsTree.MAXFILE
    ensures ok ==> Took(old(fs.Now()), fs.Now(), n, MissingAt(old(fs.disk), old(fs.inodes)[n], 64 * k / 4096))
    ensures forall m :: m in old(fs.inodes) && m != n ==> fs.File(m) == old(fs.File(m))
  {
    hide FsInv, FsTree.Content, Decode, Spliced, FsTree.HasBlock, Full, Took, MissingIn, MissingAt, Free;
    FileSize(fs.disk, fs.bitmap, fs.inodes, fs.own, fs.start, n);
    ghost var c := fs.File(n);
    RecordWritten(c, k, rec);
    RecordBlock(k);
    if 64 * k / 4096 < FsTree.MAXFILE { OneBlock(fs.disk, fs.inodes[n], 64 * k / 4096); }
    var r;
    ghost var got;
    r, got := fs.WriteI(n, rec, RECORD * k);
    ok := r.Some? && r.value == RECORD;
    if ok {
      assert rec[..RECORD] == rec;
      assert got == MissingAt(old(fs.disk), old(fs.inodes)[n], 64 * k / 4096);
    } else if r.Some? {
      WithinBlock(k, r.value);
      assert rec[..0] == [];
      SplicedNothing(c, RECORD * k);
    }
    FileSize(fs.disk, fs.bitmap, fs.inodes, fs.own, fs.start, n);
  }

  /**
   dirlink of an inode in use. It fails exactly when the name is there, or when
   no entry is unused and the directory cannot grow.
   */
  method DirLink(fs: Fs, n: nat, name: string, inum: nat, kind: nat) returns (ok: bool)
    requires fs.Valid() && n in fs.inodes && IsDirectory(fs.File(n)) && Tidy(Entries(fs.File(n)))
    requires IsCString(name) && 0 < inum < 0x1_0000_0000 && kind < 0x1_0000
    modifies fs
    ensures fs.Valid() && fs.inodes.Keys == old(fs.inodes).Keys && n in fs.inodes
    ensures IsDirectory(fs.File(n)) && Tidy(Entries(fs.File(n)))
    ensures forall m :: m in old(fs.inodes) && m != n ==> fs.File(m) == old(fs.File(m))
    ensures ok ==>
              && old(NameMap(fs, n, name)).None?
              && ChangedAt(old(fs.File(n)), fs.File(n), 64 * Unused(old(Entries(fs.File(n)))))
              && HoldsRecord(fs.File(n), 64 * Unused(old(Entries(fs.File(n)))), inum, kind, name)
    ensures ok ==>
              forall s: string :: NameMap(fs, n, s) == if Truncate(s) == Truncate(name) then Some(inum) else old(NameMap(fs, n, s))
    ensures !ok ==> fs.File(n) == old(fs.File(n))
    ensures ok ==> 64 * Unused(old(Entries(fs.File(n)))) / 4096 < FsTree.MAXFILE
    ensures ok ==> Took(old(fs.Now()), fs.Now(), n,
                        MissingAt(old(fs.disk), old(fs.inodes)[n], 64 * Unused(old(Entries(fs.File(n)))) / 4096))
    ensures ok <==> old(NameMap(fs, n, name)).None? && (Unused(old(Entries(fs.File(n)))) < |old(Entries(fs.File(n)))| || old(CanGrow(fs, n)))
  {
    hide FsInv, FsTree.Content, Decode, Spliced, Tidy, LookUp, Truncate, WithEntry, Padded, MissingAt, Free, Took, HoldsRecord, ChangedAt, Encode;
    ghost var es := Entries(fs.File(n));
    var found := DirLookup(fs, n, name);
    if found.Some? {
      return false;
    }
    FileSize(fs.disk, fs.bitmap, fs.inodes, fs.own, fs.start, n);
    var off := 0;
    while off < fs.inodes[n].size
      invariant fs.disk == old(fs.disk) && fs.bitmap == old(fs.bitmap) && fs.inodes == old(fs.inodes) && fs.own == old(fs.own)
      invariant off % RECORD == 0 && off <= fs.inodes[n].size
      invariant forall j :: 0 <= j < off / RECORD ==> es[j].inum != 0
    {
      var rec := ReadRecord(fs, n, off / RECORD);
      if Inum(rec) == 0 {
        break;
      }
      off := off + RECORD;
    }
    ghost var k := off / RECORD;
    UnusedIs(es, k);
    LinkedMap(es, k, name, inum, kind);
    EncodeHolds(fs.File(n), off, inum, kind, name);
    ok := WriteRecord(fs, n, off / RECORD, Encode(inum, kind, name));
  }

  /** unlink of the record at a byte offset. Its block is there, so the write does not fail. */
  method Unlink(fs: Fs, n: nat, off: nat) returns (ok: bool)
    requires fs.Valid() && n in fs.inodes && IsDirectory(fs.File(n)) && Tidy(Entries(fs.File(n)))
    requires off % RECORD == 0 && off < |fs.File(n)|
    modifies fs
    ensures ok && fs.Valid() && fs.inodes.Keys == old(fs.inodes).Keys && n in fs.inodes
    ensures IsDirectory(fs.File(n)) && Tidy(Entries(fs.File(n)))
    ensures forall m :: m in old(fs.inodes) && m != n ==> fs.File(m) == old(fs.File(m))
    ensures Took(old(fs.Now()), fs.Now(), n, {}) && ChangedAt(old(fs.File(n)), fs.File(n), off)
    ensures forall j :: off <= j < off + 64 ==> fs.File(n)[j] == 0
    ensures forall s: string ::
              NameMap(fs, n, s) == if old(Names(Entries(fs.File(n))[off / RECORD], s)) then None else old(NameMap(fs, n, s))
  {
    hide FsInv, FsTree.Content, Decode, Spliced, Tidy, LookUp, Truncate, Names, CanGrow, ChangedAt, Took, MissingAt, FsTree.HasBlock;
    ghost var es, k := Entries(fs.File(n)), off / RECORD;
    ZeroUnused();
    forall s: string ensures LookUp(es[k := Dirent(0, "")], s) == if Names(es[k], s) then None else LookUp(es, s) {
      UnlinkAt(es, k, s);
    }
    UnlinkTidy(es, k);
    SplicedRecord(fs.File(n), off, ZeroRecord());
    FileSize(fs.disk, fs.bitmap, fs.inodes, fs.own, fs.start, n);
    BlockThere(fs.disk, fs.bitmap, fs.inodes, fs.own, fs.start, n, off);
    NoneMissing(fs.disk, fs.inodes[n], off / FsTree.BSIZE);
    ok := WriteRecord(fs, n, off / RECORD, ZeroRecord());
  }

  /** Linking a new name, finding it and unlinking what was found leaves the name map as it was. */
  method LinkThenUnlink(fs: Fs, n: nat, name: string, inum: nat, kind: nat) returns (linked: bool)
    requires fs.Valid() && n in fs.inodes && IsDirectory(fs.File(n)) && Tidy(Entries(fs.File(n)))
    requires IsCString(name) && 0 < inum < 0x1_0000_0000 && kind < 0x1_0000
    modifies fs
    ensures fs.Valid() && n in fs.inodes && IsDirectory(fs.File(n)) && Tidy(Entries(fs.File(n)))
    ensures forall s: string :: NameMap(fs, n, s) == old(NameMap(fs, n, s))
    ensures !linked ==> fs.File(n) == old(fs.File(n))
    ensures forall m :: m in old(fs.inodes) && m != n ==> m in fs.inodes && fs.File(m) == old(fs.File(m))
  {
    hide FsInv, FsTree.Content, Spliced, Tidy, LookUp, Truncate, Encode, CanGrow;
    ghost var es := Entries(fs.File(n));
    linked := DirLink(fs, n, name, inum, kind);
    if linked {
      var found := DirLookup(fs, n, name);
      forall s: string | Truncate(s) == Truncate(name) ensures LookUp(es, s) == LookUp(es, name) {
        LookUpTruncated(es, s);
        LookUpTruncated(es, name);
      }
      var ok := Unlink(fs, n, found.value.1);
    }
  }
}
