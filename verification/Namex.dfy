/**
 The in-memory inode table and the walk of a path through directories. Inode
 pointers are slots of the table. `disk` gives for each inode what ilock reads:
 whether it is free, a directory or something else, its link count and its
 directory entries. A walk changes it only by freeing inodes.
 */
module Namex {
  import opened Wrappers
  import opened Paths
  import opened Directory

  const NINODE: nat := 1024
  const ROOTDEV: nat := 1
  const ROOTINO: nat := 1

  datatype Key = Key(dev: nat, inum: nat)

  datatype Inode = Inode(key: Key, ref: nat, valid: bool)

  datatype Kind = Dir | Other | Free

  datatype DiskInode = DiskInode(kind: Kind, nlink: nat, entries: seq<Dirent>)

  const FREE_INODE := DiskInode(Free, 0, [])

  // ----- the table -----

  ghost predicate Has(t: seq<Inode>, i: nat, k: Key) {
    i < |t| && t[i].ref > 0 && t[i].key == k
  }

  ghost predicate Twins(t: seq<Inode>, i: nat, j: nat) {
    i < j < |t| && t[i].ref > 0 && t[j].ref > 0 && t[i].key == t[j].key
  }

  /** An inode is in at most one slot in use. */
  ghost predicate TableInv(t: seq<Inode>) {
    forall i: nat, j: nat :: !Twins(t, i, j)
  }

  ghost function SlotOf(t: seq<Inode>, k: Key): (r: Option<nat>)
    ensures r.Some? ==> Has(t, r.value, k)
    ensures r.None? ==> forall i: nat :: !Has(t, i, k)
  {
    if i: nat :| Has(t, i, k) then Some(i) else None
  }

  /** The references the table counts for an inode. */
  ghost function Refs(t: seq<Inode>, k: Key): nat {
    match SlotOf(t, k)
    case None => 0
    case Some(i) => t[i].ref
  }

  lemma RefsAt(t: seq<Inode>, i: nat, k: Key)
    requires TableInv(t) && Has(t, i, k)
    ensures Refs(t, k) == t[i].ref
  {
    var j := SlotOf(t, k).value;
    assert !Twins(t, i, j) && !Twins(t, j, i);
  }

  lemma RefsNone(t: seq<Inode>, k: Key)
    requires forall i: nat :: !Has(t, i, k)
    ensures Refs(t, k) == 0
  {
  }

  /** Slot i, in use for k or free before, counts one reference more or less. */
  ghost predicate Changes(t: seq<Inode>, i: nat, v: Inode, t': seq<Inode>) {
    && TableInv(t) && i < |t| && t' == t[i := v]
    && (t[i].ref > 0 ==> v.key == t[i].key)
    && (t[i].ref == 0 ==> forall j: nat :: !Has(t, j, v.key))
  }

  lemma ChangesKeep(t: seq<Inode>, i: nat, v: Inode, t': seq<Inode>)
    requires Changes(t, i, v, t')
    ensures TableInv(t')
  {
    forall a: nat, b: nat ensures !Twins(t', a, b) {
      assert !Twins(t, a, b);
      assert !Has(t, a, v.key) || t[i].ref > 0;
      assert !Has(t, b, v.key) || t[i].ref > 0;
    }
  }

  lemma ChangesRefs(t: seq<Inode>, i: nat, v: Inode, t': seq<Inode>, k: Key)
    requires Changes(t, i, v, t')
    ensures Refs(t', k) == if k == v.key then v.ref else Refs(t, k)
    ensures k == v.key ==> Refs(t, k) == t[i].ref
  {
    ChangesKeep(t, i, v, t');
    if k == v.key {
      if v.ref > 0 { RefsAt(t', i, k); } else { NoOther(t, i, v, t'); RefsNone(t', k); }
      if t[i].ref > 0 { RefsAt(t, i, k); } else { RefsNone(t, k); }
    } else {
      forall j: nat ensures Has(t', j, k) <==> Has(t, j, k) { }
      match SlotOf(t, k) {
        case Some(j) => RefsAt(t', j, k);
        case None =>
      }
    }
  }

  lemma NoOther(t: seq<Inode>, i: nat, v: Inode, t': seq<Inode>)
    requires Changes(t, i, v, t') && v.ref == 0
    ensures forall j: nat :: !Has(t', j, v.key)
  {
    forall j: nat ensures !Has(t', j, v.key) {
      assert !Twins(t, i, j) && !Twins(t, j, i);
      assert j != i && j < |t| ==> (Has(t', j, v.key) <==> Has(t, j, v.key));
    }
  }

  /** t counts for every inode what t0 does, and one more for `extra`. */
  ghost predicate Counts(t0: seq<Inode>, t: seq<Inode>, extra: Option<Key>) {
    forall k :: Refs(t, k) == Refs(t0, k) + if extra == Some(k) then 1 else 0
  }

  /** Slots in use stay in use for the same inode. */
  ghost predicate Stays(t0: seq<Inode>, t: seq<Inode>) {
    |t| == |t0| && forall i :: 0 <= i < |t0| && t0[i].ref > 0 ==> t[i].ref > 0 && t[i].key == t0[i].key
  }

  // ----- walking -----

  type Disk = map<Key, DiskInode>

  /** What ilock reads for an inode. */
  function At(disk: Disk, k: Key): DiskInode {
    if k in disk then disk[k] else FREE_INODE
  }

  predicate IsDir(disk: Disk, k: Key) {
    At(disk, k).kind == Dir
  }

  /** One step: the entry of a directory under a name. */
  ghost function Step(disk: Disk, k: Key, name: string): Option<Key> {
    if IsDir(disk, k) then
      match LookUp(At(disk, k).entries, name)
      case None => None
      case Some(inum) => Some(Key(k.dev, inum))
    else None
  }

  /** Directory lookup folded over names. */
  ghost function Fold(disk: Disk, k: Option<Key>, names: seq<string>): Option<Key>
    decreases |names|
  {
    if names == [] || k.None? then k else Fold(disk, Step(disk, k.value, names[0]), names[1..])
  }

  /** What a walk from k over the names is to return; the parent form stops one name early, at a directory. */
  ghost function Target(disk: Disk, k: Key, names: seq<string>, parent: bool): Option<Key> {
    if !parent then Fold(disk, Some(k), names)
    else if names == [] then None
    else
      var r := Fold(disk, Some(k), names[..|names| - 1]);
      if r.Some? && IsDir(disk, r.value) then r else None
  }

  /** A walk over no name stays where it starts, and has no last name to stop before. */
  lemma TargetEmpty(disk: Disk, k: Key, parent: bool)
    ensures Target(disk, k, [], parent) == if parent then None else Some(k)
  {
  }

  lemma FoldNone(disk: Disk, names: seq<string>)
    ensures Fold(disk, None, names) == None
  {
  }

  lemma TargetStep(disk: Disk, k: Key, names: seq<string>, parent: bool)
    requires names != []
    ensures !IsDir(disk, k) ==> Target(disk, k, names, parent) == None
    ensures IsDir(disk, k) && parent && |names| == 1 ==> Target(disk, k, names, parent) == Some(k)
    ensures IsDir(disk, k) && !(parent && |names| == 1) ==>
              Target(disk, k, names, parent) ==
              match Step(disk, k, names[0]) case None => None case Some(n) => Target(disk, n, names[1..], parent)
  {
    var cut := names[..|names| - 1];
    if |names| > 1 {
      assert cut[0] == names[0] && cut[1..] == names[1..][..|names[1..]| - 1];
      assert Fold(disk, Some(k), cut) == Fold(disk, Step(disk, k, cut[0]), cut[1..]);
      FoldNone(disk, cut[1..]);
    } else {
      assert cut == [];
    }
    FoldNone(disk, names[1..]);
  }

  // ----- which inodes a walk drops and which it frees -----

  /** Where a walk goes on after k, with names left. */
  ghost function Next(disk: Disk, k: Key, names: seq<string>, parent: bool): Option<Key> {
    if names == [] || (parent && |names| == 1) then None else Step(disk, k, names[0])
  }

  /** The inodes at which a walk stands, one after the other. */
  ghost function Trail(disk: Disk, k: Key, names: seq<string>, parent: bool): (t: seq<Key>)
    ensures |t| >= 1 && t[0] == k
    decreases |names|
  {
    match Next(disk, k, names, parent)
    case None => [k]
    case Some(n) => [k] + Trail(disk, n, names[1..], parent)
  }

  ghost predicate LeftAt(t: seq<Key>, failed: bool, k: Key, j: nat) {
    j < |t| && t[j] == k && if j + 1 < |t| then t[j + 1] != k else failed
  }

  /** The walk along t moves on from k to another inode, or fails at k. */
  ghost predicate Dropped(t: seq<Key>, failed: bool, k: Key) {
    exists j: nat :: LeftAt(t, failed, k, j)
  }

  lemma DroppedStep(k: Key, t: seq<Key>, failed: bool, x: Key)
    requires |t| >= 1
    ensures Dropped([k] + t, failed, x) <==> (x == k && t[0] != k) || Dropped(t, failed, x)
  {
    var u := [k] + t;
    if Dropped(t, failed, x) {
      var j: nat :| LeftAt(t, failed, x, j);
      assert LeftAt(u, failed, x, j + 1);
    }
    if x == k && t[0] != k { assert LeftAt(u, failed, x, 0); }
    if j: nat :| LeftAt(u, failed, x, j) {
      if j > 0 { assert LeftAt(t, failed, x, j - 1); }
    }
  }

  lemma DroppedOne(k: Key, failed: bool, x: Key)
    ensures Dropped([k], failed, x) <==> failed && x == k
  {
    if failed && x == k { assert LeftAt([k], failed, x, 0); }
  }

  /** Nobody refers to k before the walk and no directory entry counts for it. */
  ghost predicate Loose(t0: seq<Inode>, disk: Disk, k: Key) {
    Refs(t0, k) == 0 && At(disk, k).nlink == 0
  }

  /** The inodes a walk from k over the names frees: loose ones that it drops. */
  ghost predicate Frees(t0: seq<Inode>, disk: Disk, k: Key, names: seq<string>, parent: bool, x: Key) {
    names != [] && Loose(t0, disk, x) && Dropped(Trail(disk, k, names, parent), Target(disk, k, names, parent).None?, x)
  }

  /** A walk over inodes that all have a link or another reference frees nothing. */
  lemma FreesNothing(t0: seq<Inode>, disk: Disk, k: Key, names: seq<string>, parent: bool)
    requires forall j :: 0 <= j < |Trail(disk, k, names, parent)| ==> !Loose(t0, disk, Trail(disk, k, names, parent)[j])
    ensures forall x :: !Frees(t0, disk, k, names, parent, x)
  {
  }

  /** One name of a walk: what is freed at once and what later. */
  lemma FreesStep(t0: seq<Inode>, disk: Disk, k: Key, names: seq<string>, parent: bool, x: Key)
    requires names != []
    ensures match Next(disk, k, names, parent)
            case None =>
              Frees(t0, disk, k, names, parent, x) <==> Loose(t0, disk, x) && x == k && Target(disk, k, names, parent).None?
            case Some(n) =>
              Frees(t0, disk, k, names, parent, x) <==> Loose(t0, disk, x) && ((x == k && n != k) || Frees(t0, disk, n, names[1..], parent, x))
  {
    TargetStep(disk, k, names, parent);
    match Next(disk, k, names, parent) {
      case None => DroppedOne(k, Target(disk, k, names, parent).None?, x);
      case Some(n) =>
        DroppedStep(k, Trail(disk, n, names[1..], parent), Target(disk, k, names, parent).None?, x);
        if names[1..] == [] {
          DroppedOne(n, Target(disk, n, [], parent).None?, x);
        }
    }
  }

  // ----- when a walk panics -----

  /** Before position m the walk along t has moved on from k to another inode. */
  ghost predicate LeftBefore(t: seq<Key>, m: nat, k: Key) {
    exists i: nat :: i < m && LeftFor(t, i, k)
  }

  ghost predicate LeftFor(t: seq<Key>, i: nat, k: Key) {
    i + 1 < |t| && t[i] == k && t[i + 1] != k
  }

  /**
   At position j a walk over n names locks a free inode: one that was free at
   the start, or a loose one that the walk has left, and so freed, before.
   */
  ghost predicate StuckAt(t0: seq<Inode>, disk: Disk, t: seq<Key>, n: nat, j: nat) {
    j < |t| && j < n && (At(disk, t[j]).kind == Free || (Loose(t0, disk, t[j]) && LeftBefore(t, j, t[j])))
  }

  /** The walk has come to inode k with `names` left: it freed what was loose and left, and was not stuck yet. */
  ghost predicate Sofar(t0: seq<Inode>, disk: Disk, t: seq<Key>, n: nat, parent: bool, k: Key, names: seq<string>, freed: set<Key>) {
    && |names| <= n && n - |names| < |t| && t[n - |names|..] == Trail(disk, k, names, parent)
    && (forall x :: x in freed <==> Loose(t0, disk, x) && LeftBefore(t, n - |names|, x))
    && (forall j: nat :: j < n - |names| ==> !StuckAt(t0, disk, t, n, j))
  }

  lemma SofarStart(t0: seq<Inode>, disk: Disk, k: Key, names: seq<string>, parent: bool)
    ensures Sofar(t0, disk, Trail(disk, k, names, parent), |names|, parent, k, names, {})
  {
    hide At, Next, Loose;
  }

  /** The inode the walk stands at is free exactly if the walk is stuck here. */
  lemma SofarStuck(t0: seq<Inode>, disk0: Disk, disk: Disk, t: seq<Key>, n: nat, parent: bool, k: Key, names: seq<string>, freed: set<Key>)
    requires Sofar(t0, disk0, t, n, parent, k, names, freed) && names != [] && AfterFreeing(disk0, disk, freed)
    ensures At(disk, k).kind == Free <==> StuckAt(t0, disk0, t, n, n - |names|)
    ensures t[n - |names|] == k
  {
    hide At, Loose, LeftBefore;
    assert t[n - |names|..][0] == k;
  }

  lemma SofarGo(t0: seq<Inode>, disk: Disk, t: seq<Key>, n: nat, parent: bool, k: Key, names: seq<string>, freed: set<Key>,
                next: Key, frees: bool)
    requires Sofar(t0, disk, t, n, parent, k, names, freed) && names != [] && Next(disk, k, names, parent) == Some(next)
    requires !StuckAt(t0, disk, t, n, n - |names|) && (frees <==> Loose(t0, disk, k) && next != k)
    ensures Sofar(t0, disk, t, n, parent, next, names[1..], if frees then freed + {k} else freed)
  {
    hide Next, Loose, StuckAt;
    var m := n - |names|;
    var rest := Trail(disk, next, names[1..], parent);
    assert t[m..] == [k] + rest;
    assert t[m..][1..] == t[m + 1..];
    assert t[m] == t[m..][0] && t[m + 1] == t[m..][1];
    forall x ensures LeftBefore(t, m + 1, x) <==> LeftBefore(t, m, x) || (x == k && next != k) {
      if x == k && next != k { assert LeftFor(t, m, x); }
      if LeftBefore(t, m + 1, x) {
        var i: nat :| i < m + 1 && LeftFor(t, i, x);
        assert i < m || i == m;
      }
    }
  }

  /** Nobody refers to the inode at position j before the walk: it takes a new slot. */
  ghost predicate NewAt(t0: seq<Inode>, t: seq<Key>, j: nat) {
    j < |t| && Refs(t0, t[j]) == 0
  }

  lemma NewNext(t0: seq<Inode>, disk: Disk, t: seq<Key>, n: nat, parent: bool, k: Key, names: seq<string>, freed: set<Key>)
    requires Sofar(t0, disk, t, n, parent, k, names, freed) && names != [] && Next(disk, k, names, parent).Some?
    requires Refs(t0, Next(disk, k, names, parent).value) == 0
    ensures exists j: nat :: NewAt(t0, t, j)
  {
    hide Next, Loose, StuckAt, Refs;
    var m := n - |names|;
    var rest := Trail(disk, Next(disk, k, names, parent).value, names[1..], parent);
    assert t[m..] == [k] + rest;
    assert t[m + 1] == t[m..][1];
    assert NewAt(t0, t, m + 1);
  }

  lemma SofarLength(t0: seq<Inode>, disk: Disk, t: seq<Key>, n: nat, parent: bool, k: Key, names: seq<string>, freed: set<Key>)
    requires Sofar(t0, disk, t, n, parent, k, names, freed)
    ensures |names| <= n
  {
  }

  /** A walk that ends at k, or has no names left, was never stuck. */
  lemma SofarEnd(t0: seq<Inode>, disk: Disk, t: seq<Key>, n: nat, parent: bool, k: Key, names: seq<string>, freed: set<Key>)
    requires Sofar(t0, disk, t, n, parent, k, names, freed) && Next(disk, k, names, parent).None?
    requires names != [] ==> !StuckAt(t0, disk, t, n, n - |names|)
    ensures forall j: nat :: !StuckAt(t0, disk, t, n, j)
  {
    hide At, Next, Loose, LeftBefore;
    assert |t[n - |names|..]| == 1;
  }

  /** The disk after the inodes in `freed` were freed. */
  ghost predicate AfterFreeing(disk0: Disk, disk: Disk, freed: set<Key>) {
    forall k :: At(disk, k) == if k in freed then FREE_INODE else At(disk0, k)
  }

  datatype Outcome = Found(slot: nat) | NotFound | NoInodes | NoType

  /** The step from t to t' adds one reference to k, or takes one away. */
  lemma CountsUp(t0: seq<Inode>, t: seq<Inode>, i: nat, v: Inode, t': seq<Inode>)
    requires Counts(t0, t, None) && Changes(t, i, v, t') && v.ref == t[i].ref + 1
    ensures TableInv(t') && Counts(t0, t', Some(v.key))
  {
    hide Refs, TableInv;
    ChangesKeep(t, i, v, t');
    forall k ensures Refs(t', k) == Refs(t0, k) + if Some(v.key) == Some(k) then 1 else 0 { ChangesRefs(t, i, v, t', k); }
  }

  /** A reference to `from` is given up after one to `to` was taken. */
  lemma CountsDown(t0: seq<Inode>, t: seq<Inode>, t1: seq<Inode>, from: Key, to: Option<Key>, i: nat, v: Inode, t': seq<Inode>)
    requires Counts(t0, t, Some(from)) && Counts(t, t1, to) && Changes(t1, i, v, t') && v.key == from && t1[i].ref == v.ref + 1
    ensures TableInv(t') && Counts(t0, t', to)
  {
    hide Refs, TableInv;
    ChangesKeep(t1, i, v, t');
    forall k ensures Refs(t', k) == Refs(t0, k) + if to == Some(k) then 1 else 0 { ChangesRefs(t1, i, v, t', k); }
  }

  lemma CountsSame(t: seq<Inode>)
    ensures Counts(t, t, None)
  {
  }

  class Inodes {
    const table: array<Inode>
    var disk: Disk

    /** An inode is in one slot at most, and a slot that was read is not of a free inode. */
    ghost predicate Valid()
      reads this, table
    {
      && table.Length == NINODE && TableInv(table[..])
      && forall i :: 0 <= i < NINODE && table[i].ref > 0 && table[i].valid ==> At(disk, table[i].key).kind != Free
    }

    constructor (disk: Disk)
      ensures Valid() && fresh(table) && this.disk == disk && forall k :: Refs(table[..], k) == 0
      ensures forall i :: 0 <= i < NINODE ==> table[i] == Inode(Key(0, 0), 0, false)
    {
      this.disk := disk;
      table := new Inode[NINODE](_ => Inode(Key(0, 0), 0, false));
      new;
      forall k ensures Refs(table[..], k) == 0 { RefsNone(table[..], k); }
    }

    /** iget. None is the "no inodes" panic. */
    method Iget(k: Key) returns (r: Option<nat>)
      requires Valid()
      modifies table
      ensures Valid()
      ensures r.Some? ==> Has(table[..], r.value, k) && Counts(old(table[..]), table[..], Some(k)) && Stays(old(table[..]), table[..])
      ensures r.Some? ==> forall j :: 0 <= j < NINODE && j != r.value ==> table[j] == old(table[j])
      ensures r.Some? && table[r.value].valid ==> Refs(old(table[..]), k) > 0
      ensures r.None? ==> table[..] == old(table[..]) && AllUsed(table[..]) && Refs(table[..], k) == 0
    {
      hide At, Counts, TableInv, Refs;
      ghost var t := table[..];
      CountsSame(t);
      var empty: Option<nat> := None;
      var i := 0;
      while i < NINODE
        invariant 0 <= i <= NINODE && table[..] == t
        invariant forall j :: 0 <= j < i ==> !(table[j].ref > 0 && table[j].key == k)
        invariant empty.Some? ==> empty.value < NINODE && table[empty.value].ref == 0
        invariant empty.None? ==> forall j :: 0 <= j < i ==> table[j].ref > 0
      {
        if table[i].ref > 0 && table[i].key == k {
          RefsAt(t, i, k);
          CountsUp(t, t, i, t[i].(ref := t[i].ref + 1), t[i := t[i].(ref := t[i].ref + 1)]);
          table[i] := table[i].(ref := table[i].ref + 1);
          assert table[..] == t[i := t[i].(ref := t[i].ref + 1)];
          return Some(i);
        }
        if empty.None? && table[i].ref == 0 {
          empty := Some(i);
        }
        i := i + 1;
      }
      if empty.None? {
        RefsNone(t, k);
        return None;
      }
      var e := empty.value;
      CountsUp(t, t, e, Inode(k, 1, false), t[e := Inode(k, 1, false)]);
      table[e] := Inode(k, 1, false);
      assert table[..] == t[e := Inode(k, 1, false)];
      return Some(e);
    }

    method Idup(i: nat)
      requires Valid() && i < NINODE && table[i].ref > 0
      modifies table
      ensures Valid() && Has(table[..], i, old(table[i].key))
      ensures Counts(old(table[..]), table[..], Some(old(table[i].key))) && Stays(old(table[..]), table[..])
    {
      hide At, Counts, TableInv, Refs;
      ghost var t := table[..];
      CountsSame(t);
      CountsUp(t, t, i, t[i].(ref := t[i].ref + 1), t[i := t[i].(ref := t[i].ref + 1)]);
      table[i] := table[i].(ref := table[i].ref + 1);
      assert table[..] == t[i := t[i].(ref := t[i].ref + 1)];
    }

    /** ilock reads the inode from the disk on first use. False is the "no type" panic. */
    method Ilock(i: nat) returns (ok: bool)
      requires Valid() && i < NINODE && table[i].ref > 0
      modifies table
      ensures ok <==> At(disk, old(table[i].key)).kind != Free
      ensures ok ==> Valid() && table[..] == old(table[..])[i := old(table[i]).(valid := true)]
    {
      hide At;
      ghost var t := table[..];
      if !table[i].valid {
        table[i] := table[i].(valid := true);
        if At(disk, table[i].key).kind == Free {
          return false;
        }
      }
      assert table[..] == t[i := t[i].(valid := true)];
      forall a: nat, b: nat ensures !Twins(table[..], a, b) { assert !Twins(t, a, b); }
      ok := true;
    }

    /** iput. With the last reference an inode without links is truncated and freed. */
    method Iput(i: nat) returns (frees: bool)
      requires Valid() && i < NINODE && table[i].ref > 0
      modifies table, `disk
      ensures table[..] == old(table[..])[i := old(table[i]).(ref := old(table[i].ref) - 1, valid := old(table[i].valid) && !frees)]
      ensures frees <==> old(table[i].ref == 1 && table[i].valid && At(disk, table[i].key).nlink == 0)
      ensures disk == if frees then old(disk)[old(table[i].key) := FREE_INODE] else old(disk)
      ensures Valid()
    {
      hide At, Refs;
      ghost var t := table[..];
      frees := table[i].ref == 1 && table[i].valid && At(disk, table[i].key).nlink == 0;
      if frees {
        OneSlot(t, i);
        AtSet(disk, table[i].key);
        disk := disk[table[i].key := FREE_INODE];
        table[i] := table[i].(valid := false);
      }
      table[i] := table[i].(ref := table[i].ref - 1);
      assert table[..] == t[i := table[i]];
      ChangesKeep(t, i, table[i], table[..]);
    }

    /**
     iput of slot i after the walk that started in table t0 has moved on to
     `to`: only that reference remains of the walk. Inode and content are freed
     exactly if they are loose and the walk does not stay.
     */
    method Leave(i: nat, ghost t0: seq<Inode>, ghost t: seq<Inode>, ghost to: Option<Key>) returns (frees: bool)
      requires Valid() && i < NINODE && table[i].ref > 0 && TableInv(t0)
      requires Counts(t0, t, Some(table[i].key)) && Counts(t, table[..], to) && Stays(t0, table[..])
      modifies table, `disk
      ensures Valid() && Counts(t0, table[..], to) && Stays(t0, table[..])
      ensures forall j :: 0 <= j < NINODE && j != i ==> table[j] == old(table[j])
      ensures to == Some(old(table[i].key)) ==> table[i].ref > 0
      ensures table[i].key == old(table[i].key)
      ensures frees <==> old(table[i].valid) && Loose(t0, old(disk), table[i].key) && to != Some(table[i].key)
      ensures disk == if frees then old(disk)[table[i].key := FREE_INODE] else old(disk)
    {
      hide At, Refs, TableInv, Counts;
      ghost var t1, k := table[..], table[i].key;
      RefsAt(t1, i, k);
      CountsFor(t0, t, Some(k), k);
      CountsFor(t, t1, to, k);
      if i < |t0| && t0[i].ref > 0 { RefsAt(t0, i, k); }
      frees := Iput(i);
      ghost var v := table[i];
      assert Changes(t1, i, v, table[..]);
      CountsDown(t0, t, t1, k, to, i, v, table[..]);
    }

    /** The body of the loop of namex for one name; `last` tells that no name follows. */
    method Advance(ip: nat, name: string, last: bool, parent: bool, ghost t0: seq<Inode>, ghost k: Key)
      returns (r: Progress, ghost frees: bool)
      requires Valid() && TableInv(t0) && Walking(t0, table[..], ip, k)
      modifies table, `disk
      ensures r == Stop(NoType) <==> At(old(disk), k).kind == Free
      ensures r != Stop(NoType) ==> Valid() && disk == if frees then old(disk)[k := FREE_INODE] else old(disk)
      ensures r == Stop(NoType) || r == Stop(NoInodes) ==> disk == old(disk) && !frees
      ensures r == Stop(NoInodes) ==> AllUsed(table[..]) && Step(old(disk), k, name).Some? && Refs(t0, Step(old(disk), k, name).value) == 0
      ensures r == Stop(NotFound) ==> Counts(t0, table[..], None) && Stays(t0, table[..]) && (frees <==> Loose(t0, old(disk), k))
      ensures r.Stop? && r.outcome.Found? ==> r.outcome.slot == ip && Walking(t0, table[..], ip, k) && !frees
      ensures r.Stop? && r.outcome.Found? ==> ip < NINODE == table.Length && table[ip].valid
      ensures r == Stop(NotFound) ==> !IsDir(old(disk), k) || (!(parent && last) && Step(old(disk), k, name).None?)
      ensures r.Stop? && r.outcome.Found? ==> IsDir(old(disk), k) && parent && last
      ensures r == Stop(NoInodes) || r.Go? ==> !(parent && last) && Step(old(disk), k, name).Some?
      ensures r.Go? ==> Walking(t0, table[..], r.next, Step(old(disk), k, name).value)
      ensures r.Go? ==> (frees <==> Loose(t0, old(disk), k) && Step(old(disk), k, name) != Some(k))
    {
      hide At, Refs, TableInv, Counts, LookUp;
      frees := false;
      ghost var disk0 := disk;
      var typed := Ilock(ip);
      if !typed {
        return Stop(NoType), false;
      }
      LockKeeps(t0, old(table[..]), ip, k, table[..]);
      ghost var t := table[..];
      CountsSame(t);
      var inode := At(disk, table[ip].key);
      if inode.kind != Dir {
        frees := Leave(ip, t0, t, None);
        return Stop(NotFound), frees;
      }
      if parent && last {
        return Stop(Found(ip)), false;
      }
      var inum := LookUp(inode.entries, name);
      if inum.None? {
        frees := Leave(ip, t0, t, None);
        return Stop(NotFound), frees;
      }
      var to := Key(table[ip].key.dev, inum.value);
      var next := Iget(to);
      if next.None? {
        CountsFor(t0, t, Some(k), to);
        return Stop(NoInodes), false;
      }
      StaysTrans(t0, t, table[..]);
      frees := Leave(ip, t0, t, Some(to));
      return Go(next.value), frees;
    }

    /** The inode at which a walk begins. */
    method Begin(path: string, start: nat) returns (ip: Option<nat>)
      requires Valid() && start < NINODE && table[start].ref > 0
      modifies table
      ensures Valid() && (ip.None? ==> AllUsed(table[..]) && Refs(table[..], Origin(path, old(table[start].key))) == 0 && table[..] == old(table[..]))
      ensures ip.Some? ==> Walking(old(table[..]), table[..], ip.value, Origin(path, old(table[start].key)))
      ensures ip.Some? && table[ip.value].valid ==> Refs(old(table[..]), Origin(path, old(table[start].key))) > 0
    {
      hide At, Refs, TableInv, Counts;
      if path != "" && path[0] == '/' {
        ip := Iget(Key(ROOTDEV, ROOTINO));
      } else {
        RefsAt(table[..], start, table[start].key);
        Idup(start);
        ip := Some(start);
      }
    }

    /** One turn of the loop of namex, with what the walk from k0 over `all` is to return and to free. */
    method Turn(ip: nat, name: string, last: bool, parent: bool, ghost t0: seq<Inode>, ghost disk0: Disk, ghost k0: Key, ghost all: seq<string>,
                ghost names: seq<string>, ghost at: Key, ghost freed: set<Key>)
      returns (p: Progress, ghost at': Key, ghost freed': set<Key>)
      requires Valid() && TableInv(t0) && Walking(t0, table[..], ip, at) && AfterFreeing(disk0, disk, freed)
      requires names != [] && name == Truncate(names[0]) && (last <==> |names| == 1)
      requires Target(disk0, k0, all, parent) == Target(disk0, at, names, parent) && Accounts(t0, disk0, k0, all, parent, freed, at, names)
      requires Sofar(t0, disk0, Trail(disk0, k0, all, parent), |all|, parent, at, names, freed)
      modifies table, `disk
      ensures AfterFreeing(disk0, disk, freed')
      ensures p == Stop(NoType) ==>
                |names| <= |all| && StuckAt(t0, disk0, Trail(disk0, k0, all, parent), |all|, |all| - |names|)
      ensures p.Stop? && (p.outcome.Found? || p.outcome.NotFound?) ==>
                forall j: nat :: !StuckAt(t0, disk0, Trail(disk0, k0, all, parent), |all|, j)
      ensures p.Go? ==> Sofar(t0, disk0, Trail(disk0, k0, all, parent), |all|, parent, at', names[1..], freed')
      ensures p == Stop(NoInodes) ==> AllUsed(table[..]) && exists j: nat :: NewAt(t0, Trail(disk0, k0, all, parent), j)
      ensures p.Go? || p.outcome.Found? || p.outcome.NotFound? ==> Valid()
      ensures p.Stop? && (p.outcome.Found? || p.outcome.NotFound?) ==> forall x :: x in freed' <==> Frees(t0, disk0, k0, all, parent, x)
      ensures p.Stop? && p.outcome.Found? ==>
                p.outcome.slot == ip && Walking(t0, table[..], ip, at') && Target(disk0, k0, all, parent) == Some(at') && parent && last
      ensures p.Stop? && p.outcome.Found? ==> ip < NINODE == table.Length && table[ip].valid
      ensures p == Stop(NotFound) ==> Counts(t0, table[..], None) && Stays(t0, table[..]) && Target(disk0, k0, all, parent) == None
      ensures p.Go? ==> Walking(t0, table[..], p.next, at') && Accounts(t0, disk0, k0, all, parent, freed', at', names[1..])
      ensures p.Go? ==> Target(disk0, k0, all, parent) == Target(disk0, at', names[1..], parent) && !(parent && last)
    {
      hide At, Refs, TableInv, Counts, Target, Truncate, Step, Walking, Stays, AllUsed, AfterFreeing, Accounts, Frees, Loose, IsDir, Sofar, StuckAt, Trail;
      at', freed' := at, freed;
      ghost var t := Trail(disk0, k0, all, parent);
      SofarStuck(t0, disk0, disk, t, |all|, parent, at, names, freed);
      SofarLength(t0, disk0, t, |all|, parent, at, names, freed);
      TargetStep(disk0, at, names, parent);
      StepTruncated(disk0, at, names[0]);
      ghost var disk1 := disk;
      ghost var frees;
      p, frees := Advance(ip, name, last, parent, t0, at);
      if p == Stop(NoType) {
        return;
      }
      Unfreed(t0, disk0, disk1, freed, at, name);
      FreeOneMore(disk0, disk1, freed, at, frees, disk);
      freed' := if frees then freed + {at} else freed;
      if p == Stop(NoInodes) {
        NewNext(t0, disk0, t, |all|, parent, at, names, freed);
      }
      if p.Go? {
        at' := Step(disk0, at, names[0]).value;
        AccountsGo(t0, disk0, k0, all, parent, freed, at, names, at', frees);
        SofarGo(t0, disk0, t, |all|, parent, at, names, freed, at', frees);
      } else if !p.outcome.NoInodes? {
        AccountsStop(t0, disk0, k0, all, parent, freed, at, names, frees);
        SofarEnd(t0, disk0, t, |all|, parent, at, names, freed);
      }
    }

    /**
     namex, from the slot of the current directory or of a descriptor for a
     relative path. `at` is the inode the walk ends at and `freed` are the
     inodes it freed on the way. NoInodes is the panic of iget. NoType is that of
     ilock: it is the answer only if the walk is stuck at some position of its
     trail, and then no other answer but NoInodes is given. NoInodes needs a full
     table and an inode on the trail that nobody refers to.
     */
    method Namex(path: string, parent: bool, start: nat) returns (r: Outcome, name: string, ghost at: Key, ghost freed: set<Key>)
      requires Valid() && start < NINODE && table[start].ref > 0
      modifies table, `disk
      ensures AfterFreeing(old(disk), disk, freed)
      ensures r.NoInodes? ==> AllUsed(table[..]) && exists j: nat ::
                NewAt(old(table[..]), Trail(old(disk), Origin(path, old(table[start].key)), Components(path), parent), j)
      ensures r.NoType? ==>
                exists j: nat :: Stuck(old(table[..]), old(disk), Origin(path, old(table[start].key)), Components(path), parent, j)
      ensures r.Found? || r.NotFound? ==>
                forall j: nat :: !Stuck(old(table[..]), old(disk), Origin(path, old(table[start].key)), Components(path), parent, j)
      ensures r.Found? || r.NotFound? ==> Valid() && Stays(old(table[..]), table[..])
      ensures r.Found? || r.NotFound? ==>
                forall x :: x in freed <==> Frees(old(table[..]), old(disk), Origin(path, old(table[start].key)), Components(path), parent, x)
      ensures r.Found? ==> Target(old(disk), Origin(path, old(table[start].key)), Components(path), parent) == Some(at)
      ensures r.Found? && Components(path) == [] ==> at == if path != "" && path[0] == '/' then Key(ROOTDEV, ROOTINO) else old(table[start].key)
      ensures r.Found? ==> Has(table[..], r.slot, at) && Counts(old(table[..]), table[..], Some(at))
      ensures r.Found? && parent ==> r.slot < NINODE == table.Length && table[r.slot].valid
      ensures r.NotFound? ==> Target(old(disk), Origin(path, old(table[start].key)), Components(path), parent) == None
      ensures r.NotFound? ==> Counts(old(table[..]), table[..], None)
      ensures parent && r.Found? ==> Components(path) != [] && name == Truncate(Components(path)[|Components(path)| - 1])
    {
      hide At, Refs, TableInv, Counts, Target, Components, Truncate, Step, Walking, Stays, AllUsed, AfterFreeing, Accounts, Frees, Loose, IsDir, Sofar, StuckAt, Trail;
      ghost var t0, all, k0, disk0 := table[..], Components(path), Origin(path, table[start].key), disk;
      name, at, freed := "", k0, {};
      AccountsNone(t0, disk0, k0, all, parent);
      TargetEmpty(disk0, k0, parent);
      SofarStart(t0, disk0, k0, all, parent);
      var first := Begin(path, start);
      if first.None? {
        assert NewAt(t0, Trail(disk0, k0, all, parent), 0);
        return NoInodes, name, at, freed;
      }
      var ip: nat := first.value;
      WalkingFacts(t0, table[..], ip, at);
      var rest := path;
      while true
        invariant Valid() && Walking(t0, table[..], ip, at) && ip < NINODE && AfterFreeing(disk0, disk, freed)
        invariant Target(disk0, k0, all, parent) == Target(disk0, at, Components(rest), parent)
        invariant Accounts(t0, disk0, k0, all, parent, freed, at, Components(rest))
        invariant Sofar(t0, disk0, Trail(disk0, k0, all, parent), |all|, parent, at, Components(rest), freed)
        invariant |Components(rest)| <= |all| && Components(rest) == all[|all| - |Components(rest)|..]
        invariant all == [] ==> freed == {} && disk == disk0 && (table[ip].valid ==> Refs(t0, at) > 0)
        invariant parent && all != [] ==> Components(rest) != []
        decreases |Components(rest)|
      {
        ghost var names := Components(rest);
        var elem := SkipElem(rest);
        if elem.None? {
          break;
        }
        name, rest := elem.value.0, elem.value.1;
        var p;
        p, at, freed := Turn(ip, name, rest == "", parent, t0, disk0, k0, all, names, at, freed);
        if p.Stop? {
          r := p.outcome;
          if r.NoType? { assert Stuck(t0, disk0, k0, all, parent, |all| - |names|); }
          if r.Found? { WalkingFacts(t0, table[..], ip, at); }
          return;
        }
        ip := p.next;
        WalkingFacts(t0, table[..], ip, at);
      }
      TargetEnd(disk0, at, parent);
      WalkingFacts(t0, table[..], ip, at);
      AccountsEnd(t0, disk0, k0, all, parent, freed, at);
      SofarEnd(t0, disk0, Trail(disk0, k0, all, parent), |all|, parent, at, [], freed);
      if parent {
        CountsSame(table[..]);
        LooseRefs(t0, disk, at);
        var frees := Leave(ip, t0, table[..], None);
        return NotFound, name, at, freed;
      }
      return Found(ip), name, at, freed;
    }
  }

  /** A walk from k over the names panics at position j of its trail. */
  ghost predicate Stuck(t0: seq<Inode>, disk: Disk, k: Key, names: seq<string>, parent: bool, j: nat) {
    StuckAt(t0, disk, Trail(disk, k, names, parent), |names|, j)
  }

  /** No slot of the table is free. */
  predicate AllUsed(t: seq<Inode>) {
    forall i :: 0 <= i < |t| ==> t[i].ref > 0
  }

  datatype Progress = Stop(outcome: Outcome) | Go(next: nat)

  ghost function Origin(path: string, start: Key): Key {
    if path != "" && path[0] == '/' then Key(ROOTDEV, ROOTINO) else start
  }

  /** A walk that began in table t0 holds one reference, to inode k in slot ip. */
  ghost predicate Walking(t0: seq<Inode>, t: seq<Inode>, ip: nat, k: Key) {
    Has(t, ip, k) && Counts(t0, t, Some(k)) && Stays(t0, t)
  }

  lemma WalkingFacts(t0: seq<Inode>, t: seq<Inode>, ip: nat, k: Key)
    requires Walking(t0, t, ip, k)
    ensures Has(t, ip, k) && Counts(t0, t, Some(k)) && Stays(t0, t)
  {
  }

  lemma CountsFor(t0: seq<Inode>, t: seq<Inode>, extra: Option<Key>, k: Key)
    requires Counts(t0, t, extra)
    ensures Refs(t, k) == Refs(t0, k) + if extra == Some(k) then 1 else 0
  {
  }

  lemma StaysTrans(t0: seq<Inode>, t: seq<Inode>, t': seq<Inode>)
    requires Stays(t0, t) && Stays(t, t')
    ensures Stays(t0, t')
  {
  }

  lemma OneSlot(t: seq<Inode>, i: nat)
    requires TableInv(t) && i < |t| && t[i].ref > 0
    ensures forall j :: 0 <= j < |t| && j != i && t[j].ref > 0 ==> t[j].key != t[i].key
  {
    forall j | 0 <= j < |t| && j != i && t[j].ref > 0 ensures t[j].key != t[i].key {
      assert !Twins(t, i, j) && !Twins(t, j, i);
    }
  }

  lemma AtSet(disk: Disk, k: Key)
    ensures forall x :: At(disk[k := FREE_INODE], x) == if x == k then FREE_INODE else At(disk, x)
  {
    forall x ensures At(disk[k := FREE_INODE], x) == if x == k then FREE_INODE else At(disk, x) { }
  }

  /** Inode k is freed, or nothing is. */
  lemma FreeOneMore(disk0: Disk, disk: Disk, freed: set<Key>, k: Key, frees: bool, disk': Disk)
    requires AfterFreeing(disk0, disk, freed) && disk' == if frees then disk[k := FREE_INODE] else disk
    ensures AfterFreeing(disk0, disk', if frees then freed + {k} else freed)
  {
    hide At;
    AtSet(disk, k);
  }

  /** What a walk frees in all is what it freed so far and what the rest of it frees. */
  ghost predicate Accounts(t0: seq<Inode>, disk: Disk, k0: Key, all: seq<string>, parent: bool, freed: set<Key>, k: Key, names: seq<string>) {
    forall x :: Frees(t0, disk, k0, all, parent, x) <==> x in freed || Frees(t0, disk, k, names, parent, x)
  }

  lemma AccountsGo(t0: seq<Inode>, disk: Disk, k0: Key, all: seq<string>, parent: bool, freed: set<Key>, k: Key, names: seq<string>,
                   n: Key, frees: bool)
    requires Accounts(t0, disk, k0, all, parent, freed, k, names) && names != [] && !(parent && |names| == 1)
    requires Step(disk, k, names[0]) == Some(n) && (frees <==> Loose(t0, disk, k) && n != k)
    ensures Accounts(t0, disk, k0, all, parent, if frees then freed + {k} else freed, n, names[1..])
  {
    hide Frees, Step, Loose;
    forall x ensures Frees(t0, disk, k0, all, parent, x) <==>
                     x in (if frees then freed + {k} else freed) || Frees(t0, disk, n, names[1..], parent, x)
    {
      FreesStep(t0, disk, k, names, parent, x);
      FreesLoose(t0, disk, n, names[1..], parent, x);
    }
  }

  lemma FreesLoose(t0: seq<Inode>, disk: Disk, k: Key, names: seq<string>, parent: bool, x: Key)
    ensures Frees(t0, disk, k, names, parent, x) ==> Loose(t0, disk, x)
  {
  }

  lemma AccountsStop(t0: seq<Inode>, disk: Disk, k0: Key, all: seq<string>, parent: bool, freed: set<Key>, k: Key, names: seq<string>, frees: bool)
    requires Accounts(t0, disk, k0, all, parent, freed, k, names) && names != [] && Next(disk, k, names, parent).None?
    requires frees <==> Loose(t0, disk, k) && Target(disk, k, names, parent).None?
    ensures forall x :: Frees(t0, disk, k0, all, parent, x) <==> x in if frees then freed + {k} else freed
  {
    hide Frees, Next, Loose, Target;
    forall x ensures Frees(t0, disk, k0, all, parent, x) <==> x in if frees then freed + {k} else freed {
      FreesStep(t0, disk, k, names, parent, x);
    }
  }

  lemma AccountsEnd(t0: seq<Inode>, disk: Disk, k0: Key, all: seq<string>, parent: bool, freed: set<Key>, k: Key)
    requires Accounts(t0, disk, k0, all, parent, freed, k, [])
    ensures forall x :: Frees(t0, disk, k0, all, parent, x) <==> x in freed
  {
  }

  lemma AccountsNone(t0: seq<Inode>, disk: Disk, k0: Key, all: seq<string>, parent: bool)
    ensures Accounts(t0, disk, k0, all, parent, {}, k0, all) && AfterFreeing(disk, disk, {})
  {
  }

  /** An inode that can be locked is as it was before the walk. */
  lemma Unfreed(t0: seq<Inode>, disk0: Disk, disk: Disk, freed: set<Key>, k: Key, name: string)
    requires AfterFreeing(disk0, disk, freed) && At(disk, k).kind != Free
    ensures At(disk, k) == At(disk0, k) && (Loose(t0, disk, k) <==> Loose(t0, disk0, k))
    ensures (IsDir(disk, k) <==> IsDir(disk0, k)) && Step(disk, k, name) == Step(disk0, k, name)
    ensures !IsDir(disk0, k) ==> Step(disk0, k, name).None?
  {
  }

  /** Locking an inode changes no count. */
  lemma LockKeeps(t0: seq<Inode>, t: seq<Inode>, ip: nat, k: Key, t': seq<Inode>)
    requires TableInv(t) && Walking(t0, t, ip, k) && t' == t[ip := t[ip].(valid := true)]
    ensures Walking(t0, t', ip, k)
  {
    hide Refs, TableInv;
    forall x ensures Refs(t', x) == Refs(t, x) { ChangesRefs(t, ip, t[ip].(valid := true), t', x); }
  }

  lemma StepTruncated(disk: Disk, k: Key, name: string)
    ensures Step(disk, k, Truncate(name)) == Step(disk, k, name)
  {
    LookUpTruncated(At(disk, k).entries, name);
  }

  lemma TargetEnd(disk: Disk, k: Key, parent: bool)
    ensures Target(disk, k, [], parent) == if parent then None else Some(k)
  {
  }

  lemma LooseRefs(t0: seq<Inode>, disk: Disk, k: Key)
    ensures Loose(t0, disk, k) ==> Refs(t0, k) == 0
  {
  }

  // ----- removed directories -----

  const ROOT := Key(ROOTDEV, ROOTINO)

  /** A disk with a directory, inode 2, that has no link but still leads to the root, which may still list it as "a". */
  ghost predicate Removed(disk: Disk, listed: bool) {
    && At(disk, Key(ROOTDEV, 2)) == DiskInode(Dir, 0, [Dirent(2, "."), Dirent(ROOTINO, "..")])
    && At(disk, ROOT) == DiskInode(Dir, 1, if listed then [Dirent(2, "a")] else [])
  }

  /** The walk ".." from a removed current directory reaches the root and frees nothing. */
  lemma RemovedCwd(t0: seq<Inode>, disk: Disk, listed: bool)
    requires Removed(disk, listed) && Refs(t0, Key(ROOTDEV, 2)) > 0
    ensures Target(disk, Key(ROOTDEV, 2), [".."], false) == Some(ROOT)
    ensures forall x :: !Frees(t0, disk, Key(ROOTDEV, 2), [".."], false, x)
  {
    var d := Key(ROOTDEV, 2);
    var es := At(disk, d).entries;
    assert es[1..][0] == es[1];
    assert Find(es, "..") == Some(1);
    assert Step(disk, d, "..") == Some(ROOT);
    assert [".."][1..] == [];
    forall x ensures !Frees(t0, disk, d, [".."], false, x) { FreesStep(t0, disk, d, [".."], false, x); }
  }

  /** The walk "/a/.." through an unlinked directory nobody refers to frees it, and only it. */
  lemma UnlinkedFreed(t0: seq<Inode>, disk: Disk)
    requires Removed(disk, true) && Refs(t0, Key(ROOTDEV, 2)) == 0
    ensures Target(disk, ROOT, ["a", ".."], false) == Some(ROOT)
    ensures forall x :: Frees(t0, disk, ROOT, ["a", ".."], false, x) <==> x == Key(ROOTDEV, 2)
  {
    var d := Key(ROOTDEV, 2);
    var es := At(disk, d).entries;
    assert es[1..][0] == es[1];
    assert Find(es, "..") == Some(1);
    assert Find(At(disk, ROOT).entries, "a") == Some(0);
    assert Step(disk, ROOT, "a") == Some(d) && Step(disk, d, "..") == Some(ROOT);
    assert ["a", ".."][1..] == [".."] && [".."][1..] == [];
    assert !Loose(t0, disk, ROOT);
    forall x ensures Frees(t0, disk, ROOT, ["a", ".."], false, x) <==> x == d {
      FreesStep(t0, disk, ROOT, ["a", ".."], false, x);
      FreesStep(t0, disk, d, [".."], false, x);
    }
  }

  /** The walk "/a/../a/x" comes back to the inode it has freed, and panics there and nowhere before. */
  lemma FreedAgain(t0: seq<Inode>, disk: Disk)
    requires Removed(disk, true) && Refs(t0, Key(ROOTDEV, 2)) == 0
    ensures forall j: nat :: Stuck(t0, disk, ROOT, ["a", "..", "a", "x"], false, j) <==> j == 3
  {
    var d := Key(ROOTDEV, 2);
    var es := At(disk, d).entries;
    assert es[1..][0] == es[1] && es[1..][1..] == [];
    assert Find(es, "..") == Some(1) && Find(es, "x") == None;
    assert Find(At(disk, ROOT).entries, "a") == Some(0);
    assert Step(disk, ROOT, "a") == Some(d) && Step(disk, d, "..") == Some(ROOT) && Step(disk, d, "x") == None;
    var names := ["a", "..", "a", "x"];
    assert names[1..] == ["..", "a", "x"] && ["..", "a", "x"][1..] == ["a", "x"] && ["a", "x"][1..] == ["x"];
    var t := Trail(disk, ROOT, names, false);
    assert Trail(disk, d, ["x"], false) == [d];
    assert Trail(disk, ROOT, ["a", "x"], false) == [ROOT, d];
    assert t == [ROOT, d, ROOT, d];
    assert LeftFor(t, 1, d);
    assert !Loose(t0, disk, ROOT);
  }
}
