/**
 The buffer cache over a disk of sectors, and the request queue of the SD card.
 Each method of `Cache` is one step of a client between taking and giving up a
 lock; the flags and data of a busy buffer are touched by its holder only, so a
 run is any sequence of calls by any clients. `holder`, `touched`, `history`,
 `stamp` and `clock` record the run; no step reads them.
 */
module BufferCache {
  import opened Wrappers

  const NBUF: nat := 126
  const BLKSECT: nat := 8
  const PARTITIONS: nat := 4
  const FATMINOR: nat := 0
  const WRAP: nat := 0x1_0000_0000

  type Sector = seq<Byte>

  datatype Partition = Partition(lba: nat, nsecs: nat)

  datatype Buf = Buf(busy: bool, valid: bool, dirty: bool, dev: nat, blockno: nat, refcnt: nat, data: Option<seq<Sector>>)

  // ----- where blocks lie on the disk -----

  /** Sector 0 is the boot record; the partitions in use lie behind it and do not overlap. */
  ghost predicate Layout(pt: seq<Partition>, n: nat) {
    && |pt| == PARTITIONS && n <= WRAP
    && (forall d :: 0 <= d < |pt| && pt[d].nsecs > 0 ==> 1 <= pt[d].lba && pt[d].lba + pt[d].nsecs <= n)
    && (forall d, e :: 0 <= d < e < |pt| && pt[d].nsecs > 0 && pt[e].nsecs > 0 ==>
          pt[d].lba + pt[d].nsecs <= pt[e].lba || pt[e].lba + pt[e].nsecs <= pt[d].lba)
  }

  /** A card with a boot partition and a file system, whose other two table entries are unused. */
  lemma TwoPartitions(fat: Partition, fs: Partition, n: nat)
    requires 1 <= fat.lba && fat.lba + fat.nsecs <= fs.lba && fs.lba + fs.nsecs <= n <= WRAP
    ensures Layout([fat, fs, Partition(0, 0), Partition(0, 0)], n)
  {
  }

  /** Block bno of a partition lies inside it. */
  predicate Inside(pt: seq<Partition>, dev: nat, bno: nat) {
    dev < |pt| && BLKSECT * bno + BLKSECT <= pt[dev].nsecs
  }

  /** The sector number computed by bget, in 32-bit arithmetic. */
  function BlockNo(pt: seq<Partition>, dev: nat, bno: nat): nat
    requires dev < |pt|
  {
    (pt[dev].lba + (bno * BLKSECT) % WRAP) % WRAP
  }

  ghost predicate IsBlock(pt: seq<Partition>, dev: nat, blockno: nat) {
    && dev < |pt| && pt[dev].lba <= blockno && blockno + BLKSECT <= pt[dev].lba + pt[dev].nsecs
    && (blockno - pt[dev].lba) % BLKSECT == 0
  }

  /** Sectors that a request moves: a file-system block is eight. */
  ghost function Moved(dev: nat): nat {
    if dev == 0 then 1 else 8
  }

  lemma BlockInside(pt: seq<Partition>, n: nat, dev: nat, bno: nat)
    requires Layout(pt, n) && Inside(pt, dev, bno)
    ensures BlockNo(pt, dev, bno) == pt[dev].lba + bno * BLKSECT
    ensures IsBlock(pt, dev, BlockNo(pt, dev, bno)) && 0 < BlockNo(pt, dev, bno) && BlockNo(pt, dev, bno) + BLKSECT <= n
  {
    assert (bno * BLKSECT) % BLKSECT == 0;
  }

  lemma SameRemainder(a: int, b: int)
    requires a % BLKSECT == 0 && b % BLKSECT == 0 && a < b
    ensures a + BLKSECT <= b
  {
  }

  /** Different blocks share no sector. */
  lemma BlocksApart(pt: seq<Partition>, n: nat, d: nat, x: nat, e: nat, y: nat)
    requires Layout(pt, n) && IsBlock(pt, d, x) && IsBlock(pt, e, y) && (d != e || x != y)
    ensures x + BLKSECT <= y || y + BLKSECT <= x
  {
    if d == e {
      if x < y { SameRemainder(x - pt[d].lba, y - pt[d].lba); } else { SameRemainder(y - pt[d].lba, x - pt[d].lba); }
    }
  }

  function Slice(disk: seq<Sector>, at: nat, k: nat): (r: seq<Sector>)
    requires at + k <= |disk|
    ensures |r| == k && forall i :: 0 <= i < k ==> r[i] == disk[at + i]
  {
    disk[at..at + k]
  }

  function Splice(disk: seq<Sector>, at: nat, d: seq<Sector>): (r: seq<Sector>)
    requires at + |d| <= |disk|
    ensures |r| == |disk|
    ensures forall i :: 0 <= i < |r| ==> r[i] == if at <= i < at + |d| then d[i - at] else disk[i]
  {
    disk[..at] + d + disk[at + |d|..]
  }

  // ----- what was last written to a sector -----

  datatype Write = Write(at: nat, data: seq<Sector>)

  /** What a history of bwrite calls left in sector s of a disk that started as disk0. */
  ghost function LastWritten(disk0: seq<Sector>, history: seq<Write>, s: nat): Sector
    requires s < |disk0|
  {
    if history == [] then disk0[s]
    else
      var w := history[|history| - 1];
      if w.at <= s < w.at + |w.data| then w.data[s - w.at]
      else LastWritten(disk0, history[..|history| - 1], s)
  }

  /** Every sector is as the last bwrite to it left it. */
  ghost predicate DiskInv(pt: seq<Partition>, disk0: seq<Sector>, history: seq<Write>, disk: seq<Sector>) {
    && |disk| == |disk0| && Layout(pt, |disk|)
    && forall s :: 0 <= s < |disk| ==> disk[s] == LastWritten(disk0, history, s)
  }

  lemma WriteKeepsDisk(pt: seq<Partition>, disk0: seq<Sector>, history: seq<Write>, disk: seq<Sector>, w: Write, disk': seq<Sector>)
    requires DiskInv(pt, disk0, history, disk) && w.at + |w.data| <= |disk| && disk' == Splice(disk, w.at, w.data)
    ensures DiskInv(pt, disk0, history + [w], disk')
  {
    assert (history + [w])[..|history|] == history;
  }

  // ----- the buffers -----

  ghost predicate Assigned(b: Buf) {
    b.blockno != 0
  }

  ghost predicate SameKey(a: Buf, b: Buf) {
    a.dev == b.dev && a.blockno == b.blockno
  }

  ghost predicate Shape(pt: seq<Partition>, b: Buf) {
    && !b.dirty
    && b.refcnt == (if b.busy then 1 else 0)
    && (!Assigned(b) ==> !b.busy && !b.valid && b.data.None?)
    && (Assigned(b) ==> IsBlock(pt, b.dev, b.blockno) && b.data.Some? && |b.data.value| == BLKSECT)
  }

  /** The buffer holds the sectors of its block: the first one on the boot partition, all eight elsewhere. */
  ghost predicate Agrees(b: Buf, disk: seq<Sector>) {
    && b.data.Some? && |b.data.value| == 8 && b.blockno + 8 <= |disk|
    && b.data.value[0] == disk[b.blockno]
    && (b.dev != 0 ==> forall j :: 0 <= j < 8 ==> b.data.value[j] == disk[b.blockno + j])
  }

  ghost predicate BufOk(pt: seq<Partition>, disk: seq<Sector>, b: Buf, held: bool, touched: bool) {
    && Shape(pt, b)
    && (held <==> b.busy)
    && (touched ==> b.busy && b.valid)
    && (b.valid && !touched ==> Agrees(b, disk))
  }

  ghost predicate Unique(bufs: seq<Buf>) {
    forall i, j :: 0 <= i < j < |bufs| && Assigned(bufs[i]) && Assigned(bufs[j]) ==> !SameKey(bufs[i], bufs[j])
  }

  ghost predicate BufsInv(pt: seq<Partition>, disk: seq<Sector>, bufs: seq<Buf>, holder: map<nat, nat>, touched: set<nat>) {
    && (forall i: nat :: i < |bufs| ==> BufOk(pt, disk, bufs[i], i in holder, i in touched))
    && Unique(bufs)
    && (forall i :: i in holder ==> i < |bufs|)
  }

  lemma AtBuf(pt: seq<Partition>, disk: seq<Sector>, bufs: seq<Buf>, holder: map<nat, nat>, touched: set<nat>, i: nat)
    requires BufsInv(pt, disk, bufs, holder, touched)
    ensures i < |bufs| ==> BufOk(pt, disk, bufs[i], i in holder, i in touched)
    ensures i in holder ==> i < |bufs|
  {
  }

  /** One buffer changes and keeps its key, or takes a key no other buffer has. */
  lemma SetBuf(pt: seq<Partition>, disk: seq<Sector>, bufs: seq<Buf>, holder: map<nat, nat>, touched: set<nat>, b: nat, v: Buf,
               holder': map<nat, nat>, touched': set<nat>)
    requires BufsInv(pt, disk, bufs, holder, touched) && b < |bufs| && BufOk(pt, disk, v, b in holder', b in touched')
    requires SameKey(v, bufs[b]) || forall i: nat :: i < |bufs| && i != b ==> !SameKey(v, bufs[i])
    requires holder' - {b} == holder - {b} && touched' - {b} == touched - {b}
    ensures BufsInv(pt, disk, bufs[b := v], holder', touched')
  {
    hide BufOk;
    forall i: nat | i < |bufs| ensures BufOk(pt, disk, bufs[b := v][i], i in holder', i in touched') {
      assert i != b ==> (i in holder' <==> i in holder' - {b}) && (i in touched' <==> i in touched' - {b});
      assert i != b ==> (i in holder <==> i in holder - {b}) && (i in touched <==> i in touched - {b});
    }
    forall i | i in holder' ensures i < |bufs| {
      assert i != b ==> i in holder' - {b};
    }
  }

  /** A write to the block of buffer b leaves every other buffer in agreement. */
  lemma DiskChanges(pt: seq<Partition>, disk: seq<Sector>, bufs: seq<Buf>, holder: map<nat, nat>, touched: set<nat>, b: nat,
                    d: seq<Sector>, disk': seq<Sector>, i: nat)
    requires BufsInv(pt, disk, bufs, holder, touched) && b < |bufs| && Assigned(bufs[b]) && i < |bufs| && i != b
    requires Layout(pt, |disk|) && |d| <= BLKSECT && bufs[b].blockno + |d| <= |disk|
    requires disk' == Splice(disk, bufs[b].blockno, d)
    ensures BufOk(pt, disk', bufs[i], i in holder, i in touched)
  {
    var x, y := bufs[i], bufs[b];
    assert BufOk(pt, disk, x, i in holder, i in touched) && BufOk(pt, disk, y, b in holder, b in touched);
    if x.valid && i !in touched {
      assert Assigned(x);
      assert !SameKey(x, y) by { if i < b { assert !SameKey(bufs[i], bufs[b]); } else { assert !SameKey(bufs[b], bufs[i]); } }
      BlocksApart(pt, |disk|, x.dev, x.blockno, y.dev, y.blockno);
      forall j | 0 <= j < 8 ensures x.data.value[j] == disk'[x.blockno + j] || x.dev == 0 {
        assert disk'[x.blockno + j] == disk[x.blockno + j];
      }
    }
  }

  /** bwrite as a whole: the block goes to the disk and the buffer is clean again. */
  lemma WrittenBack(pt: seq<Partition>, disk: seq<Sector>, bufs: seq<Buf>, holder: map<nat, nat>, touched: set<nat>, b: nat,
                    v: Buf, disk': seq<Sector>)
    requires BufsInv(pt, disk, bufs, holder, touched) && b in holder && b < |bufs| && Layout(pt, |disk|)
    requires v == bufs[b].(valid := true) && v.data.Some? && |v.data.value| == BLKSECT && v.blockno + BLKSECT <= |disk|
    requires disk' == Splice(disk, v.blockno, v.data.value[..Moved(v.dev)])
    ensures BufsInv(pt, disk', bufs[b := v], holder, touched - {b})
  {
    assert BufOk(pt, disk, bufs[b], b in holder, b in touched);
    assert Agrees(v, disk');
    forall i: nat | i < |bufs| ensures BufOk(pt, disk', bufs[b := v][i], i in holder, i in touched - {b}) {
      if i != b { DiskChanges(pt, disk, bufs, holder, touched, b, v.data.value[..Moved(v.dev)], disk', i); }
    }
    hide BufOk;
    assert Unique(bufs[b := v]);
  }

  // ----- the list of all buffers, in order of release -----

  ghost predicate Listed(order: seq<nat>, b: nat) {
    exists k :: 0 <= k < |order| && order[k] == b
  }

  ghost predicate ListInv(order: seq<nat>, stamp: map<nat, nat>, clock: nat) {
    && |order| == NBUF
    && (forall k :: 0 <= k < |order| ==> order[k] < NBUF && order[k] in stamp && stamp[order[k]] < clock)
    && (forall j, k :: 0 <= j < k < |order| && order[j] in stamp && order[k] in stamp ==> stamp[order[j]] < stamp[order[k]])
    && (forall b: nat :: b < NBUF ==> Listed(order, b))
  }

  function ToBack(order: seq<nat>, k: nat): (r: seq<nat>)
    requires k < |order|
    ensures |r| == |order| && r[|r| - 1] == order[k]
    ensures forall i :: 0 <= i < |r| - 1 ==> r[i] == order[if i < k then i else i + 1]
  {
    order[..k] + order[k + 1..] + [order[k]]
  }

  /** The place of a buffer in the list, which its own links give. */
  function PlaceOf(order: seq<nat>, b: nat): (k: nat)
    requires b in order
    ensures k < |order| && order[k] == b
  {
    if order[0] == b then 0 else 1 + PlaceOf(order[1..], b)
  }

  lemma ListHas(order: seq<nat>, stamp: map<nat, nat>, clock: nat, b: nat)
    requires ListInv(order, stamp, clock) && b < NBUF
    ensures b in order
  {
    assert Listed(order, b);
  }

  lemma ReleasedLast(order: seq<nat>, stamp: map<nat, nat>, clock: nat, k: nat, b: nat)
    requires ListInv(order, stamp, clock) && k < |order| && order[k] == b
    ensures ListInv(ToBack(order, k), stamp[b := clock], clock + 1)
  {
    hide ToBack;
    var order', stamp' := ToBack(order, k), stamp[b := clock];
    forall i | 0 <= i < |order| ensures i != k ==> order[i] != b { }
    forall a: nat | a < NBUF ensures Listed(order', a) {
      assert Listed(order, a);
      var i :| 0 <= i < |order| && order[i] == a;
      assert order'[if i == k then |order| - 1 else if i < k then i else i - 1] == a;
    }
  }

  // ----- clients asleep in bget -----

  ghost predicate SleepInv(asleep: map<nat, nat>, bufs: seq<Buf>) {
    forall c :: c in asleep ==> asleep[c] < |bufs| && bufs[asleep[c]].busy
  }

  lemma FallsAsleep(asleep: map<nat, nat>, bufs: seq<Buf>, c: nat, b: nat)
    requires SleepInv(asleep, bufs) && b < |bufs| && bufs[b].busy
    ensures SleepInv(asleep[c := b], bufs)
  {
  }

  function Wakeup(asleep: map<nat, nat>, b: nat): map<nat, nat> {
    map c | c in asleep && asleep[c] != b :: asleep[c]
  }

  /** A client takes a buffer nobody holds: one that has the key, or one given the key no buffer has. */
  lemma TakeKeeps(pt: seq<Partition>, disk: seq<Sector>, bufs: seq<Buf>, holder: map<nat, nat>, touched: set<nat>, asleep: map<nat, nat>,
                  b: nat, v: Buf, c: nat)
    requires BufsInv(pt, disk, bufs, holder, touched) && SleepInv(asleep, bufs) && b < |bufs| && !bufs[b].busy
    requires
      || (Assigned(bufs[b]) && v == bufs[b].(busy := true, refcnt := bufs[b].refcnt + 1))
      || (&& !Taken(bufs, v.dev, v.blockno) && Shape(pt, v) && v.busy && !v.valid)
    ensures b !in holder && v.refcnt == 1
    ensures BufsInv(pt, disk, bufs[b := v], holder[b := c], touched) && SleepInv(asleep, bufs[b := v])
  {
    AtBuf(pt, disk, bufs, holder, touched, b);
    assert BufOk(pt, disk, v, true, b in touched);
    hide BufOk;
    SetBuf(pt, disk, bufs, holder, touched, b, v, holder[b := c], touched);
  }

  lemma IdleShape(pt: seq<Partition>, disk: seq<Sector>, bufs: seq<Buf>, holder: map<nat, nat>, touched: set<nat>, b: nat)
    requires BufsInv(pt, disk, bufs, holder, touched) && b < |bufs|
    ensures bufs[b].busy <==> b in holder
    ensures !bufs[b].dirty
    ensures Assigned(bufs[b]) ==> bufs[b].data.Some? && IsBlock(pt, bufs[b].dev, bufs[b].blockno)
    ensures bufs[b].busy ==> Assigned(bufs[b])
    ensures bufs[b].refcnt == if bufs[b].busy then 1 else 0
    ensures bufs[b].data.None? || |bufs[b].data.value| == BLKSECT
  {
    assert BufOk(pt, disk, bufs[b], b in holder, b in touched);
  }

  // ----- the request queue -----

  datatype Device = Device(bufs: seq<Buf>, disk: seq<Sector>)

  ghost predicate CanRun(bufs: seq<Buf>, n: nat, b: nat) {
    b < |bufs| && bufs[b].data.Some? && |bufs[b].data.value| == BLKSECT && bufs[b].blockno + BLKSECT <= n
  }

  /** One request: a dirty buffer goes to the disk, another is filled from it. */
  ghost function RunOne(d: Device, b: nat): (r: Device)
    requires CanRun(d.bufs, |d.disk|, b)
    ensures |r.bufs| == |d.bufs| && |r.disk| == |d.disk| && forall c :: CanRun(d.bufs, |d.disk|, c) ==> CanRun(r.bufs, |d.disk|, c)
  {
    var x := d.bufs[b];
    var k := Moved(x.dev);
    if x.dirty then
      Device(d.bufs[b := x.(valid := true, dirty := false)], Splice(d.disk, x.blockno, x.data.value[..k]))
    else
      Device(d.bufs[b := x.(valid := true, data := Some(Slice(d.disk, x.blockno, k) + x.data.value[k..]))], d.disk)
  }

  ghost function RunAll(d: Device, queue: seq<nat>): Device
    requires forall b :: b in queue ==> CanRun(d.bufs, |d.disk|, b)
    decreases |queue|
  {
    if queue == [] then d else RunAll(RunOne(d, queue[0]), queue[1..])
  }

  lemma RunSingle(d: Device, b: nat)
    requires CanRun(d.bufs, |d.disk|, b)
    ensures RunAll(d, [b]) == RunOne(d, b)
  {
    assert [b][1..] == [];
  }

  datatype Outcome = Got(b: nat) | Slept(b: nat) | NoBuffers

  class Cache {
    const pt: seq<Partition>
    const bufs: array<Buf>
    var order: seq<nat>
    var queue: seq<nat>
    var disk: seq<Sector>
    var asleep: map<nat, nat>
    ghost const disk0: seq<Sector>
    /** The client holding each busy buffer. */
    ghost var holder: map<nat, nat>
    /** Buffers changed since they were last read or written. */
    ghost var touched: set<nat>
    /** All bwrite calls so far. */
    ghost var history: seq<Write>
    /** When each buffer was last released. */
    ghost var stamp: map<nat, nat>
    ghost var clock: nat

    /** What holds whenever bcache.lock and sdlock are free. */
    ghost predicate Valid()
      reads this, bufs
    {
      && bufs.Length == NBUF && queue == []
      && DiskInv(pt, disk0, history, disk)
      && BufsInv(pt, disk, bufs[..], holder, touched)
      && ListInv(order, stamp, clock)
      && SleepInv(asleep, bufs[..])
    }

    constructor (pt: seq<Partition>, disk: seq<Sector>)
      requires Layout(pt, |disk|)
      ensures Valid() && fresh(bufs) && this.pt == pt && this.disk == disk && disk0 == disk && history == []
      ensures holder == map[] && touched == {} && asleep == map[]
      ensures forall b: nat :: b < NBUF ==> bufs[b] == Buf(false, false, false, 0, 0, 0, None)
    {
      this.pt, this.disk, disk0 := pt, disk, disk;
      var a := new Buf[NBUF](_ => Buf(false, false, false, 0, 0, 0, None));
      bufs := a;
      var all := seq(NBUF, i requires 0 <= i < NBUF => i);
      order := all;
      queue, asleep := [], map[];
      holder, touched, history, clock := map[], {}, [], NBUF;
      stamp := map b | b in all :: b;
      new;
      forall b: nat | b < NBUF ensures Listed(order, b) { assert order[b] == b; }
    }

    /** bget: the first scan, for a buffer that already has the key. */
    method Lookup(dev: nat, blockno: nat) returns (r: Option<nat>)
      requires Valid() && blockno != 0
      ensures r.Some? ==> r.value < NBUF && bufs[r.value].dev == dev && bufs[r.value].blockno == blockno
      ensures r.None? ==> forall i: nat :: i < NBUF ==> !(bufs[i].dev == dev && bufs[i].blockno == blockno)
    {
      hide DiskInv, BufsInv, SleepInv;
      var k := 0;
      while k < |order|
        invariant 0 <= k <= |order|
        invariant forall j :: 0 <= j < k ==> !(bufs[order[j]].dev == dev && bufs[order[j]].blockno == blockno)
      {
        var b := order[k];
        if bufs[b].dev == dev && bufs[b].blockno == blockno {
          return Some(b);
        }
        k := k + 1;
      }
      forall i: nat | i < NBUF ensures !(bufs[i].dev == dev && bufs[i].blockno == blockno) { assert Listed(order, i); }
      r := None;
    }

    /** bget: the second scan, from the back, for a buffer to recycle. */
    method Victim() returns (r: Option<nat>)
      requires Valid()
      ensures r.Some? ==> r.value < NBUF && !bufs[r.value].busy && r.value in stamp
      ensures r.Some? ==> forall i: nat :: i < NBUF && !bufs[i].busy ==> i in stamp && stamp[i] <= stamp[r.value]
      ensures r.None? <==> forall i: nat :: i < NBUF ==> bufs[i].busy
    {
      hide DiskInv, SleepInv, Unique, Agrees;
      var k := |order|;
      while k > 0
        invariant 0 <= k <= |order|
        invariant forall j :: k <= j < |order| ==> bufs[order[j]].busy
      {
        k := k - 1;
        var b := order[k];
        AtBuf(pt, disk, bufs[..], holder, touched, b);
        if !bufs[b].busy && !bufs[b].dirty {
          forall i: nat | i < NBUF && !bufs[i].busy ensures i in stamp && stamp[i] <= stamp[b] { assert Listed(order, i); }
          return Some(b);
        }
      }
      forall i: nat | i < NBUF ensures bufs[i].busy { assert Listed(order, i); }
      r := None;
    }

    /**
     bget, up to its return or its sleep. A woken client calls it again, which
     is the jump back to the first scan.
     */
    method Bget(c: nat, dev: nat, bno: nat) returns (r: Outcome)
      requires Valid() && Inside(pt, dev, bno) && c !in asleep
      modifies bufs, `asleep, `holder
      ensures Valid()
      ensures !r.NoBuffers? ==> r.b < NBUF && bufs[r.b].dev == dev && bufs[r.b].blockno == BlockNo(pt, dev, bno)
      ensures dev < |pt| && BlockNo(pt, dev, bno) == pt[dev].lba + 8 * bno
      ensures r.Got? ==> r.b !in old(holder) && holder == old(holder)[r.b := c] && asleep == old(asleep)
      ensures r.Got? ==> bufs[..] == old(bufs[..])[r.b := bufs[r.b]]
      ensures r.Got? && Taken(old(bufs[..]), dev, BlockNo(pt, dev, bno)) ==>
                bufs[r.b] == old(bufs[r.b]).(busy := true, refcnt := 1)
      ensures r.Got? && !Taken(old(bufs[..]), dev, BlockNo(pt, dev, bno)) ==>
                Newest(old(bufs[..]), stamp, r.b) && Recycled(old(bufs[r.b]), bufs[r.b])
      ensures r.Slept? ==> r.b in holder && asleep == old(asleep)[c := r.b]
      ensures r.NoBuffers? ==> asleep == old(asleep) && AllBusy(bufs[..]) && !Taken(bufs[..], dev, BlockNo(pt, dev, bno))
      ensures !r.Got? ==> holder == old(holder) && bufs[..] == old(bufs[..])
    {
      hide DiskInv, ListInv, BufsInv, SleepInv;
      var blockno := BlockNo(pt, dev, bno);
      BlockOnDisk(dev, bno);
      ghost var bufs0 := bufs[..];
      var hit := Lookup(dev, blockno);
      if hit.Some? {
        var b := hit.value;
        assert bufs0[b].dev == dev && bufs0[b].blockno == blockno;
        IdleShape(pt, disk, bufs[..], holder, touched, b);
        if bufs[b].busy {
          FallsAsleep(asleep, bufs[..], c, b);
          asleep := asleep[c := b];
          return Slept(b);
        }
        var v := bufs[b].(busy := true, refcnt := bufs[b].refcnt + 1);
        TakeKeeps(pt, disk, bufs[..], holder, touched, asleep, b, v, c);
        bufs[b] := v;
        holder := holder[b := c];
        assert bufs[..] == bufs0[b := v];
        return Got(b);
      }
      assert !Taken(bufs0, dev, blockno);
      var victim := Victim();
      if victim.None? {
        return NoBuffers;
      }
      var b := victim.value;
      IdleShape(pt, disk, bufs[..], holder, touched, b);
      var d := if bufs[b].data.None? then Some(seq(BLKSECT, _ => [])) else bufs[b].data;
      var v := Buf(true, false, false, dev, blockno, 1, d);
      TakeKeeps(pt, disk, bufs[..], holder, touched, asleep, b, v, c);
      bufs[b] := v;
      holder := holder[b := c];
      assert bufs[..] == bufs0[b := v];
      r := Got(b);
    }

    lemma BlockOnDisk(dev: nat, bno: nat)
      requires Valid() && Inside(pt, dev, bno)
      ensures IsBlock(pt, dev, BlockNo(pt, dev, bno)) && BlockNo(pt, dev, bno) != 0
      ensures BlockNo(pt, dev, bno) == pt[dev].lba + 8 * bno
    {
      BlockInside(pt, |disk|, dev, bno);
    }

    /** sd_start: serves requests until the queue is empty. */
    method SdStart()
      requires bufs.Length == NBUF && forall b :: b in queue ==> CanRun(bufs[..], |disk|, b)
      modifies bufs, `disk, `queue, `asleep
      ensures queue == [] && Device(bufs[..], disk) == RunAll(Device(old(bufs[..]), old(disk)), old(queue))
      ensures asleep == WakeAll(old(asleep), old(queue))
    {
      while queue != []
        invariant forall b :: b in queue ==> CanRun(bufs[..], |disk|, b)
        invariant RunAll(Device(bufs[..], disk), queue) == RunAll(Device(old(bufs[..]), old(disk)), old(queue))
        invariant WakeAll(asleep, queue) == WakeAll(old(asleep), old(queue))
        decreases |queue|
      {
        var b := queue[0];
        ghost var d := Device(bufs[..], disk);
        ghost var d' := RunOne(d, b);
        var k := if bufs[b].dev == FATMINOR then 1 else BLKSECT;
        if bufs[b].dirty {
          disk := Splice(disk, bufs[b].blockno, bufs[b].data.value[..k]);
        } else {
          bufs[b] := bufs[b].(data := Some(Slice(disk, bufs[b].blockno, k) + bufs[b].data.value[k..]));
        }
        bufs[b] := bufs[b].(valid := true, dirty := false);
        assert bufs[..] == d'.bufs;
        queue := queue[1..];
        asleep := Wakeup(asleep, b);
      }
    }

    /** sd_rw. `slept` tells whether the wait loop would have slept: it never does. */
    method SdRw(b: nat) returns (slept: bool)
      requires bufs.Length == NBUF && queue == [] && CanRun(bufs[..], |disk|, b)
      modifies bufs, `disk, `queue, `asleep
      ensures !slept && queue == [] && Device(bufs[..], disk) == RunOne(Device(old(bufs[..]), old(disk)), b)
      ensures asleep == Wakeup(old(asleep), b)
    {
      RunSingle(Device(bufs[..], disk), b);
      queue := queue + [b];
      assert queue == [b];
      if queue[0] == b {
        SdStart();
      }
      assert bufs[b] == bufs[..][b];
      slept := !(bufs[b].valid && !bufs[b].dirty);
    }

    /** The rest of bread: the holder of b reads the block if the buffer does not have it yet. */
    method Fill(c: nat, b: nat)
      requires Valid() && b in holder && holder[b] == c && b !in touched
      modifies bufs, `disk, `queue, `asleep
      ensures Valid() && disk == old(disk) && b < NBUF && bufs[..] == old(bufs[..])[b := bufs[b]]
      ensures bufs[b].valid && SameKey(bufs[b], old(bufs[b])) && HasLast(bufs[b], disk0, history)
      ensures old(bufs[b]).valid ==> bufs[b] == old(bufs[b])
      ensures asleep == if old(bufs[b]).valid then old(asleep) else Wakeup(old(asleep), b)
    {
      hide DiskInv, ListInv, BufsInv, SleepInv;
      AtBuf(pt, disk, bufs[..], holder, touched, b);
      IdleShape(pt, disk, bufs[..], holder, touched, b);
      ghost var bufs0, asleep0 := bufs[..], asleep;
      OnDisk(pt, disk0, history, disk, bufs[b]);
      if !bufs[b].valid {
        FillKeeps(pt, disk, bufs[..], holder, touched, asleep, b);
        var slept := SdRw(b);
        assert !slept;
        assert bufs[b] == bufs[..][b];
      }
      AtBuf(pt, disk, bufs[..], holder, touched, b);
      AgreesLast(pt, disk0, history, disk, bufs[b]);
      assert bufs[..] == bufs0[b := bufs[b]];
    }

    /** The holder of a filled buffer changes its data. */
    method Update(c: nat, b: nat, data: seq<Sector>)
      requires Valid() && b in holder && holder[b] == c && b < NBUF && bufs[b].valid && |data| == BLKSECT
      modifies bufs, `touched
      ensures Valid() && bufs[..] == old(bufs[..])[b := old(bufs[b]).(data := Some(data))] && touched == old(touched) + {b}
    {
      hide DiskInv, ListInv, BufsInv, SleepInv;
      ghost var bufs0 := bufs[..];
      UpdateKeeps(pt, disk, bufs[..], holder, touched, asleep, b, data);
      bufs[b] := bufs[b].(data := Some(data));
      touched := touched + {b};
      assert bufs[..] == bufs0[b := bufs[b]];
    }

    /** bwrite by the holder: the block on the disk becomes the data of the buffer. */
    method Bwrite(c: nat, b: nat)
      requires Valid() && b in holder && holder[b] == c
      modifies bufs, `disk, `queue, `asleep, `touched, `history
      ensures Valid() && b < NBUF && bufs[..] == old(bufs[..])[b := bufs[b]] && touched == old(touched) - {b}
      ensures bufs[b] == old(bufs[b]).(valid := true) && bufs[b].data.Some? && |bufs[b].data.value| == BLKSECT
      ensures |disk| == |old(disk)| && bufs[b].blockno + 8 <= |disk| && HasLast(bufs[b], disk0, history)
      ensures asleep == Wakeup(old(asleep), b)
      ensures forall j :: 0 <= j < |disk| && !(bufs[b].blockno <= j < bufs[b].blockno + 8) ==> disk[j] == old(disk)[j]
      ensures disk[bufs[b].blockno] == bufs[b].data.value[0]
      ensures forall j :: 0 < j < 8 ==>
                disk[bufs[b].blockno + j] == if bufs[b].dev == 0 then old(disk)[bufs[b].blockno + j] else bufs[b].data.value[j]
      ensures history == old(history) + [Write(bufs[b].blockno, bufs[b].data.value[..Moved(bufs[b].dev)])]
    {
      hide DiskInv, ListInv, BufsInv, SleepInv;
      AtBuf(pt, disk, bufs[..], holder, touched, b);
      IdleShape(pt, disk, bufs[..], holder, touched, b);
      OnDisk(pt, disk0, history, disk, bufs[b]);
      ghost var bufs0, x, w := bufs[..], bufs[b], Write(bufs[b].blockno, bufs[b].data.value[..Moved(bufs[b].dev)]);
      WriteKeepsDisk(pt, disk0, history, disk, w, Splice(disk, w.at, w.data));
      BwriteKeeps(pt, disk, bufs[..], holder, touched, asleep, b, x.(valid := true), Splice(disk, w.at, w.data));
      bufs[b] := bufs[b].(dirty := true);
      assert bufs[..] == bufs0[b := bufs[b]];
      var slept := SdRw(b);
      assert !slept;
      assert bufs[..] == bufs0[b := x.(valid := true)];
      assert bufs[b] == bufs[..][b];
      history, touched := history + [w], touched - {b};
      AtBuf(pt, disk, bufs[..], holder, touched, b);
      AgreesLast(pt, disk0, history, disk, bufs[b]);
    }

    /** brelse by the holder, who has written back every change. */
    method Brelse(c: nat, b: nat)
      requires Valid() && b in holder && holder[b] == c && b !in touched
      modifies bufs, `order, `asleep, `holder, `stamp, `clock
      ensures Valid() && b < NBUF && bufs[..] == old(bufs[..])[b := old(bufs[b]).(busy := false, refcnt := 0)]
      ensures holder == old(holder) - {b}
      ensures forall a :: a in asleep <==> a in old(asleep) && old(asleep)[a] != b
      ensures forall a :: a in asleep ==> asleep[a] == old(asleep)[a]
      ensures stamp == old(stamp)[b := old(clock)] && clock == old(clock) + 1
    {
      hide DiskInv, ListInv, BufsInv, SleepInv, ToBack, PlaceOf, Agrees;
      AtBuf(pt, disk, bufs[..], holder, touched, b);
      IdleShape(pt, disk, bufs[..], holder, touched, b);
      ghost var bufs0 := bufs[..];
      ListHas(order, stamp, clock, b);
      var k := PlaceOf(order, b);
      ReleasedLast(order, stamp, clock, k, b);
      ReleaseKeeps(pt, disk, bufs[..], holder, touched, asleep, b);
      order := ToBack(order, k);
      stamp, clock := stamp[b := clock], clock + 1;
      bufs[b] := bufs[b].(refcnt := bufs[b].refcnt - 1);
      bufs[b] := bufs[b].(busy := false);
      asleep := Wakeup(asleep, b);
      holder := holder - {b};
      assert bufs[..] == bufs0[b := bufs[b]];
    }
  }

  /** Some buffer has the key. */
  ghost predicate Taken(bufs: seq<Buf>, dev: nat, blockno: nat) {
    exists i :: 0 <= i < |bufs| && bufs[i].dev == dev && bufs[i].blockno == blockno
  }

  /** A buffer for another block: held once, not valid, its memory kept. */
  ghost predicate Recycled(x: Buf, y: Buf) {
    y.busy && !y.valid && !y.dirty && y.refcnt == 1 && (x.data.Some? ==> y.data == x.data)
  }

  ghost predicate AllBusy(bufs: seq<Buf>) {
    forall i :: 0 <= i < |bufs| ==> bufs[i].busy
  }

  /** Of the buffers nobody holds, b was released last. */
  ghost predicate Newest(bufs: seq<Buf>, stamp: map<nat, nat>, b: nat) {
    b < |bufs| && !bufs[b].busy && b in stamp && forall i: nat :: i < |bufs| && !bufs[i].busy ==> i in stamp && stamp[i] <= stamp[b]
  }

  function WakeAll(asleep: map<nat, nat>, queue: seq<nat>): map<nat, nat> {
    if queue == [] then asleep else WakeAll(Wakeup(asleep, queue[0]), queue[1..])
  }

  /** The buffer holds what was last written to its block. */
  ghost predicate HasLast(b: Buf, disk0: seq<Sector>, history: seq<Write>) {
    && b.data.Some? && |b.data.value| == 8 && b.blockno + 8 <= |disk0|
    && b.data.value[0] == LastWritten(disk0, history, b.blockno)
    && (b.dev != 0 ==> forall j :: 0 <= j < 8 ==> b.data.value[j] == LastWritten(disk0, history, b.blockno + j))
  }

  lemma OnDisk(pt: seq<Partition>, disk0: seq<Sector>, history: seq<Write>, disk: seq<Sector>, b: Buf)
    requires DiskInv(pt, disk0, history, disk) && IsBlock(pt, b.dev, b.blockno)
    ensures b.blockno + BLKSECT <= |disk| && Layout(pt, |disk|)
  {
  }

  lemma AgreesLast(pt: seq<Partition>, disk0: seq<Sector>, history: seq<Write>, disk: seq<Sector>, b: Buf)
    requires DiskInv(pt, disk0, history, disk) && IsBlock(pt, b.dev, b.blockno) && Agrees(b, disk)
    ensures HasLast(b, disk0, history)
  {
  }

  lemma WokenSleep(asleep: map<nat, nat>, bufs: seq<Buf>, b: nat, v: Buf)
    requires SleepInv(asleep, bufs) && b < |bufs|
    ensures SleepInv(Wakeup(asleep, b), bufs[b := v])
  {
  }

  lemma FillKeeps(pt: seq<Partition>, disk: seq<Sector>, bufs: seq<Buf>, holder: map<nat, nat>, touched: set<nat>, asleep: map<nat, nat>, b: nat)
    requires BufsInv(pt, disk, bufs, holder, touched) && SleepInv(asleep, bufs) && b in holder && b !in touched
    requires CanRun(bufs, |disk|, b)
    ensures var d := RunOne(Device(bufs, disk), b);
            && d.disk == disk && BufsInv(pt, disk, d.bufs, holder, touched) && SleepInv(Wakeup(asleep, b), d.bufs)
            && d.bufs == bufs[b := d.bufs[b]] && SameKey(d.bufs[b], bufs[b])
  {
    AtBuf(pt, disk, bufs, holder, touched, b);
    var d := RunOne(Device(bufs, disk), b);
    var v := d.bufs[b];
    assert BufOk(pt, disk, v, b in holder, b in touched);
    hide BufOk;
    SetBuf(pt, disk, bufs, holder, touched, b, v, holder, touched);
    WokenSleep(asleep, bufs, b, v);
  }

  lemma UpdateKeeps(pt: seq<Partition>, disk: seq<Sector>, bufs: seq<Buf>, holder: map<nat, nat>, touched: set<nat>, asleep: map<nat, nat>,
                    b: nat, data: seq<Sector>)
    requires BufsInv(pt, disk, bufs, holder, touched) && SleepInv(asleep, bufs) && b in holder && b < |bufs| && bufs[b].valid
    requires |data| == BLKSECT
    ensures var bufs' := bufs[b := bufs[b].(data := Some(data))];
            BufsInv(pt, disk, bufs', holder, touched + {b}) && SleepInv(asleep, bufs')
  {
    AtBuf(pt, disk, bufs, holder, touched, b);
    var v := bufs[b].(data := Some(data));
    assert BufOk(pt, disk, v, b in holder, true);
    hide BufOk;
    SetBuf(pt, disk, bufs, holder, touched, b, v, holder, touched + {b});
  }

  lemma BwriteKeeps(pt: seq<Partition>, disk: seq<Sector>, bufs: seq<Buf>, holder: map<nat, nat>, touched: set<nat>, asleep: map<nat, nat>,
                    b: nat, v: Buf, disk': seq<Sector>)
    requires BufsInv(pt, disk, bufs, holder, touched) && b in holder && b < |bufs| && Layout(pt, |disk|) && SleepInv(asleep, bufs)
    requires v == bufs[b].(valid := true) && v.data.Some? && |v.data.value| == BLKSECT && v.blockno + BLKSECT <= |disk|
    requires disk' == Splice(disk, v.blockno, v.data.value[..Moved(v.dev)])
    ensures BufsInv(pt, disk', bufs[b := v], holder, touched - {b}) && SleepInv(Wakeup(asleep, b), bufs[b := v])
  {
    hide BufsInv;
    WrittenBack(pt, disk, bufs, holder, touched, b, v, disk');
    WokenSleep(asleep, bufs, b, v);
  }

  lemma ReleaseKeeps(pt: seq<Partition>, disk: seq<Sector>, bufs: seq<Buf>, holder: map<nat, nat>, touched: set<nat>, asleep: map<nat, nat>, b: nat)
    requires BufsInv(pt, disk, bufs, holder, touched) && SleepInv(asleep, bufs) && b in holder && b < |bufs| && b !in touched
    ensures var bufs' := bufs[b := bufs[b].(busy := false, refcnt := 0)];
            BufsInv(pt, disk, bufs', holder - {b}, touched) && SleepInv(Wakeup(asleep, b), bufs')
  {
    AtBuf(pt, disk, bufs, holder, touched, b);
    var v := bufs[b].(busy := false, refcnt := 0);
    assert BufOk(pt, disk, v, false, false);
    hide BufOk;
    SetBuf(pt, disk, bufs, holder, touched, b, v, holder - {b}, touched);
    WokenSleep(asleep, bufs, b, v);
  }

  // ----- which buffer is recycled -----

  /** Of the buffers nobody holds, b was released first: the least recently used one. */
  ghost predicate Oldest(bufs: seq<Buf>, stamp: map<nat, nat>, b: nat) {
    b < |bufs| && !bufs[b].busy && b in stamp && forall i: nat :: i < |bufs| && !bufs[i].busy ==> i in stamp && stamp[b] <= stamp[i]
  }

  /** The buffer bget recycles is the least recently used one only when there is no choice. */
  lemma RecyclesOldestIff(order: seq<nat>, stamp: map<nat, nat>, clock: nat, bufs: seq<Buf>, b: nat)
    requires ListInv(order, stamp, clock) && |bufs| == NBUF && Newest(bufs, stamp, b)
    ensures Oldest(bufs, stamp, b) <==> forall i: nat :: i < NBUF && !bufs[i].busy ==> i == b
  {
    if Oldest(bufs, stamp, b) {
      forall i: nat | i < NBUF && !bufs[i].busy ensures i == b {
        ListHas(order, stamp, clock, i);
        ListHas(order, stamp, clock, b);
        assert stamp[order[PlaceOf(order, i)]] == stamp[order[PlaceOf(order, b)]];
      }
    }
  }

  lemma NewestIsLast(order: seq<nat>, stamp: map<nat, nat>, clock: nat, bufs: seq<Buf>, b: nat, last: nat)
    requires ListInv(order, stamp, clock) && |bufs| == NBUF && Newest(bufs, stamp, b)
    requires last < NBUF && !bufs[last].busy && last in stamp && stamp[last] == clock - 1
    ensures b == last
  {
    ListHas(order, stamp, clock, b);
    ListHas(order, stamp, clock, last);
    assert stamp[order[PlaceOf(order, b)]] == stamp[order[PlaceOf(order, last)]];
  }

  /** From an empty cache two blocks are read and released; a third block then takes the buffer released last. */
  method RecyclesNewestExample(pt: seq<Partition>, disk: seq<Sector>) returns (first: nat, second: nat, third: nat)
    requires Layout(pt, |disk|) && Inside(pt, 1, 2)
    ensures first != second && third == second
  {
    hide DiskInv, ListInv, BufsInv, SleepInv, Layout;
    var cache := new Cache(pt, disk);
    BlocksDiffer(pt, |disk|);
    first, second := Setup(cache);
    ghost var bufs, stamp := cache.bufs[..], cache.stamp;
    assert !bufs[second].busy;
    var r := cache.Bget(0, 1, 2);
    assert r.Got?;
    NewestIsLast(cache.order, stamp, cache.clock, bufs, r.b, second);
    third := r.b;
  }

  lemma BlocksDiffer(pt: seq<Partition>, n: nat)
    requires Layout(pt, n) && Inside(pt, 1, 2)
    ensures forall i: nat, j: nat :: i < j <= 2 ==> BlockNo(pt, 1, i) != BlockNo(pt, 1, j)
    ensures forall i: nat :: i <= 2 ==> Inside(pt, 1, i) && BlockNo(pt, 1, i) != 0
  {
    forall i: nat | i <= 2 { BlockInside(pt, n, 1, i); }
  }

  /** Two blocks of an empty cache are taken and released, the second one last. */
  method Setup(cache: Cache) returns (first: nat, second: nat)
    requires cache.Valid() && cache.holder == map[] && cache.touched == {} && cache.asleep == map[]
    requires forall b: nat :: b < NBUF ==> cache.bufs[b].blockno == 0
    requires Inside(cache.pt, 1, 0) && Inside(cache.pt, 1, 1) && BlockNo(cache.pt, 1, 0) != 0 && BlockNo(cache.pt, 1, 1) != 0
    requires BlockNo(cache.pt, 1, 0) != BlockNo(cache.pt, 1, 1)
    modifies cache, cache.bufs
    ensures cache.Valid() && cache.holder == map[] && cache.touched == {} && cache.asleep == map[]
    ensures first < NBUF && second < NBUF && first != second && second in cache.stamp && cache.stamp[second] == cache.clock - 1
    ensures first in cache.stamp && cache.stamp[first] < cache.stamp[second]
    ensures forall b: nat :: b < NBUF ==> cache.bufs[b].blockno in {0, BlockNo(cache.pt, 1, 0), BlockNo(cache.pt, 1, 1)} && !cache.bufs[b].busy
  {
    hide DiskInv, ListInv, BufsInv, SleepInv, Layout, Inside, BlockNo;
    AllIdle(cache);
    assert !cache.bufs[..][0].busy;
    var r := cache.Bget(0, 1, 0);
    assert r.Got?;
    first := r.b;
    ghost var x := if first == 0 then 1 else 0;
    assert !cache.bufs[..][x].busy;
    var q := cache.Bget(0, 1, 1);
    assert q.Got?;
    second := q.b;
    cache.Brelse(0, first);
    assert cache.asleep == map[];
    cache.Brelse(0, second);
    assert cache.asleep == map[] && cache.holder == map[];
    AllIdle(cache);
  }

  /** With no holder no buffer is busy. */
  lemma AllIdle(cache: Cache)
    requires cache.Valid() && cache.holder == map[]
    ensures forall b: nat :: b < NBUF ==> !cache.bufs[b].busy
  {
    forall b: nat | b < NBUF ensures !cache.bufs[b].busy {
      IdleShape(cache.pt, cache.disk, cache.bufs[..], cache.holder, cache.touched, b);
    }
  }
}
