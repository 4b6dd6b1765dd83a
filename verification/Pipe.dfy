/**
 A pipe and the processes that use it. Each method is one burst of pipewrite,
 piperead or pipeclose between taking the pipe lock and giving it up, by
 sleeping or by returning, so a run is any sequence of calls. The build has one
 CPU and interrupts are off while the lock is held, so the killed flag of the
 running process is constant during a burst.
 */
module Pipe {
  import opened Wrappers

  const PIPESIZE: nat := 512
  const WRAP: nat := 0x1_0000_0000

  datatype Task =
    | Idle
    | Reading(n: nat, asleep: bool)
    | Writing(src: seq<Byte>, i: nat, asleep: bool)

  datatype Channel = NRead | NWrite

  /** wakeup on one process: sleepers on the channel become runnable. */
  function Woken(t: Task, c: Channel): Task {
    match t
    case Reading(n, _) => if c == NRead then Reading(n, false) else t
    case Writing(src, i, _) => if c == NWrite then Writing(src, i, false) else t
    case Idle => t
  }

  function Wakeup(tasks: map<nat, Task>, c: Channel): map<nat, Task> {
    map p | p in tasks :: Woken(tasks[p], c)
  }

  /** What a wakeup on the channel may do to a process: it only ends a sleep on that channel. */
  ghost predicate WokenAs(t: Task, t': Task, c: Channel) {
    match t
    case Idle => t' == Idle
    case Reading(n, asleep) => t' == Reading(n, asleep && c != NRead)
    case Writing(src, i, asleep) => t' == Writing(src, i, asleep && c != NWrite)
  }

  /** Every process but p is as a wakeup on the channel leaves it. */
  ghost predicate OthersWoken(tasks: map<nat, Task>, tasks': map<nat, Task>, c: Channel, p: Option<nat>) {
    tasks'.Keys == tasks.Keys && forall q :: q in tasks && p != Some(q) ==> WokenAs(tasks[q], tasks'[q], c)
  }

  predicate SleepingReader(t: Task) {
    t.Reading? && t.asleep
  }

  predicate SleepingWriter(t: Task) {
    t.Writing? && t.asleep
  }

  /** One process is not asleep through a condition that would let it go on. */
  predicate TaskOk(t: Task, empty: bool, full: bool, readopen: bool, writeopen: bool) {
    && (SleepingReader(t) ==> empty && writeopen)
    && (SleepingWriter(t) ==> full && readopen)
    && (t.Writing? ==> t.i <= |t.src|)
  }

  ghost predicate TasksOk(tasks: map<nat, Task>, empty: bool, full: bool, readopen: bool, writeopen: bool) {
    forall p :: p in tasks ==> TaskOk(tasks[p], empty, full, readopen, writeopen)
  }

  lemma TaskAt(tasks: map<nat, Task>, p: nat, empty: bool, full: bool, readopen: bool, writeopen: bool)
    requires TasksOk(tasks, empty, full, readopen, writeopen) && p in tasks
    ensures TaskOk(tasks[p], empty, full, readopen, writeopen)
  {
  }

  lemma SetTask(tasks: map<nat, Task>, p: nat, t: Task, empty: bool, full: bool, readopen: bool, writeopen: bool)
    requires TasksOk(tasks, empty, full, readopen, writeopen) && TaskOk(t, empty, full, readopen, writeopen)
    ensures TasksOk(tasks[p := t], empty, full, readopen, writeopen)
  {
  }

  /** After waking the readers, the buffer may hold bytes and the write end may be closed. */
  lemma ReadersWoken(tasks: map<nat, Task>, empty: bool, full: bool, readopen: bool, writeopen: bool,
                     empty': bool, full': bool, writeopen': bool)
    requires TasksOk(tasks, empty, full, readopen, writeopen) && (full ==> full')
    ensures Wakeup(tasks, NRead).Keys == tasks.Keys && TasksOk(Wakeup(tasks, NRead), empty', full', readopen, writeopen')
  {
  }

  /** After waking the writers, the buffer may have room and the read end may be closed. */
  lemma WritersWoken(tasks: map<nat, Task>, empty: bool, full: bool, readopen: bool, writeopen: bool,
                     empty': bool, full': bool, readopen': bool)
    requires TasksOk(tasks, empty, full, readopen, writeopen) && (empty && writeopen ==> empty')
    ensures Wakeup(tasks, NWrite).Keys == tasks.Keys && TasksOk(Wakeup(tasks, NWrite), empty', full', readopen', writeopen)
    ensures OthersWoken(tasks, Wakeup(tasks, NWrite), NWrite, None)
  {
  }

  /** A writer that ends or falls asleep wakes the readers first. */
  lemma WriterSettles(tasks: map<nat, Task>, p: nat, t: Task, empty: bool, full: bool, readopen: bool, writeopen: bool,
                      empty': bool, full': bool)
    requires TasksOk(tasks, empty, full, readopen, writeopen) && (full ==> full') && p in tasks
    requires TaskOk(t, empty', full', readopen, writeopen)
    ensures Wakeup(tasks, NRead)[p := t].Keys == tasks.Keys
    ensures TasksOk(Wakeup(tasks, NRead)[p := t], empty', full', readopen, writeopen)
    ensures OthersWoken(tasks, Wakeup(tasks, NRead)[p := t], NRead, Some(p))
  {
    hide TaskOk;
    ReadersWoken(tasks, empty, full, readopen, writeopen, empty', full', writeopen);
  }

  lemma IndexWrap(n: nat)
    ensures (n % WRAP) % PIPESIZE == n % PIPESIZE
  {
    assert n == (n / WRAP) * WRAP + n % WRAP;
    assert WRAP == 0x80_0000 * PIPESIZE;
    var k := (n / WRAP) * 0x80_0000;
    assert n == k * PIPESIZE + n % WRAP;
  }

  /** The test nwrite == nread + PIPESIZE of 32-bit counters is the test for a full buffer. */
  lemma FullWrap(r: nat, w: nat)
    requires r <= w <= r + PIPESIZE
    ensures (w % WRAP == (r % WRAP + PIPESIZE) % WRAP) <==> w == r + PIPESIZE
    ensures (w % WRAP == r % WRAP) <==> w == r
  {
    var q, x := r / WRAP, r % WRAP;
    assert r == q * WRAP + x;
    assert w == q * WRAP + (x + (w - r));
  }

  lemma IncWrap(n: nat)
    ensures (n % WRAP + 1) % WRAP == (n + 1) % WRAP
  {
    assert n == (n / WRAP) * WRAP + n % WRAP;
  }

  class PipeSystem {
    const data: array<Byte>
    var nread: nat
    var nwrite: nat
    var readopen: bool
    var writeopen: bool
    var tasks: map<nat, Task>
    /** Everything ever written to and read from the pipe. */
    ghost var written: seq<Byte>
    ghost var consumed: seq<Byte>

    /** A bounded FIFO: what was read is a prefix of what was written and the rest is in the ring. */
    ghost predicate Fifo()
      reads `nread, `nwrite, `written, `consumed, data
    {
      && data.Length == PIPESIZE
      && |consumed| <= |written| <= |consumed| + PIPESIZE && consumed == written[..|consumed|]
      && nread == |consumed| % WRAP && nwrite == |written| % WRAP
      && forall k :: |consumed| <= k < |written| ==> data[k % PIPESIZE] == written[k]
    }

    ghost predicate Empty()
      reads `written, `consumed
    {
      |written| == |consumed|
    }

    ghost predicate Full()
      reads `written, `consumed
    {
      |written| == |consumed| + PIPESIZE
    }

    /** What holds whenever the pipe lock is free. */
    ghost predicate Valid()
      reads this, data
    {
      Fifo() && TasksOk(tasks, Empty(), Full(), readopen, writeopen)
    }

    constructor ()
      ensures Valid() && fresh(data) && written == [] && consumed == [] && readopen && writeopen && tasks == map[]
    {
      data := new Byte[PIPESIZE](_ => 0);
      nread, nwrite := 0, 0;
      readopen, writeopen := true, true;
      tasks := map[];
      written, consumed := [], [];
    }

    /** A process enters piperead or pipewrite. */
    method Start(p: nat, t: Task)
      requires Valid() && p !in tasks && !t.Idle? && !t.asleep && (t.Writing? ==> t.i == 0)
      modifies `tasks
      ensures Valid() && tasks == old(tasks)[p := t]
    {
      SetTask(tasks, p, t, Empty(), Full(), readopen, writeopen);
      tasks := tasks[p := t];
    }

    /** A kill makes a sleeper runnable. */
    method Interrupt(p: nat)
      requires Valid() && p in tasks && !tasks[p].Idle?
      modifies `tasks
      ensures Valid() && p in tasks && tasks == old(tasks)[p := tasks[p]]
      ensures match old(tasks[p]) case Reading(n, _) => tasks[p] == Reading(n, false) case Writing(src, i, _) => tasks[p] == Writing(src, i, false)
    {
      tasks := tasks[p := Woken(Woken(tasks[p], NRead), NWrite)];
    }

    /** The tests on the 32-bit counters decide full and empty. */
    lemma CounterTests()
      requires Fifo()
      ensures |consumed| <= |written| <= |consumed| + PIPESIZE && consumed == written[..|consumed|]
      ensures nwrite == (nread + PIPESIZE) % WRAP <==> Full()
      ensures nread == nwrite <==> Empty()
    {
      FullWrap(|consumed|, |written|);
    }

    /** pi->data[pi->nwrite++ % PIPESIZE] = ch */
    method Put(ch: Byte)
      requires Fifo() && |written| < |consumed| + PIPESIZE
      modifies data, `nwrite, `written
      ensures Fifo() && written == old(written) + [ch]
    {
      IndexWrap(|written|);
      IncWrap(|written|);
      ghost var w := |written|;
      forall k | |consumed| <= k < w ensures k % PIPESIZE != w % PIPESIZE { DistinctSlots(k, w); }
      data[nwrite % PIPESIZE] := ch;
      nwrite := (nwrite + 1) % WRAP;
      written := written + [ch];
    }

    /** ch = pi->data[pi->nread++ % PIPESIZE] */
    method Take() returns (ch: Byte)
      requires Fifo() && |consumed| < |written|
      modifies `nread, `consumed
      ensures Fifo() && |old(consumed)| < |written| && ch == written[|old(consumed)|] && consumed == old(consumed) + [ch]
    {
      IndexWrap(|consumed|);
      IncWrap(|consumed|);
      ch := data[nread % PIPESIZE];
      nread := (nread + 1) % WRAP;
      consumed := consumed + [ch];
    }

    /** The loop of pipewrite up to its end, an error return (`stop`) or a full buffer. */
    method Fill(src: seq<Byte>, i0: nat, killed: bool) returns (i: nat, stop: bool)
      requires Fifo() && i0 <= |src|
      modifies data, `nwrite, `written
      ensures Fifo() && i0 <= i <= |src| && written == old(written) + src[i0..i]
      ensures stop <==> i0 < |src| && (!readopen || killed)
      ensures stop ==> i == i0
      ensures !stop && i < |src| ==> Full()
    {
      hide Fifo;
      i := i0;
      while i < |src|
        invariant i0 <= i <= |src| && Fifo() && written == old(written) + src[i0..i]
        invariant i > i0 ==> readopen && !killed
      {
        if !readopen || killed {
          return i, true;
        }
        CounterTests();
        if nwrite == (nread + PIPESIZE) % WRAP {
          return i, false;
        }
        Put(src[i]);
        assert src[i0..i + 1] == src[i0..i] + [src[i]];
        i := i + 1;
      }
      stop := false;
    }

    /**
     A burst of pipewrite. r is the return value: None while the process sleeps,
     Some(-1) when the read end is closed or the process was killed.
     */
    method WriteBurst(p: nat, killed: bool) returns (r: Option<int>)
      requires Valid() && p in tasks && tasks[p].Writing? && !tasks[p].asleep
      modifies data, `nwrite, `written, `tasks
      ensures Valid() && tasks.Keys == old(tasks).Keys
      ensures r == Some(-1) <==> old(tasks[p].i < |tasks[p].src|) && (!readopen || killed)
      ensures r == Some(-1) ==> tasks == old(tasks)[p := Idle] && written == old(written)
      ensures r != Some(-1) ==> OthersWoken(old(tasks), tasks, NRead, Some(p))
      ensures r.Some? && r.value != -1 ==> r.value == |old(tasks[p].src)| && tasks[p] == Idle
      ensures r.Some? && r.value != -1 ==> written == old(written) + old(tasks[p].src[tasks[p].i..])
      ensures r.None? ==> SleepingWriter(tasks[p]) && tasks[p].src == old(tasks[p].src) && old(tasks[p].i) <= tasks[p].i < |tasks[p].src|
      ensures r.None? ==> written == old(written) + old(tasks[p].src)[old(tasks[p].i)..tasks[p].i]
    {
      hide TasksOk, Wakeup, Fifo, OthersWoken;
      TaskAt(tasks, p, Empty(), Full(), readopen, writeopen);
      var src, i0 := tasks[p].src, tasks[p].i;
      ghost var empty0, full0 := Empty(), Full();
      CounterTests();
      var i, stop := Fill(src, i0, killed);
      CounterTests();
      if stop {
        SetTask(tasks, p, Idle, Empty(), Full(), readopen, writeopen);
        tasks := tasks[p := Idle];
        return Some(-1);
      }
      var t := if i < |src| then Writing(src, i, true) else Idle;
      WriterSettles(tasks, p, t, empty0, full0, readopen, writeopen, Empty(), Full());
      tasks := Wakeup(tasks, NRead);
      tasks := tasks[p := t];
      r := if i < |src| then None else Some(i);
    }

    /**
     A burst of piperead. r is the bytes returned, None while the process
     sleeps; `killed` ends a wait with the -1 result, reported in `failed`.
     */
    method ReadBurst(p: nat, killed: bool) returns (r: Option<seq<Byte>>, failed: bool)
      requires Valid() && p in tasks && tasks[p].Reading? && !tasks[p].asleep
      modifies `nread, `consumed, `tasks
      ensures Valid() && p in tasks && tasks.Keys == old(tasks).Keys
      ensures failed <==> killed && writeopen && old(Empty())
      ensures failed || r.None? ==> consumed == old(consumed)
      ensures r.None? && !failed <==> !killed && writeopen && old(Empty())
      ensures r.None? && !failed ==> tasks == old(tasks)[p := Reading(old(tasks[p]).n, true)]
      ensures failed ==> tasks == old(tasks)[p := Idle]
      ensures r.Some? ==> OthersWoken(old(tasks), tasks, NWrite, Some(p))
      ensures r.Some? ==> !failed && tasks[p] == Idle && consumed == old(consumed) + r.value
      ensures r.Some? ==> |r.value| == if |written| - |old(consumed)| < old(tasks[p]).n then |written| - |old(consumed)| else old(tasks[p]).n
    {
      hide TasksOk, Wakeup, Fifo;
      var n := tasks[p].n;
      ghost var empty0, full0 := Empty(), Full();
      CounterTests();
      failed := false;
      if nread == nwrite && writeopen {
        if killed {
          SetTask(tasks, p, Idle, Empty(), Full(), readopen, writeopen);
          tasks := tasks[p := Idle];
          return None, true;
        }
        SetTask(tasks, p, Reading(n, true), Empty(), Full(), readopen, writeopen);
        tasks := tasks[p := Reading(n, true)];
        return None, false;
      }
      var got := [];
      while |got| < n
        invariant |got| <= n && Fifo() && tasks == old(tasks)
        invariant consumed == old(consumed) + got
        decreases n - |got|
      {
        CounterTests();
        if nread == nwrite {
          break;
        }
        var ch := Take();
        got := got + [ch];
      }
      CounterTests();
      WritersWoken(tasks, empty0, full0, readopen, writeopen, Empty(), Full(), readopen);
      tasks := Wakeup(tasks, NWrite);
      SetTask(tasks, p, Idle, Empty(), Full(), readopen, writeopen);
      tasks := tasks[p := Idle];
      r := Some(got);
    }

    /** pipeclose; when both ends are closed the pipe is freed and no process sleeps on it. */
    method Close(writable: bool) returns (free: bool)
      requires Valid()
      modifies `readopen, `writeopen, `tasks
      ensures Valid() && tasks.Keys == old(tasks).Keys
      ensures writeopen == (old(writeopen) && !writable) && readopen == (old(readopen) && writable)
      ensures OthersWoken(old(tasks), tasks, if writable then NRead else NWrite, None)
      ensures free <==> !readopen && !writeopen
      ensures free ==> forall p :: p in tasks ==> !SleepingReader(tasks[p]) && !SleepingWriter(tasks[p])
    {
      if writable {
        writeopen := false;
        tasks := Wakeup(tasks, NRead);
      } else {
        readopen := false;
        tasks := Wakeup(tasks, NWrite);
      }
      free := !readopen && !writeopen;
    }
  }

  lemma DistinctSlots(k: nat, w: nat)
    requires k < w < k + PIPESIZE
    ensures k % PIPESIZE != w % PIPESIZE
  {
  }
}
