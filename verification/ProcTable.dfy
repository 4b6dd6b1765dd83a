/**
 Process lifetimes: fork, exit, wait4(-1) with options 0, sleep and wakeup over
 the process table. Each method is one step taken while the locks it needs are
 held, so a run is any sequence of calls.
 */
module ProcTable {
  import opened Wrappers

  datatype State = UNUSED | USED | SLEEPING | RUNNABLE | RUNNING | ZOMBIE

  /** Where a process is: in user code or elsewhere, inside fork with a child slot, or inside wait4. */
  datatype Pc = User | Forking(child: nat) | Waiting

  /** Channels are process slots, as in wait4; None is any other channel. */
  datatype Proc = Proc(state: State, pid: nat, parent: Option<nat>, chan: Option<nat>, pc: Pc)

  const INIT: nat := 0
  const FREE_PROC := Proc(UNUSED, 0, None, None, User)

  type Table = seq<Proc>

  predicate Live(x: Proc) {
    x.state == SLEEPING || x.state == RUNNABLE || x.state == RUNNING
  }

  predicate ChildOf(t: Table, c: nat, p: nat) {
    c < |t| && t[c].parent == Some(p)
  }

  /** Asleep in wait4, where a process sleeps on itself. */
  predicate AsleepInWait(t: Table, p: nat) {
    p < |t| && t[p].state == SLEEPING && t[p].chan == Some(p) && t[p].pc == Waiting
  }

  ghost predicate HasChild(t: Table, p: nat) {
    exists c :: ChildOf(t, c, p)
  }

  /** Every process that has started has a live parent. */
  ghost predicate ParentOk(t: Table, i: nat)
    requires i < |t|
  {
    && (Live(t[i]) || t[i].state == ZOMBIE ==>
          if i == INIT then Live(t[i]) && t[i].parent == None
          else t[i].parent.Some? && t[i].parent.value < |t| && t[i].parent.value != i && Live(t[t[i].parent.value]))
    && (t[i].state == UNUSED ==> t[i] == FREE_PROC)
    && (t[i].state == USED && t[i].parent.Some? ==>
          t[i].parent.value < |t| && t[t[i].parent.value].pc == Forking(i))
  }

  ghost predicate PcOk(t: Table, i: nat)
    requires i < |t|
  {
    && (t[i].pc.Forking? ==> t[i].pc.child < |t| && t[t[i].pc.child].state == USED && Live(t[i]))
    && (t[i].pc == Waiting ==> Live(t[i]) && HasChild(t, i))
  }

  /** No lost wakeup: a process asleep in wait4 has no zombie child. */
  ghost predicate NoZombieMissed(t: Table) {
    forall p: nat, c: nat :: AsleepInWait(t, p) && ChildOf(t, c, p) ==> t[c].state != ZOMBIE
  }

  ghost predicate PidsOk(t: Table, nextpid: nat, reaped: set<nat>) {
    && (forall i :: 0 <= i < |t| && t[i].state != UNUSED ==> t[i].pid < nextpid && t[i].pid !in reaped)
    && (forall i, j :: 0 <= i < j < |t| && t[i].state != UNUSED && t[j].state != UNUSED ==> t[i].pid != t[j].pid)
    && (forall x :: x in reaped ==> x < nextpid)
  }

  ghost predicate Family(t: Table) {
    && INIT < |t| && Live(t[INIT])
    && (forall i :: 0 <= i < |t| ==> ParentOk(t, i) && PcOk(t, i))
  }

  /** A slot is being filled by at most one fork. */
  ghost predicate ForksApart(t: Table) {
    forall p, q :: 0 <= p < q < |t| && t[p].pc.Forking? && t[q].pc.Forking? ==> t[p].pc.child != t[q].pc.child
  }

  ghost predicate Inv(t: Table, nextpid: nat, reaped: set<nat>) {
    Family(t) && ForksApart(t) && NoZombieMissed(t) && PidsOk(t, nextpid, reaped)
  }

  // ----- wakeup and reparent as functions of the table -----

  function WakeProc(x: Proc, c: nat): Proc {
    if x.state == SLEEPING && x.chan == Some(c) then x.(state := RUNNABLE) else x
  }

  /** wakeup(c) by process `me`, which it skips. */
  function WakeAll(t: Table, c: nat, me: nat): (r: Table)
    ensures |r| == |t| && forall i :: 0 <= i < |t| ==> r[i] == if i == me then t[i] else WakeProc(t[i], c)
  {
    seq(|t|, i requires 0 <= i < |t| => if i == me then t[i] else WakeProc(t[i], c))
  }

  /** The first k processes' parents changed from p to init. */
  function GiveAway(t: Table, p: nat, k: nat): (r: Table)
    ensures |r| == |t|
    ensures forall i :: 0 <= i < |t| ==> r[i] == if i < k && t[i].parent == Some(p) then t[i].(parent := Some(INIT)) else t[i]
  {
    seq(|t|, i requires 0 <= i < |t| => if i < k && t[i].parent == Some(p) then t[i].(parent := Some(INIT)) else t[i])
  }

  predicate AnyChild(t: Table, p: nat, k: nat) {
    exists i :: 0 <= i < k && i < |t| && t[i].parent == Some(p)
  }

  /** reparent(p) after k slots: init is woken once a child has been given to it. */
  function Reparented(t: Table, p: nat, k: nat): Table {
    var g := GiveAway(t, p, k);
    if AnyChild(t, p, k) then WakeAll(g, INIT, p) else g
  }

  /** exit(p): children to init, parent woken, p a zombie. */
  function Exited(t: Table, p: nat): Table
    requires p < |t| && t[p].parent.Some?
  {
    var r := Reparented(t, p, |t|);
    var w := WakeAll(r, r[p].parent.value, p);
    w[p := w[p].(state := ZOMBIE)]
  }

  /** Where exit(p) leaves each process. */
  lemma ExitedAt(t: Table, p: nat, i: nat)
    requires p < |t| && t[p].parent.Some? && t[p].parent != Some(p) && i < |t|
    ensures |Exited(t, p)| == |t|
    ensures var x, y := t[i], Exited(t, p)[i];
            && y.parent == (if x.parent == Some(p) then Some(INIT) else x.parent)
            && y.pid == x.pid && y.chan == x.chan && y.pc == x.pc
            && (i == p ==> y.state == ZOMBIE)
            && (i != p ==> y.state == x.state || (x.state == SLEEPING && y.state == RUNNABLE))
            && (i != p && x.state == SLEEPING && x.chan == t[p].parent ==> y.state == RUNNABLE)
            && (i != p && x.state == SLEEPING && x.chan == Some(INIT) && AnyChild(t, p, |t|) ==> y.state == RUNNABLE)
  {
  }

  lemma ExitKeepsFamily(t: Table, p: nat)
    requires Family(t) && p < |t| && p != INIT && t[p].state == RUNNING && t[p].pc == User
    ensures t[p].parent.Some? && Family(Exited(t, p))
  {
    assert ParentOk(t, p);
    var u := Exited(t, p);
    hide Exited;
    forall i | 0 <= i < |t| ensures |u| == |t| && ParentOk(u, i) && PcOk(u, i) {
      ExitedAt(t, p, i);
      ExitedAt(t, p, INIT);
      assert ParentOk(t, i) && PcOk(t, i);
      if t[i].parent.Some? && t[i].parent.value < |t| { ExitedAt(t, p, t[i].parent.value); }
      if t[i].pc.Forking? { ExitedAt(t, p, t[i].pc.child); }
      if t[i].pc == Waiting {
        var c :| ChildOf(t, c, i);
        ExitedAt(t, p, c);
        assert ChildOf(u, c, i);
      }
    }
    ExitedAt(t, p, INIT);
  }

  lemma ExitMissesNothing(t: Table, p: nat)
    requires Family(t) && NoZombieMissed(t) && p < |t| && p != INIT && t[p].state == RUNNING && t[p].pc == User
    ensures t[p].parent.Some? && NoZombieMissed(Exited(t, p))
  {
    assert ParentOk(t, p);
    var u := Exited(t, p);
    hide Exited;
    ExitedAt(t, p, p);
    forall w: nat, c: nat | AsleepInWait(u, w) && ChildOf(u, c, w) ensures u[c].state != ZOMBIE {
      assert t[c].parent == Some(p) ==> AnyChild(t, p, |t|);
      assert t[c].parent == Some(w) ==> ChildOf(t, c, w);
      ExitedAt(t, p, w);
      ExitedAt(t, p, c);
      assert AsleepInWait(t, w);
    }
  }

  lemma ExitKeepsPids(t: Table, p: nat, nextpid: nat, reaped: set<nat>)
    requires Family(t) && ForksApart(t) && PidsOk(t, nextpid, reaped) && p < |t| && p != INIT && t[p].state == RUNNING
    ensures t[p].parent.Some? && PidsOk(Exited(t, p), nextpid, reaped) && ForksApart(Exited(t, p))
  {
    assert ParentOk(t, p);
    var u := Exited(t, p);
    hide Exited;
    ExitedAt(t, p, p);
    forall i | 0 <= i < |t| ensures u[i].pid == t[i].pid && u[i].pc == t[i].pc && (u[i].state == UNUSED <==> t[i].state == UNUSED) {
      ExitedAt(t, p, i);
    }
  }

  // ----- the other steps as functions of the table -----

  /** A step that changes only the state, channel and place of a live process. */
  ghost predicate Moves(t: Table, u: Table, p: nat) {
    && p < |t| == |u| && u == t[p := t[p].(state := u[p].state, chan := u[p].chan, pc := u[p].pc)]
    && Live(t[p]) && Live(u[p]) && (t[p].pc.Forking? ==> u[p].pc == t[p].pc)
    && (u[p].pc.Forking? ==> u[p].pc == t[p].pc)
    && (u[p].pc == Waiting ==> HasChild(t, p))
    && (AsleepInWait(u, p) ==> u[p].pc == Waiting && forall c: nat :: ChildOf(t, c, p) ==> t[c].state != ZOMBIE)
  }

  lemma MoveKeeps(t: Table, u: Table, p: nat, nextpid: nat, reaped: set<nat>)
    requires Inv(t, nextpid, reaped) && Moves(t, u, p)
    ensures Inv(u, nextpid, reaped)
  {
    forall i | 0 <= i < |t| ensures ParentOk(u, i) && PcOk(u, i) {
      assert ParentOk(t, i) && PcOk(t, i);
      if u[i].pc == Waiting {
        var c :| ChildOf(t, c, i);
        assert ChildOf(u, c, i);
      }
    }
    forall w: nat, c: nat | AsleepInWait(u, w) && ChildOf(u, c, w) ensures u[c].state != ZOMBIE {
      assert ChildOf(t, c, w);
      if w != p { assert AsleepInWait(t, w); }
    }
  }

  /** allocproc by p: slot c becomes USED with a new pid. */
  ghost predicate Allocs(t: Table, u: Table, p: nat, c: nat, pid: nat) {
    && p < |t| && c < |t| && t[c].state == UNUSED && t[p].state == RUNNING && t[p].pc == User && p != c
    && u == t[c := Proc(USED, pid, None, None, User)][p := t[p].(pc := Forking(c))]
  }

  lemma AllocFamily(t: Table, u: Table, p: nat, c: nat, pid: nat)
    requires Family(t) && Allocs(t, u, p, c, pid)
    ensures Family(u) && c != INIT && t[c] == FREE_PROC
    ensures forall i :: 0 <= i < |t| && t[i].pc.Forking? ==> t[i].pc.child != c
  {
    assert ParentOk(t, c);
    forall i | 0 <= i < |t| ensures ParentOk(u, i) && PcOk(u, i) && (t[i].pc.Forking? ==> t[i].pc.child != c) {
      assert ParentOk(t, i) && PcOk(t, i);
      if u[i].pc == Waiting {
        var d :| ChildOf(t, d, i);
        assert ChildOf(u, d, i);
      }
    }
  }

  lemma AllocKeeps(t: Table, u: Table, p: nat, c: nat, nextpid: nat, reaped: set<nat>)
    requires Inv(t, nextpid, reaped) && Allocs(t, u, p, c, nextpid)
    ensures Inv(u, nextpid + 1, reaped)
  {
    AllocFamily(t, u, p, c, nextpid);
    hide Family;
    forall w: nat, d: nat | AsleepInWait(u, w) && ChildOf(u, d, w) ensures u[d].state != ZOMBIE {
      assert AsleepInWait(t, w) && ChildOf(t, d, w);
    }
  }

  lemma SetParentKeeps(t: Table, u: Table, p: nat, c: nat, nextpid: nat, reaped: set<nat>)
    requires Inv(t, nextpid, reaped) && p < |t| && t[p].pc == Forking(c) && c < |t| && t[c].parent == None
    requires u == t[c := t[c].(parent := Some(p))]
    ensures Inv(u, nextpid, reaped)
  {
    assert PcOk(t, p) && ParentOk(t, c);
    forall i | 0 <= i < |t| ensures ParentOk(u, i) && PcOk(u, i) {
      assert ParentOk(t, i) && PcOk(t, i);
      if u[i].pc == Waiting {
        var d :| ChildOf(t, d, i);
        assert ChildOf(u, d, i);
      }
    }
    forall w: nat, d: nat | AsleepInWait(u, w) && ChildOf(u, d, w) ensures u[d].state != ZOMBIE {
      assert AsleepInWait(t, w);
      if d != c { assert ChildOf(t, d, w); }
    }
  }

  lemma StartKeeps(t: Table, u: Table, p: nat, c: nat, nextpid: nat, reaped: set<nat>)
    requires Inv(t, nextpid, reaped) && p < |t| && t[p].pc == Forking(c) && c < |t| && t[c].parent == Some(p) && c != p
    requires u == t[c := t[c].(state := RUNNABLE)][p := t[p].(pc := User)]
    ensures Inv(u, nextpid, reaped)
  {
    assert PcOk(t, p) && ParentOk(t, c);
    forall i | 0 <= i < |t| ensures ParentOk(u, i) && PcOk(u, i) {
      assert ParentOk(t, i) && PcOk(t, i);
      if u[i].pc == Waiting {
        var d :| ChildOf(t, d, i);
        assert ChildOf(u, d, i);
      }
    }
    forall w: nat, d: nat | AsleepInWait(u, w) && ChildOf(u, d, w) ensures u[d].state != ZOMBIE {
      assert AsleepInWait(t, w) && ChildOf(t, d, w);
    }
  }

  lemma ReapKeeps(t: Table, u: Table, p: nat, c: nat, nextpid: nat, reaped: set<nat>)
    requires Inv(t, nextpid, reaped) && p < |t| && t[p].state == RUNNING && !t[p].pc.Forking? && ChildOf(t, c, p) && t[c].state == ZOMBIE
    requires u == t[c := FREE_PROC][p := t[p].(pc := User)]
    ensures c != p && c != INIT && t[c].pid !in reaped && Inv(u, nextpid, reaped + {t[c].pid})
  {
    assert ParentOk(t, c) && ParentOk(t, INIT) && PcOk(t, c);
    forall i | 0 <= i < |t| ensures ParentOk(u, i) && PcOk(u, i) {
      assert ParentOk(t, i) && PcOk(t, i);
      if u[i].pc == Waiting {
        var d :| ChildOf(t, d, i);
        assert ChildOf(u, d, i);
      }
    }
    forall w: nat, d: nat | AsleepInWait(u, w) && ChildOf(u, d, w) ensures u[d].state != ZOMBIE {
      assert AsleepInWait(t, w) && ChildOf(t, d, w);
    }
  }

  class Processes {
    const procs: array<Proc>
    var nextpid: nat
    /** The pids wait4 has returned. */
    ghost var reaped: set<nat>

    ghost predicate Valid()
      reads this, procs
    {
      Inv(procs[..], nextpid, reaped)
    }

    /** The table with only init, running. */
    constructor (n: nat)
      requires n > 0
      ensures Valid() && fresh(procs) && procs.Length == n && reaped == {} && nextpid == 2
      ensures procs[INIT] == Proc(RUNNING, 1, None, None, User) && forall i :: 0 < i < n ==> procs[i] == FREE_PROC
    {
      procs := new Proc[n](i => if i == INIT then Proc(RUNNING, 1, None, None, User) else FREE_PROC);
      nextpid := 2;
      reaped := {};
      new;
      forall i | 0 <= i < n ensures ParentOk(procs[..], i) && PcOk(procs[..], i) {
      }
    }

    /** wakeup(c) called by process me. */
    method Wakeup(c: nat, me: nat)
      modifies procs
      ensures procs[..] == WakeAll(old(procs[..]), c, me)
    {
      for i := 0 to procs.Length
        invariant forall j :: 0 <= j < procs.Length ==>
                    procs[j] == if j < i && j != me then WakeProc(old(procs[j]), c) else old(procs[j])
      {
        if i != me {
          if procs[i].state == SLEEPING && procs[i].chan == Some(c) {
            procs[i] := procs[i].(state := RUNNABLE);
          }
        }
      }
    }

    /** reparent(p) */
    method Reparent(p: nat)
      requires p < procs.Length
      modifies procs
      ensures procs[..] == Reparented(old(procs[..]), p, procs.Length)
    {
      ghost var t := procs[..];
      NoneGiven(t, p);
      for i := 0 to procs.Length
        invariant procs[..] == Reparented(t, p, i)
      {
        ReparentStep(t, p, i);
        if procs[i].parent == Some(p) {
          procs[i] := procs[i].(parent := Some(INIT));
          Wakeup(INIT, p);
        }
      }
    }

    /** exit by p, from taking wait_lock to the switch away. Init may not exit (the panic). */
    method Exit(p: nat)
      requires Valid() && p < procs.Length && p != INIT && procs[p].state == RUNNING && procs[p].pc == User
      modifies procs
      ensures Valid() && old(procs[p].parent.Some?) && procs[..] == Exited(old(procs[..]), p)
      ensures procs[p].state == ZOMBIE && procs[p].pid == old(procs[p].pid)
      ensures forall c :: 0 <= c < procs.Length && old(procs[c].parent) == Some(p) ==> procs[c].parent == Some(INIT)
    {
      hide Family, NoZombieMissed, PidsOk, Reparented, Exited;
      ghost var t := procs[..];
      ExitKeepsFamily(t, p);
      ExitMissesNothing(t, p);
      ExitKeepsPids(t, p, nextpid, reaped);
      NotOwnParent(t, p);
      Reparent(p);
      ReparentedParent(t, p);
      Wakeup(procs[p].parent.value, p);
      procs[p] := procs[p].(state := ZOMBIE);
      ExitedDef(t, p, procs[..]);
      forall c | 0 <= c < procs.Length
        ensures procs[c].pid == old(procs[c].pid) && (old(procs[c].parent) == Some(p) ==> procs[c].parent == Some(INIT))
      {
        ExitedAt(t, p, c);
      }
    }

    /** The table scan of wait4(-1): whether p has a child, and its first zombie child if any. */
    method Scan(p: nat) returns (kids: bool, zombie: Option<nat>)
      ensures zombie.Some? ==> ChildOf(procs[..], zombie.value, p) && procs[zombie.value].state == ZOMBIE
      ensures zombie.None? ==> forall c: nat :: ChildOf(procs[..], c, p) ==> procs[c].state != ZOMBIE
      ensures zombie.Some? ==> forall c: nat :: c < zombie.value && ChildOf(procs[..], c, p) ==> procs[c].state != ZOMBIE
      ensures kids <==> HasChild(procs[..], p)
    {
      kids, zombie := false, None;
      for i := 0 to procs.Length
        invariant kids <==> exists c :: 0 <= c < i && ChildOf(procs[..], c, p)
        invariant forall c: nat :: c < i && ChildOf(procs[..], c, p) ==> procs[c].state != ZOMBIE
      {
        if procs[i].parent == Some(p) {
          assert ChildOf(procs[..], i, p);
          kids := true;
          if procs[i].state == ZOMBIE {
            return true, Some(i);
          }
        }
      }
      assert kids ==> HasChild(procs[..], p);
    }

    /**
     A burst of wait4(-1, options 0) by p, from taking wait_lock to returning or
     sleeping. r is the reaped pid, Some(-1) is ECHILD, None means asleep. The
     source's `kids` flag is not reset after a sleep; PcOk shows a process that
     resumes still has a child, so recomputing it makes no difference.
     */
    method WaitBurst(p: nat, killed: bool) returns (r: Option<int>)
      requires Valid() && p < procs.Length && procs[p].state == RUNNING && !procs[p].pc.Forking?
      modifies procs, `reaped
      ensures Valid()
      ensures r.None? ==> AsleepInWait(procs[..], p) && reaped == old(reaped)
      ensures r.None? ==> procs[..] == old(procs[..])[p := old(procs[p]).(state := SLEEPING, chan := Some(p), pc := Waiting)]
      ensures r == Some(-1) ==> reaped == old(reaped) && (killed || !old(HasChild(procs[..], p)))
      ensures r == Some(-1) ==> procs[..] == old(procs[..])[p := old(procs[p]).(pc := User)]
      ensures r.Some? && r != Some(-1) ==>
                && r.value >= 0 && r.value !in old(reaped) && reaped == old(reaped) + {r.value}
                && exists c: nat :: old(ChildOf(procs[..], c, p) && procs[c].state == ZOMBIE && procs[c].pid == r.value)
                                    && (forall d: nat :: d < c && old(ChildOf(procs[..], d, p)) ==> old(procs[d]).state != ZOMBIE)
                                    && procs[..] == old(procs[..])[c := FREE_PROC][p := old(procs[p]).(pc := User)]
      ensures r.None? ==> !killed && old(HasChild(procs[..], p))
      ensures (exists c: nat :: old(ChildOf(procs[..], c, p) && procs[c].state == ZOMBIE)) ==> r.Some? && r != Some(-1)
      ensures old(procs[p].pc) == Waiting ==> old(HasChild(procs[..], p))
    {
      hide Family, NoZombieMissed, PidsOk, ForksApart;
      ghost var t := procs[..];
      WaitingHasChild(t, p);
      var kids, zombie := Scan(p);
      if zombie.Some? {
        var c := zombie.value;
        ReapKeeps(t, t[c := FREE_PROC][p := t[p].(pc := User)], p, c, nextpid, reaped);
        r := Some(procs[c].pid);
        reaped := reaped + {procs[c].pid};
        procs[c] := FREE_PROC;
        procs[p] := procs[p].(pc := User);
        assert procs[..] == t[c := FREE_PROC][p := t[p].(pc := User)];
        assert old(ChildOf(procs[..], c, p) && procs[c].state == ZOMBIE && procs[c].pid == r.value);
        return;
      }
      if !kids || killed {
        MoveKeeps(t, t[p := t[p].(pc := User)], p, nextpid, reaped);
        procs[p] := procs[p].(pc := User);
        assert procs[..] == t[p := t[p].(pc := User)];
        return Some(-1);
      }
      MoveKeeps(t, t[p := t[p].(state := SLEEPING, chan := Some(p), pc := Waiting)], p, nextpid, reaped);
      procs[p] := procs[p].(state := SLEEPING, chan := Some(p), pc := Waiting);
      assert procs[..] == t[p := t[p].(state := SLEEPING, chan := Some(p), pc := Waiting)];
      r := None;
    }

    /** fork's allocproc: the first unused slot, if any. */
    method ForkAlloc(p: nat) returns (c: Option<nat>)
      requires Valid() && p < procs.Length && procs[p].state == RUNNING && procs[p].pc == User
      modifies procs, `nextpid
      ensures Valid()
      ensures c.None? ==> procs[..] == old(procs[..]) && forall i :: 0 <= i < procs.Length ==> procs[i].state != UNUSED
      ensures c.Some? ==> c.value < procs.Length && forall i :: 0 <= i < c.value ==> old(procs[i]).state != UNUSED
      ensures c.Some? ==> c.value < procs.Length && procs[p].pc == Forking(c.value) && procs[c.value].state == USED
      ensures nextpid == if c.Some? then old(nextpid) + 1 else old(nextpid)
      ensures c.Some? ==>
                procs[..] == old(procs[..])[c.value := Proc(USED, old(nextpid), None, None, User)][p := old(procs[p]).(pc := Forking(c.value))]
    {
      hide Family, NoZombieMissed, PidsOk, ForksApart;
      ghost var t := procs[..];
      for i := 0 to procs.Length
        invariant procs[..] == t && procs[..] == old(procs[..]) && Valid() && nextpid == old(nextpid)
        invariant forall j :: 0 <= j < i ==> procs[j].state != UNUSED
      {
        if procs[i].state == UNUSED {
          AllocKeeps(t, t[i := Proc(USED, nextpid, None, None, User)][p := t[p].(pc := Forking(i))], p, i, nextpid, reaped);
          procs[i] := Proc(USED, nextpid, None, None, User);
          procs[p] := procs[p].(pc := Forking(i));
          nextpid := nextpid + 1;
          assert procs[..] == t[i := Proc(USED, nextpid - 1, None, None, User)][p := t[p].(pc := Forking(i))];
          return Some(i);
        }
      }
      c := None;
    }

    /** fork, under wait_lock: the child's parent. */
    method ForkSetParent(p: nat)
      requires Valid() && p < procs.Length && procs[p].state == RUNNING && procs[p].pc.Forking?
      requires procs[p].pc.child < procs.Length && procs[procs[p].pc.child].parent == None
      modifies procs
      ensures Valid() && procs[..] == old(procs[..])[old(procs[p].pc.child) := old(procs[procs[p].pc.child]).(parent := Some(p))]
    {
      hide Family, NoZombieMissed, PidsOk, ForksApart;
      ghost var t := procs[..];
      var c := procs[p].pc.child;
      SetParentKeeps(t, t[c := t[c].(parent := Some(p))], p, c, nextpid, reaped);
      procs[c] := procs[c].(parent := Some(p));
      assert procs[..] == t[c := t[c].(parent := Some(p))];
    }

    /** fork's last step: the child is runnable. */
    method ForkStart(p: nat)
      requires Valid() && p < procs.Length && procs[p].state == RUNNING && procs[p].pc.Forking?
      requires procs[p].pc.child < procs.Length && procs[p].pc.child != p && procs[procs[p].pc.child].parent == Some(p)
      modifies procs
      ensures Valid() && procs[p].pc == User && procs[old(procs[p].pc.child)].state == RUNNABLE
      ensures procs[old(procs[p].pc.child)].parent == Some(p)
      ensures procs[..] == old(procs[..])[old(procs[p].pc.child) := old(procs[procs[p].pc.child]).(state := RUNNABLE)]
                                         [p := old(procs[p]).(pc := User)]
    {
      hide Family, NoZombieMissed, PidsOk, ForksApart;
      ghost var t := procs[..];
      var c := procs[p].pc.child;
      StartKeeps(t, t[c := t[c].(state := RUNNABLE)][p := t[p].(pc := User)], p, c, nextpid, reaped);
      procs[c] := procs[c].(state := RUNNABLE);
      procs[p] := procs[p].(pc := User);
      assert procs[..] == t[c := t[c].(state := RUNNABLE)][p := t[p].(pc := User)];
    }

    /**
     Any other change of a live process's state: being scheduled, yielding,
     sleeping, being woken from anywhere. Inside wait4 a process goes to sleep on
     itself only in WaitBurst.
     */
    method Move(p: nat, state: State, chan: Option<nat>)
      requires Valid() && p < procs.Length && Live(procs[p]) && (state == RUNNING || state == RUNNABLE || state == SLEEPING)
      requires state == SLEEPING && procs[p].pc == Waiting ==> chan == None || (procs[p].state == SLEEPING && procs[p].chan == chan)
      modifies procs
      ensures Valid() && procs[..] == old(procs[..])[p := old(procs[p]).(state := state, chan := chan)]
    {
      hide ForksApart, PidsOk;
      ghost var t := procs[..];
      ghost var u := t[p := t[p].(state := state, chan := chan)];
      assert PcOk(t, p);
      assert Moves(t, u, p);
      MoveKeeps(t, u, p, nextpid, reaped);
      procs[p] := procs[p].(state := state, chan := chan);
      assert procs[..] == u;
    }
  }

  lemma NoneGiven(t: Table, p: nat)
    ensures Reparented(t, p, 0) == t
  {
  }

  lemma ReparentStep(t: Table, p: nat, i: nat)
    requires i < |t|
    ensures |Reparented(t, p, i)| == |t| && Reparented(t, p, i)[i].parent == t[i].parent
    ensures t[i].parent != Some(p) ==> Reparented(t, p, i + 1) == Reparented(t, p, i)
    ensures var r := Reparented(t, p, i);
            t[i].parent == Some(p) ==> Reparented(t, p, i + 1) == WakeAll(r[i := r[i].(parent := Some(INIT))], INIT, p)
  {
    if t[i].parent != Some(p) {
      assert AnyChild(t, p, i + 1) <==> AnyChild(t, p, i);
      assert GiveAway(t, p, i + 1) == GiveAway(t, p, i);
    } else {
      assert AnyChild(t, p, i + 1);
    }
  }

  lemma NotOwnParent(t: Table, p: nat)
    requires Family(t) && p < |t| && p != INIT && t[p].state == RUNNING
    ensures t[p].parent.Some? && t[p].parent != Some(p)
  {
    assert ParentOk(t, p);
  }

  lemma ReparentedParent(t: Table, p: nat)
    requires p < |t| && t[p].parent != Some(p)
    ensures |Reparented(t, p, |t|)| == |t| && Reparented(t, p, |t|)[p].parent == t[p].parent
  {
  }

  lemma ExitedDef(t: Table, p: nat, u: Table)
    requires p < |t| && t[p].parent.Some?
    requires |Reparented(t, p, |t|)| == |t| && Reparented(t, p, |t|)[p].parent == t[p].parent
    requires var w := WakeAll(Reparented(t, p, |t|), t[p].parent.value, p); u == w[p := w[p].(state := ZOMBIE)]
    ensures u == Exited(t, p)
  {
  }

  lemma WaitingHasChild(t: Table, p: nat)
    requires Family(t) && p < |t|
    ensures t[p].pc == Waiting ==> HasChild(t, p)
  {
    assert PcOk(t, p);
  }
}
