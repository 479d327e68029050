/** Process states under ptable.lock (ex4/xv6/proc.c): fork, exit, wait, sleep, wakeup and kill. */
module Procs {
  datatype PState = UNUSED | EMBRYO | SLEEPING | RUNNABLE | RUNNING | ZOMBIE

  /** A sleep channel: a process's own slot, on which only wait sleeps, or something else. */
  datatype Chan = NoChan | OnProc(p: nat) | Other(id: nat)

  const NONE: int := -1

  datatype Proc = Proc(state: PState, pid: nat, parent: int, chan: Chan, killed: bool)

  predicate Live(x: Proc) {
    x.state != UNUSED && x.state != EMBRYO
  }

  predicate Alive(x: Proc) {
    Live(x) && x.state != ZOMBIE
  }

  // ----- what the table operations do

  /** Only a sleeper on that channel becomes runnable, and nothing else changes. */
  function WokenOne(x: Proc, c: Chan): (r: Proc)
    ensures r == x.(state := r.state)
    ensures r.state == if x.state.SLEEPING? && x.chan == c then RUNNABLE else x.state
  {
    if x.state == SLEEPING && x.chan == c then x.(state := RUNNABLE) else x
  }

  function Woken(ps: seq<Proc>, c: Chan): (r: seq<Proc>)
    ensures |r| == |ps| && forall i :: 0 <= i < |ps| ==> r[i] == WokenOne(ps[i], c)
  {
    seq(|ps|, i requires 0 <= i < |ps| => WokenOne(ps[i], c))
  }

  predicate ZombieChild(x: Proc, p: nat) {
    x.parent == p && x.state == ZOMBIE
  }

  predicate HasZombie(ps: seq<Proc>, p: nat, n: nat) {
    exists i :: 0 <= i < n && i < |ps| && ZombieChild(ps[i], p)
  }

  /** The first n slots' children of p go to init, which is woken if one of them is a zombie. */
  function Reparented(ps: seq<Proc>, p: nat, init: nat, n: nat): (r: seq<Proc>)
    ensures |r| == |ps|
    ensures forall i :: 0 <= i < |ps| ==>
              r[i] == var x := if HasZombie(ps, p, n) then WokenOne(ps[i], OnProc(init)) else ps[i];
                      if i < n && ps[i].parent == p then x.(parent := init) else x
  {
    seq(|ps|, i requires 0 <= i < |ps| =>
      var x := if HasZombie(ps, p, n) then WokenOne(ps[i], OnProc(init)) else ps[i];
      if i < n && ps[i].parent == p then x.(parent := init) else x)
  }

  function ParentChan(x: Proc): Chan {
    if x.parent < 0 then NoChan else OnProc(x.parent)
  }

  /** exit wakes this process: it sleeps on the parent of p, or on init, which gets a zombie child. */
  predicate ExitWakes(ps: seq<Proc>, p: nat, init: nat, i: nat)
    requires p < |ps| && i < |ps|
  {
    && ps[i].state == SLEEPING
    && ((if ps[p].parent < 0 then ps[i].chan == NoChan else ps[i].chan == OnProc(ps[p].parent))
        || (ps[i].chan == OnProc(init) && exists j :: 0 <= j < |ps| && ps[j].parent == p && ps[j].state == ZOMBIE))
  }

  /** exit, from the lock on (proc.c:253-265). */
  function Exited(ps: seq<Proc>, p: nat, init: nat): (r: seq<Proc>)
    requires p < |ps|
    ensures |r| == |ps|
  {
    var r := Reparented(Woken(ps, ParentChan(ps[p])), p, init, |ps|);
    r[p := r[p].(state := ZOMBIE)]
  }

  /** exit makes p a zombie, hands its children to init, wakes those it has to wake, and changes nothing
      else. */
  lemma ExitedSlot(ps: seq<Proc>, p: nat, init: nat, i: nat)
    requires p < |ps| && i < |ps|
    ensures var r := Exited(ps, p, init)[i];
            && r == ps[i].(state := r.state, parent := r.parent)
            && r.parent == (if ps[i].parent == p then init else ps[i].parent)
            && r.state == (if i == p then ZOMBIE else if ExitWakes(ps, p, init, i) then RUNNABLE else ps[i].state)
  {
    SameZombies(ps, p, ParentChan(ps[p]));
    var w := Woken(ps, ParentChan(ps[p]));
    assert w[i] == WokenOne(ps[i], ParentChan(ps[p]));
  }

  lemma SameZombies(ps: seq<Proc>, p: nat, c: Chan)
    ensures HasZombie(Woken(ps, c), p, |ps|) <==> exists j :: 0 <= j < |ps| && ps[j].parent == p && ps[j].state == ZOMBIE
  {
    var w := Woken(ps, c);
    forall i: nat | i < |ps|
      ensures ZombieChild(w[i], p) <==> ZombieChild(ps[i], p)
    {
    }
    if i :| 0 <= i < |ps| && ps[i].parent == p && ps[i].state == ZOMBIE {
      assert ZombieChild(w[i], p);
    }
  }

  /** What one scan of wait finds: a zombie child to reap, no reason to wait, or a reason to sleep. */
  datatype Scan = Reap(slot: nat) | GiveUp | Sleep

  /** q is the first zombie child of p. */
  predicate FirstZombie(ps: seq<Proc>, p: nat, q: nat) {
    q < |ps| && ZombieChild(ps[q], p) && forall i :: 0 <= i < q ==> !ZombieChild(ps[i], p)
  }

  predicate HasKids(ps: seq<Proc>, p: nat) {
    exists i :: 0 <= i < |ps| && ps[i].parent == p
  }

  ghost predicate Scanned(ps: seq<Proc>, p: nat, r: Scan) {
    p < |ps| &&
    match r
    case Reap(q) => FirstZombie(ps, p, q)
    case GiveUp => !HasZombie(ps, p, |ps|) && (!HasKids(ps, p) || ps[p].killed)
    case Sleep => !HasZombie(ps, p, |ps|) && HasKids(ps, p) && !ps[p].killed
  }

  /** The slot is free for allocproc again. */
  function Reaped(ps: seq<Proc>, q: nat): (r: seq<Proc>)
    requires q < |ps|
    ensures |r| == |ps| && r[q].state == UNUSED && r[q].pid == 0 && r[q].parent == NONE && !r[q].killed
    ensures forall i :: 0 <= i < |ps| && i != q ==> r[i] == ps[i]
  {
    ps[q := Proc(UNUSED, 0, NONE, ps[q].chan, false)]
  }

  function Slept(ps: seq<Proc>, p: nat, c: Chan): (r: seq<Proc>)
    requires p < |ps|
    ensures |r| == |ps| && r[p].state == SLEEPING && r[p].chan == c && r[p].pid == ps[p].pid
    ensures r[p].parent == ps[p].parent && r[p].killed == ps[p].killed
    ensures forall i :: 0 <= i < |ps| && i != p ==> r[i] == ps[i]
  {
    ps[p := ps[p].(state := SLEEPING, chan := c)]
  }

  /** A killed process is marked, and does not sleep. */
  function KilledOne(x: Proc): (r: Proc)
    ensures r.killed && r.state == (if x.state == SLEEPING then RUNNABLE else x.state)
    ensures r.pid == x.pid && r.parent == x.parent && r.chan == x.chan
  {
    Proc(if x.state == SLEEPING then RUNNABLE else x.state, x.pid, x.parent, x.chan, true)
  }

  class Table {
    const init: nat
    var ps: seq<Proc>
    var nextpid: nat

    constructor (n: nat)
      requires 0 < n
      ensures |ps| == n && init == 0 && nextpid == 2
      ensures ps == InitTable(n)
    {
      init := 0;
      ps := InitTable(n);
      nextpid := 2;
    }

    method Wakeup1(c: Chan)
      modifies this`ps
      ensures ps == Woken(old(ps), c)
    {
      var i := 0;
      while i < |ps|
        invariant 0 <= i <= |ps| == |old(ps)|
        invariant forall j :: 0 <= j < |ps| ==> ps[j] == if j < i then WokenOne(old(ps)[j], c) else old(ps)[j]
      {
        if ps[i].state == SLEEPING && ps[i].chan == c {
          ps := ps[i := ps[i].(state := RUNNABLE)];
        }
        i := i + 1;
      }
    }

    /** The first unused slot, if any, becomes an embryo with a new pid (proc.c:81-90). */
    method Allocproc() returns (q: int)
      modifies this`ps, this`nextpid
      ensures q == NONE ==> ps == old(ps) && nextpid == old(nextpid) && forall i :: 0 <= i < |ps| ==>
                ps[i].state != UNUSED
      ensures q != NONE ==> 0 <= q < |old(ps)| && old(ps)[q].state == UNUSED
                            && (forall i :: 0 <= i < q ==> old(ps)[i].state != UNUSED)
                            && ps == old(ps)[q := old(ps)[q].(state := EMBRYO, pid := old(nextpid))]
                            && nextpid == old(nextpid) + 1
    {
      var i := 0;
      while i < |ps|
        invariant 0 <= i <= |ps| && ps == old(ps) && nextpid == old(nextpid)
        invariant forall j :: 0 <= j < i ==> ps[j].state != UNUSED
      {
        if ps[i].state == UNUSED {
          ps := ps[i := ps[i].(state := EMBRYO, pid := nextpid)];
          nextpid := nextpid + 1;
          return i;
        }
        i := i + 1;
      }
      return NONE;
    }

    /** exit, from the lock on (proc.c:253-265). */
    method Exit(p: nat)
      requires p < |ps| && p != init
      modifies this`ps
      ensures ps == Exited(old(ps), p, init)
    {
      Wakeup1(ParentChan(ps[p]));
      ghost var ps1 := ps;
      var i := 0;
      while i < |ps|
        invariant 0 <= i <= |ps| && ps == Reparented(ps1, p, init, i)
      {
        if ps[i].parent == p {
          ps := ps[i := ps[i].(parent := init)];
          if ps[i].state == ZOMBIE {
            Wakeup1(OnProc(init));
          }
        }
        i := i + 1;
      }
      ps := ps[p := ps[p].(state := ZOMBIE)];
    }

    /** One scan of wait (proc.c:282-310). */
    method Wait(p: nat) returns (pid: int, ghost r: Scan)
      requires p < |ps|
      modifies this`ps
      ensures Scanned(old(ps), p, r)
      ensures r.Reap? ==> ps == Reaped(old(ps), r.slot) && pid == old(ps)[r.slot].pid
      ensures r.GiveUp? ==> ps == old(ps) && pid == -1
      ensures r.Sleep? ==> ps == Slept(old(ps), p, OnProc(p))
      ensures r.Reap? <==> exists i :: 0 <= i < |old(ps)| && old(ps)[i].parent == p && old(ps)[i].state == ZOMBIE
      ensures r.Sleep? ==> !old(ps)[p].killed && exists i :: 0 <= i < |old(ps)| && old(ps)[i].parent == p
      ensures r.GiveUp? ==> old(ps)[p].killed || forall i :: 0 <= i < |old(ps)| ==> old(ps)[i].parent != p
    {
      var havekids := false;
      var i := 0;
      while i < |ps|
        invariant 0 <= i <= |ps| && ps == old(ps)
        invariant forall j :: 0 <= j < i ==> !ZombieChild(ps[j], p)
        invariant havekids <==> exists j :: 0 <= j < i && ps[j].parent == p
      {
        if ps[i].parent == p {
          havekids := true;
          if ps[i].state == ZOMBIE {
            pid := ps[i].pid;
            ps := ps[i := Proc(UNUSED, 0, NONE, ps[i].chan, false)];
            return pid, Reap(i);
          }
        }
        i := i + 1;
      }
      if !havekids || ps[p].killed {
        return -1, GiveUp;
      }
      ps := ps[p := ps[p].(state := SLEEPING, chan := OnProc(p))];
      return 0, Sleep;
    }

    /** Marks the first slot with that pid and wakes it (proc.c:484-496). */
    method Kill(pid: nat) returns (r: int)
      modifies this`ps
      ensures r == -1 ==> ps == old(ps) && forall i :: 0 <= i < |ps| ==> ps[i].pid != pid
      ensures r != -1 ==> r == 0 && exists q :: 0 <= q < |old(ps)| && old(ps)[q].pid == pid
                                               && (forall i :: 0 <= i < q ==> old(ps)[i].pid != pid)
                                               && ps == old(ps)[q := KilledOne(old(ps)[q])]
    {
      var i := 0;
      while i < |ps|
        invariant 0 <= i <= |ps| && ps == old(ps) && forall j :: 0 <= j < i ==> ps[j].pid != pid
      {
        if ps[i].pid == pid {
          ps := ps[i := ps[i].(killed := true)];
          if ps[i].state == SLEEPING {
            ps := ps[i := ps[i].(state := RUNNABLE)];
          }
          assert ps == old(ps)[i := KilledOne(old(ps)[i])];
          return 0;
        }
        i := i + 1;
      }
      return -1;
    }
  }

  /** The table after userinit, with the first process in slot 0. */
  function InitTable(n: nat): (ps: seq<Proc>)
    requires 0 < n
    ensures |ps| == n
  {
    seq(n, i => if i == 0 then Proc(RUNNABLE, 1, NONE, NoChan, false) else Proc(UNUSED, 0, NONE, NoChan, false))
  }

  // ----- runs

  /** The table, which embryo each process in fork is making and who makes each embryo (NONE if
      nobody), and which slot each pid was given to. Slot 0 is init. */
  datatype Sys = Sys(ps: seq<Proc>, nextpid: nat, making: seq<int>, maker: seq<int>, given: seq<nat>)

  const INIT: nat := 0

  datatype Step =
    | ForkAlloc(p: nat, q: int) | ForkFail(p: nat) | ForkParent(p: nat) | ForkDone(p: nat)
    | Exits(p: nat) | Waits(p: nat, r: Scan) | Sleeps(p: nat, id: nat) | Wakes(id: nat) | Kills(pid: nat, k: nat)
    | Yields(p: nat) | Runs(p: nat)

  function Start(n: nat): Sys
    requires 0 < n
  {
    Sys(InitTable(n), 2, seq(n, _ => NONE), seq(n, _ => NONE), [0, 0])
  }

  predicate Shape(s: Sys) {
    INIT < |s.ps| == |s.making| == |s.maker| && |s.given| == s.nextpid
  }

  predicate Running(s: Sys, p: nat) {
    Shape(s) && p < |s.ps| && s.ps[p].state == RUNNING
  }

  /** p is in fork, with an embryo in a slot of the table. */
  predicate InFork(s: Sys, p: nat) {
    Running(s, p) && 0 <= s.making[p] < |s.ps|
  }

  ghost predicate Enabled(s: Sys, e: Step) {
    Shape(s) &&
    match e
    case ForkAlloc(p, q) =>
      Running(s, p) && s.making[p] == NONE
      && (if q == NONE then forall i :: 0 <= i < |s.ps| ==> s.ps[i].state != UNUSED
          else 0 <= q < |s.ps| && s.ps[q].state == UNUSED)
    case ForkFail(p) => InFork(s, p) && s.ps[s.making[p]].parent == NONE
    case ForkParent(p) => InFork(s, p) && s.ps[s.making[p]].parent == NONE
    case ForkDone(p) => InFork(s, p) && s.ps[s.making[p]].parent == p
    case Exits(p) => Running(s, p) && s.making[p] == NONE && p != INIT
    case Waits(p, r) => Running(s, p) && s.making[p] == NONE && Scanned(s.ps, p, r)
    case Sleeps(p, id) => Running(s, p)
    case Wakes(id) => true
    case Kills(pid, q) => q < |s.ps| && s.ps[q].pid == pid && forall i :: 0 <= i < q ==> s.ps[i].pid != pid
    case Yields(p) => Running(s, p)
    case Runs(p) => p < |s.ps| && s.ps[p].state == RUNNABLE
  }

  function WithState(ps: seq<Proc>, p: nat, st: PState): seq<Proc>
    requires p < |ps|
  {
    ps[p := ps[p].(state := st)]
  }

  ghost function Next(s: Sys, e: Step): Sys
    requires Enabled(s, e)
  {
    match e
    case ForkAlloc(p, q) =>
      if q == NONE then s
      else Sys(s.ps[q := s.ps[q].(state := EMBRYO, pid := s.nextpid)], s.nextpid + 1,
               s.making[p := q], s.maker[q := p], s.given + [q])
    case ForkFail(p) =>
      Sys(WithState(s.ps, s.making[p], UNUSED), s.nextpid, s.making[p := NONE], s.maker[s.making[p] := NONE], s.given)
    case ForkParent(p) => s.(ps := s.ps[s.making[p] := s.ps[s.making[p]].(parent := p)])
    case ForkDone(p) =>
      Sys(WithState(s.ps, s.making[p], RUNNABLE), s.nextpid, s.making[p := NONE], s.maker[s.making[p] := NONE], s.given)
    case Exits(p) => s.(ps := Exited(s.ps, p, INIT))
    case Waits(p, r) =>
      if r.Reap? then s.(ps := Reaped(s.ps, r.slot))
      else if r.GiveUp? then s
      else s.(ps := Slept(s.ps, p, OnProc(p)))
    case Sleeps(p, id) => s.(ps := Slept(s.ps, p, Other(id)))
    case Wakes(id) => s.(ps := Woken(s.ps, Other(id)))
    case Kills(_, q) => s.(ps := s.ps[q := KilledOne(s.ps[q])])
    case Yields(p) => s.(ps := WithState(s.ps, p, RUNNABLE))
    case Runs(p) => s.(ps := s.ps[p := s.ps[p].(state := RUNNING, chan := NoChan)])
  }

  ghost predicate IsRun(s: Sys, es: seq<Step>)
    decreases |es|
  {
    es == [] || (Enabled(s, es[0]) && IsRun(Next(s, es[0]), es[1..]))
  }

  ghost function After(s: Sys, es: seq<Step>): Sys
    requires IsRun(s, es)
    decreases |es|
  {
    if es == [] then s else After(Next(s, es[0]), es[1..])
  }

  // ----- the invariant

  predicate InTable(s: Sys, i: int) {
    0 <= i < |s.ps|
  }

  /** A process sleeps on its own slot only, and then none of its children is a zombie; its pid is its
      own; its parent is alive. */
  predicate ProcOk(s: Sys, p: nat)
    requires Shape(s) && p < |s.ps|
  {
    var x := s.ps[p];
    && x.parent != p
    && (x.state == UNUSED ==> x.parent == NONE && s.maker[p] == NONE)
    && (x.state == EMBRYO ==>
        InTable(s, s.maker[p]) && s.making[s.maker[p]] == p && (x.parent == NONE || x.parent == s.maker[p]))
    && (Live(x) ==> s.maker[p] == NONE)
    && (Live(x) && p != INIT ==> InTable(s, x.parent) && Alive(s.ps[x.parent]))
    && (s.making[p] == NONE
        || (InTable(s, s.making[p]) && s.ps[s.making[p]].state == EMBRYO && s.maker[s.making[p]] == p))
    && (s.making[p] != NONE ==> Alive(x))
    && (x.state == SLEEPING && x.chan.OnProc? ==> x.chan.p == p)
    && (x.state == ZOMBIE ==>
        InTable(s, x.parent) && !(s.ps[x.parent].state == SLEEPING && s.ps[x.parent].chan == OnProc(x.parent)))
    && (x.state != UNUSED ==> x.pid < s.nextpid && s.given[x.pid] == p)
  }

  ghost predicate Inv(s: Sys) {
    && Shape(s) && Alive(s.ps[INIT]) && s.ps[INIT].parent == NONE
    && forall p: nat :: p < |s.ps| ==> ProcOk(s, p)
  }

  lemma StartInv(n: nat)
    requires 0 < n
    ensures Inv(Start(n))
  {
  }

  lemma ForkKeepsInv(s: Sys, e: Step)
    requires Inv(s) && Enabled(s, e) && (e.ForkAlloc? || e.ForkFail? || e.ForkParent? || e.ForkDone?)
    ensures Inv(Next(s, e))
  {
    var s' := Next(s, e);
    assert ProcOk(s, e.p);
    assert ProcOk(s, INIT);
    forall p: nat | p < |s'.ps|
      ensures ProcOk(s', p)
    {
      assert ProcOk(s, p);
    }
  }

  /** What exit of p does to slot q. */
  lemma ExitOne(s: Sys, p: nat, q: nat)
    requires Inv(s) && Enabled(s, Exits(p)) && q < |s.ps|
    ensures var x, x' := s.ps[q], Exited(s.ps, p, INIT)[q];
            && x'.parent == (if x.parent == p then INIT else x.parent)
            && x'.pid == x.pid && x'.chan == x.chan
            && (if q == p then x'.state == ZOMBIE
                else x'.state == x.state || (x.state == SLEEPING && x'.state == RUNNABLE))
            && (q == s.ps[p].parent && q != p && x.chan == OnProc(q) ==> x'.state != SLEEPING)
    ensures ZombieChild(s.ps[q], p) && s.ps[INIT].chan == OnProc(INIT) ==> Exited(s.ps, p, INIT)[INIT].state != SLEEPING
  {
    var w := Woken(s.ps, ParentChan(s.ps[p]));
    assert ZombieChild(s.ps[q], p) ==> ZombieChild(w[q], p);
    assert ZombieChild(s.ps[q], p) ==> HasZombie(w, p, |w|);
  }

  lemma ExitKeepsInv(s: Sys, p: nat)
    requires Inv(s) && Enabled(s, Exits(p))
    ensures Inv(Next(s, Exits(p)))
  {
    hide Exited, ProcOk, Woken;
    var s' := Next(s, Exits(p));
    forall q: nat | q < |s'.ps|
      ensures ProcOk(s', q)
    {
      ExitSlotOk(s, p, q);
    }
    ExitSlotOk(s, p, INIT);
    ExitOne(s, p, INIT);
  }

  lemma ExitSlotOk(s: Sys, p: nat, q: nat)
    requires Inv(s) && Enabled(s, Exits(p)) && q < |s.ps|
    ensures Shape(Next(s, Exits(p))) && ProcOk(Next(s, Exits(p)), q)
  {
    hide Exited, Woken;
    assert ProcOk(s, q) && ProcOk(s, p) && ProcOk(s, INIT);
    ExitOne(s, p, q);
    if InTable(s, s.ps[q].parent) {
      ExitOne(s, p, s.ps[q].parent);
    }
    if InTable(s, s.maker[q]) {
      ExitOne(s, p, s.maker[q]);
    }
    if InTable(s, s.making[q]) {
      ExitOne(s, p, s.making[q]);
    }
    ExitOne(s, p, INIT);
  }

  lemma WaitKeepsInv(s: Sys, p: nat, r: Scan)
    requires Inv(s) && Enabled(s, Waits(p, r))
    ensures Inv(Next(s, Waits(p, r)))
  {
    var s' := Next(s, Waits(p, r));
    assert ProcOk(s, p);
    forall q: nat | q < |s'.ps|
      ensures ProcOk(s', q)
    {
      assert ProcOk(s, q);
    }
  }

  lemma OtherKeepsInv(s: Sys, e: Step)
    requires Inv(s) && Enabled(s, e) && (e.Sleeps? || e.Wakes? || e.Kills? || e.Yields? || e.Runs?)
    ensures Inv(Next(s, e))
  {
    var s' := Next(s, e);
    forall q: nat | q < |s'.ps|
      ensures ProcOk(s', q)
    {
      assert ProcOk(s, q);
    }
  }

  lemma StepKeepsInv(s: Sys, e: Step)
    requires Inv(s) && Enabled(s, e)
    ensures Inv(Next(s, e))
  {
    hide Inv, Next, Enabled;
    match e
    case ForkAlloc(_, _) => ForkKeepsInv(s, e);
    case ForkFail(_) => ForkKeepsInv(s, e);
    case ForkParent(_) => ForkKeepsInv(s, e);
    case ForkDone(_) => ForkKeepsInv(s, e);
    case Exits(p) => ExitKeepsInv(s, p);
    case Waits(p, r) => WaitKeepsInv(s, p, r);
    case Sleeps(_, _) => OtherKeepsInv(s, e);
    case Wakes(_) => OtherKeepsInv(s, e);
    case Kills(_, _) => OtherKeepsInv(s, e);
    case Yields(_) => OtherKeepsInv(s, e);
    case Runs(_) => OtherKeepsInv(s, e);
  }

  lemma {:induction false} RunKeepsInv(s: Sys, es: seq<Step>)
    requires Inv(s) && IsRun(s, es)
    ensures Inv(After(s, es))
    decreases |es|
  {
    hide Inv, Next, Enabled;
    if es != [] {
      StepKeepsInv(s, es[0]);
      RunKeepsInv(Next(s, es[0]), es[1..]);
    }
  }

  /** In every run: a process asleep in wait has no zombie child, so its wake-up has not been missed;
      every process but init has a parent that is alive; two processes never share a pid; and init
      lives. */
  lemma ProcessSafety(n: nat, es: seq<Step>, p: nat, q: nat)
    requires 0 < n && IsRun(Start(n), es)
    requires p < |After(Start(n), es).ps| && q < |After(Start(n), es).ps|
    ensures var ps := After(Start(n), es).ps;
            && (ps[p].state == SLEEPING && ps[p].chan == OnProc(p) ==> !ZombieChild(ps[q], p))
            && (Live(ps[p]) && p != INIT ==> 0 <= ps[p].parent < |ps| && Alive(ps[ps[p].parent]))
            && (ps[p].state != UNUSED && ps[q].state != UNUSED && ps[p].pid == ps[q].pid ==> p == q)
            && (ps[q].parent == p ==> ps[q].state != UNUSED)
            && 0 < |ps| && Alive(ps[INIT])
  {
    hide After, IsRun;
    StartInv(n);
    RunKeepsInv(Start(n), es);
    var s := After(Start(n), es);
    assert ProcOk(s, p) && ProcOk(s, q);
  }

  // ----- a life

  /** When a child exits, a parent that sleeps in wait becomes runnable, and its next scan reaps a zombie. */
  lemma WaiterReaps(s: Sys, c: nat, p: nat) returns (q: nat, es: seq<Step>)
    requires Inv(s) && Running(s, c) && s.making[c] == NONE && c != INIT
    requires p < |s.ps| && s.ps[c].parent == p && s.ps[p].state == SLEEPING && s.ps[p].chan == OnProc(p)
    requires s.making[p] == NONE
    ensures es == [Exits(c), Runs(p), Waits(p, Reap(q))] && IsRun(s, es) && |After(s, es).ps| == |s.ps|
    ensures q < |s.ps| && (q == c || s.ps[q].state == ZOMBIE)
    ensures After(s, es).ps[q].state == UNUSED && After(s, es).ps[p].state == RUNNING
  {
    assert ProcOk(s, c);
    var s1 := Next(s, Exits(c));
    assert s1.ps[p].state == RUNNABLE;
    var s2 := Next(s1, Runs(p));
    assert ZombieChild(s2.ps[c], p);
    q := FirstZombieOf(s2.ps, p, c);
    assert q != p;
    hide Next, Enabled, Inv;
    es := RunMore(s2, Waits(p, Reap(q)), []);
    es := RunMore(s1, Runs(p), es);
    es := RunMore(s, Exits(c), es);
  }

  lemma {:induction false} FirstZombieOf(ps: seq<Proc>, p: nat, c: nat) returns (q: nat)
    requires c < |ps| && ZombieChild(ps[c], p)
    ensures FirstZombie(ps, p, q) && q <= c
    decreases c
  {
    if b: nat :| b < c && ZombieChild(ps[b], p) {
      q := FirstZombieOf(ps, p, b);
    } else {
      q := c;
    }
  }

  lemma RunMore(s: Sys, e: Step, es: seq<Step>) returns (all: seq<Step>)
    requires Enabled(s, e) && IsRun(Next(s, e), es)
    ensures all == [e] + es && IsRun(s, all) && After(s, all) == After(Next(s, e), es)
  {
    all := [e] + es;
    assert all[1..] == es;
  }

  /** The first process, about to wait for the child that it has forked. */
  lemma Forked() returns (s1: Sys, s2: Sys, s3: Sys, s4: Sys)
    ensures Enabled(Start(2), Runs(0)) && s1 == Next(Start(2), Runs(0))
    ensures Enabled(s1, ForkAlloc(0, 1)) && s2 == Next(s1, ForkAlloc(0, 1))
    ensures Enabled(s2, ForkParent(0)) && s3 == Next(s2, ForkParent(0))
    ensures Enabled(s3, ForkDone(0)) && s4 == Next(s3, ForkDone(0))
    ensures Inv(s4) && |s4.ps| == 2 && s4.nextpid == 3 && s4.making == [NONE, NONE]
    ensures s4.ps[0] == Proc(RUNNING, 1, NONE, NoChan, false) && s4.ps[1] == Proc(RUNNABLE, 2, 0, NoChan, false)
  {
    s1 := Next(Start(2), Runs(0));
    s2 := Next(s1, ForkAlloc(0, 1));
    s3 := Next(s2, ForkParent(0));
    s4 := Next(s3, ForkDone(0));
    assert s4.making == [NONE, NONE];
    StartInv(2);
    hide Next, Enabled, Inv;
    StepKeepsInv(Start(2), Runs(0));
    StepKeepsInv(s1, ForkAlloc(0, 1));
    StepKeepsInv(s2, ForkParent(0));
    StepKeepsInv(s3, ForkDone(0));
  }

  /** From userinit on: the first process forks, waits, and reaps the child when that has run and exited. */
  lemma Life() returns (es: seq<Step>)
    ensures IsRun(Start(2), es) && |After(Start(2), es).ps| == 2
    ensures After(Start(2), es).ps[0].state == RUNNING && After(Start(2), es).ps[1].state == UNUSED
  {
    var s1, s2, s3, s4 := Forked();
    assert HasKids(s4.ps, 0) && !HasZombie(s4.ps, 0, 2);
    var s5 := Next(s4, Waits(0, Sleep));
    var s6 := Next(s5, Runs(1));
    assert s6.ps[0].state == SLEEPING && s6.ps[0].chan == OnProc(0) && s6.ps[1].parent == 0 && s6.making[1] == NONE;
    StepKeepsInv(s4, Waits(0, Sleep));
    StepKeepsInv(s5, Runs(1));
    hide Next, Enabled, Inv;
    var q;
    q, es := WaiterReaps(s6, 1, 0);
    es := RunMore(s5, Runs(1), es);
    es := RunMore(s4, Waits(0, Sleep), es);
    es := RunMore(s3, ForkDone(0), es);
    es := RunMore(s2, ForkParent(0), es);
    es := RunMore(s1, ForkAlloc(0, 1), es);
    es := RunMore(Start(2), Runs(0), es);
  }
}
