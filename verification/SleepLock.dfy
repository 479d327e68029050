/** Sleep locks (ex4/xv6/sleeplock.c) over sleep and wakeup (ex4/xv6/proc.c:418-474), one lock
    operation at a time: the spin lock lk guards the flag, ptable.lock guards sleeping. */
module SleepLock {
  /** Where a thread is. In acquiresleep: has lk and tests the flag; has lk and wants ptable.lock;
      has both; has ptable.lock only; asleep; woken and wanting lk again. Owner has the sleep lock.
      In releasesleep: has lk; has cleared the flag and wants ptable.lock; has both and wakes the
      sleepers; has lk again. Busy holds ptable.lock for something else. */
  datatype Pc = Out | Testing | Wanting | Both | Parking | Asleep | Woken | Owner
              | Clearing | Cleared | Waking | Leaving | Busy

  const NOBODY: int := -1

  /** Who holds the two spin locks, the flag, and whose the sleep lock is. */
  datatype State = State(pcs: seq<Pc>, lk: int, pt: int, locked: bool, owner: int)

  datatype Step =
    | Acquire(t: nat) | Test(t: nat) | TakePtable(t: nat) | DropLk(t: nat) | Sched(t: nat) | Reacquire(t: nat)
    | Release(t: nat) | Clear(t: nat) | Wakeup(t: nat) | Leave(t: nat)
    | TakeOther(t: nat) | DropOther(t: nat) | Kill(t: nat)

  function Init(n: nat): State {
    State(seq(n, _ => Out), NOBODY, NOBODY, false, NOBODY)
  }

  predicate At(s: State, t: nat, pc: Pc) {
    t < |s.pcs| && s.pcs[t] == pc
  }

  predicate Enabled(s: State, e: Step) {
    match e
    case Acquire(t) => At(s, t, Out) && s.lk == NOBODY
    case Test(t) => At(s, t, Testing)
    case TakePtable(t) => (At(s, t, Wanting) || At(s, t, Cleared)) && s.pt == NOBODY
    case DropLk(t) => At(s, t, Both)
    case Sched(t) => At(s, t, Parking)
    case Reacquire(t) => At(s, t, Woken) && s.lk == NOBODY
    case Release(t) => At(s, t, Owner) && s.lk == NOBODY
    case Clear(t) => At(s, t, Clearing)
    case Wakeup(t) => At(s, t, Waking)
    case Leave(t) => At(s, t, Leaving)
    case TakeOther(t) => At(s, t, Out) && s.pt == NOBODY
    case DropOther(t) => At(s, t, Busy)
    case Kill(t) => At(s, t, Asleep) && s.pt == NOBODY
  }

  function WakeAll(pcs: seq<Pc>): (r: seq<Pc>)
    ensures |r| == |pcs| && forall t :: 0 <= t < |pcs| ==> r[t] == if pcs[t] == Asleep then Woken else pcs[t]
  {
    seq(|pcs|, t requires 0 <= t < |pcs| => if pcs[t] == Asleep then Woken else pcs[t])
  }

  function Next(s: State, e: Step): State
    requires Enabled(s, e)
  {
    match e
    case Acquire(t) => s.(pcs := s.pcs[t := Testing], lk := t)
    case Test(t) =>
      if s.locked then s.(pcs := s.pcs[t := Wanting])
      else State(s.pcs[t := Owner], NOBODY, s.pt, true, t)
    case TakePtable(t) => s.(pcs := s.pcs[t := if s.pcs[t] == Wanting then Both else Waking], pt := t)
    case DropLk(t) => s.(pcs := s.pcs[t := Parking], lk := NOBODY)
    case Sched(t) => s.(pcs := s.pcs[t := Asleep], pt := NOBODY)
    case Reacquire(t) => s.(pcs := s.pcs[t := Testing], lk := t)
    case Release(t) => s.(pcs := s.pcs[t := Clearing], lk := t)
    case Clear(t) => s.(pcs := s.pcs[t := Cleared], locked := false, owner := NOBODY)
    case Wakeup(t) => s.(pcs := WakeAll(s.pcs)[t := Leaving], pt := NOBODY)
    case Leave(t) => s.(pcs := s.pcs[t := Out], lk := NOBODY)
    case TakeOther(t) => s.(pcs := s.pcs[t := Busy], pt := t)
    case DropOther(t) => s.(pcs := s.pcs[t := Out], pt := NOBODY)
    case Kill(t) => s.(pcs := s.pcs[t := Woken])
  }

  predicate Runs(s: State, es: seq<Step>)
    decreases |es|
  {
    es == [] || (Enabled(s, es[0]) && Runs(Next(s, es[0]), es[1..]))
  }

  function After(s: State, es: seq<Step>): State
    requires Runs(s, es)
    decreases |es|
  {
    if es == [] then s else After(Next(s, es[0]), es[1..])
  }

  // ----- the invariant

  predicate HoldsLk(pc: Pc) {
    pc == Testing || pc == Wanting || pc == Both || pc == Clearing || pc == Cleared || pc == Waking || pc == Leaving
  }

  predicate HoldsPt(pc: Pc) {
    pc == Both || pc == Parking || pc == Waking || pc == Busy
  }

  /** The thread that has lk has cleared the flag and has not woken the sleepers yet. */
  predicate AboutToWake(s: State) {
    0 <= s.lk < |s.pcs| && (s.pcs[s.lk] == Cleared || s.pcs[s.lk] == Waking)
  }

  predicate ThreadOk(s: State, t: nat)
    requires t < |s.pcs|
  {
    var pc := s.pcs[t];
    && (HoldsLk(pc) <==> s.lk == t)
    && (HoldsPt(pc) <==> s.pt == t)
    && (pc == Owner || pc == Clearing <==> s.owner == t)
    && (pc == Wanting || pc == Both ==> s.locked)
    && (pc == Parking || pc == Asleep ==> s.locked || AboutToWake(s))
    && (pc == Cleared || pc == Waking ==> !s.locked)
  }

  ghost predicate Inv(s: State) {
    && (s.locked <==> s.owner != NOBODY)
    && -1 <= s.lk < |s.pcs| && -1 <= s.pt < |s.pcs| && -1 <= s.owner < |s.pcs|
    && forall t: nat :: t < |s.pcs| ==> ThreadOk(s, t)
  }

  lemma StepKeepsInv(s: State, e: Step)
    requires Inv(s) && Enabled(s, e)
    ensures Inv(Next(s, e))
  {
    var s' := Next(s, e);
    assert ThreadOk(s, e.t);
    if s.lk != NOBODY {
      assert ThreadOk(s, s.lk);
    }
    forall t: nat | t < |s'.pcs|
      ensures ThreadOk(s', t)
    {
      assert ThreadOk(s, t);
    }
  }

  lemma {:induction false} RunKeepsInv(s: State, es: seq<Step>)
    requires Inv(s) && Runs(s, es)
    ensures Inv(After(s, es))
    decreases |es|
  {
    hide Inv, Next, Enabled;
    if es != [] {
      StepKeepsInv(s, es[0]);
      RunKeepsInv(Next(s, es[0]), es[1..]);
    }
  }

  /** In every run at most one thread has the sleep lock, and whenever lk is free, a sleeper implies
      that the lock is held: no wake-up has been missed. */
  lemma NoMissedWakeup(n: nat, es: seq<Step>, t: nat, u: nat)
    requires Runs(Init(n), es) && t < n && u < n
    ensures var s := After(Init(n), es);
            && |s.pcs| == n
            && (s.pcs[t] == Owner && s.pcs[u] == Owner ==> t == u)
            && (s.pcs[t] == Owner ==> s.locked)
            && (s.lk == NOBODY && s.pcs[t] == Asleep ==> s.locked)
  {
    hide Next, Enabled;
    RunKeepsInv(Init(n), es);
    SameThreads(Init(n), es);
    var s := After(Init(n), es);
    assert ThreadOk(s, t) && ThreadOk(s, u);
  }

  lemma {:induction false} SameThreads(s: State, es: seq<Step>)
    requires Runs(s, es)
    ensures |After(s, es).pcs| == |s.pcs|
    decreases |es|
  {
    if es != [] {
      SameThreads(Next(s, es[0]), es[1..]);
    }
  }

  /** Without the order of locks in sleep the wake-up could be missed: had the sleeper dropped lk
      before it took ptable.lock, the owner could clear the flag and wake in between. The state that
      this would lead to is one that no run reaches. */
  lemma StrandedIsUnreachable(n: nat, es: seq<Step>, s: State)
    requires Runs(Init(n), es) && After(Init(n), es) == s
    ensures s.lk == NOBODY && !s.locked ==> forall t :: 0 <= t < |s.pcs| ==> s.pcs[t] != Asleep && s.pcs[t] != Parking
  {
    hide Next, Enabled;
    RunKeepsInv(Init(n), es);
    forall t: nat | t < |s.pcs|
      ensures s.lk == NOBODY && !s.locked ==> s.pcs[t] != Asleep && s.pcs[t] != Parking
    {
      assert ThreadOk(s, t);
    }
  }

  /** A sleeper can get the lock from its owner: the owner releases it and wakes the sleeper, which takes
      lk again, finds the flag clear and has the lock. */
  lemma Handover(s: State, t: nat, u: nat) returns (es: seq<Step>)
    requires Inv(s) && At(s, t, Owner) && At(s, u, Asleep) && s.lk == NOBODY && s.pt == NOBODY
    ensures Runs(s, es) && After(s, es).owner == u && At(After(s, es), u, Owner) && At(After(s, es), t, Out)
    ensures After(s, es).locked && After(s, es).lk == NOBODY && After(s, es).pt == NOBODY
  {
    var s1 := Next(Next(s, Release(t)), Clear(t));
    var s2 := Next(Next(s1, TakePtable(t)), Wakeup(t));
    var s3 := Next(s2, Leave(t));
    var s4 := Next(s3, Reacquire(u));
    var s5 := Next(s4, Test(u));
    assert At(s2, u, Woken) && At(s2, t, Leaving) && At(s4, u, Testing) && !s4.locked;
    hide Next, Enabled;
    es := [];
    es := RunsMore(s4, Test(u), es);
    es := RunsMore(s3, Reacquire(u), es);
    es := RunsMore(s2, Leave(t), es);
    es := RunsMore(Next(s1, TakePtable(t)), Wakeup(t), es);
    es := RunsMore(s1, TakePtable(t), es);
    es := RunsMore(Next(s, Release(t)), Clear(t), es);
    es := RunsMore(s, Release(t), es);
  }

  lemma RunsMore(s: State, e: Step, es: seq<Step>) returns (all: seq<Step>)
    requires Enabled(s, e) && Runs(Next(s, e), es)
    ensures Runs(s, all) && After(s, all) == After(Next(s, e), es)
  {
    all := [e] + es;
    assert all[1..] == es;
  }
}
