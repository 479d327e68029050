/** sleep and wakeup (ex4/xv6/proc.c:418-474) for any condition on data under a spin lock lk: waiters loop
    while it is false, and whoever makes it true calls wakeup before giving up lk. */
module Wakeups {
  /** Where a thread is: inside lk's critical section; in sleep, wanting ptable.lock, with both locks,
      with ptable.lock only; asleep; woken and wanting lk again; in wakeup, with both locks. Busy holds
      ptable.lock for something else. */
  datatype Pc = Out | Inside | Wanting | Both | Parking | Asleep | Woken | Waking | Busy

  const NOBODY: int := -1

  /** Who holds the two spin locks, the data, and whether the holder of lk has yet to call wakeup. */
  datatype State<D> = State(pcs: seq<Pc>, lk: int, pt: int, data: D, owes: bool)

  datatype Step<D> =
    | Acquire(t: nat) | Change(t: nat, d: D) | Release(t: nat)
    | CallSleep(t: nat) | TakePtable(t: nat) | DropLk(t: nat) | Sched(t: nat) | Reacquire(t: nat)
    | CallWakeup(t: nat) | WakeAll(t: nat)
    | TakeOther(t: nat) | DropOther(t: nat) | Kill(t: nat)

  function Init<D>(n: nat, d: D): State<D> {
    State(seq(n, _ => Out), NOBODY, NOBODY, d, false)
  }

  predicate At<D>(s: State<D>, t: nat, pc: Pc) {
    t < |s.pcs| && s.pcs[t] == pc
  }

  /** The discipline is in Release and CallSleep: lk is given up only when no wakeup is owed, and a
      thread sleeps only while the condition is false. */
  predicate Enabled<D>(ready: D -> bool, s: State<D>, e: Step<D>) {
    match e
    case Acquire(t) => At(s, t, Out) && s.lk == NOBODY
    case Change(t, _) => At(s, t, Inside)
    case Release(t) => At(s, t, Inside) && !s.owes
    case CallSleep(t) => At(s, t, Inside) && !s.owes && !ready(s.data)
    case TakePtable(t) => At(s, t, Wanting) && s.pt == NOBODY
    case DropLk(t) => At(s, t, Both)
    case Sched(t) => At(s, t, Parking)
    case Reacquire(t) => At(s, t, Woken) && s.lk == NOBODY
    case CallWakeup(t) => At(s, t, Inside) && s.pt == NOBODY
    case WakeAll(t) => At(s, t, Waking)
    case TakeOther(t) => At(s, t, Out) && s.pt == NOBODY
    case DropOther(t) => At(s, t, Busy)
    case Kill(t) => At(s, t, Asleep) && s.pt == NOBODY
  }

  function Awake(pcs: seq<Pc>): (r: seq<Pc>)
    ensures |r| == |pcs| && forall t :: 0 <= t < |pcs| ==> r[t] == if pcs[t] == Asleep then Woken else pcs[t]
  {
    seq(|pcs|, t requires 0 <= t < |pcs| => if pcs[t] == Asleep then Woken else pcs[t])
  }

  function Next<D>(ready: D -> bool, s: State<D>, e: Step<D>): State<D>
    requires Enabled(ready, s, e)
  {
    match e
    case Acquire(t) => s.(pcs := s.pcs[t := Inside], lk := t)
    case Change(_, d) => s.(data := d, owes := s.owes || (ready(d) && !ready(s.data)))
    case Release(t) => s.(pcs := s.pcs[t := Out], lk := NOBODY)
    case CallSleep(t) => s.(pcs := s.pcs[t := Wanting])
    case TakePtable(t) => s.(pcs := s.pcs[t := Both], pt := t)
    case DropLk(t) => s.(pcs := s.pcs[t := Parking], lk := NOBODY)
    case Sched(t) => s.(pcs := s.pcs[t := Asleep], pt := NOBODY)
    case Reacquire(t) => s.(pcs := s.pcs[t := Inside], lk := t)
    case CallWakeup(t) => s.(pcs := s.pcs[t := Waking], pt := t)
    case WakeAll(t) => s.(pcs := Awake(s.pcs)[t := Inside], pt := NOBODY, owes := false)
    case TakeOther(t) => s.(pcs := s.pcs[t := Busy], pt := t)
    case DropOther(t) => s.(pcs := s.pcs[t := Out], pt := NOBODY)
    case Kill(t) => s.(pcs := s.pcs[t := Woken])
  }

  predicate Runs<D>(ready: D -> bool, s: State<D>, es: seq<Step<D>>)
    decreases |es|
  {
    es == [] || (Enabled(ready, s, es[0]) && Runs(ready, Next(ready, s, es[0]), es[1..]))
  }

  function After<D>(ready: D -> bool, s: State<D>, es: seq<Step<D>>): State<D>
    requires Runs(ready, s, es)
    decreases |es|
  {
    if es == [] then s else After(ready, Next(ready, s, es[0]), es[1..])
  }

  predicate HoldsLk(pc: Pc) {
    pc == Inside || pc == Wanting || pc == Both || pc == Waking
  }

  predicate HoldsPt(pc: Pc) {
    pc == Both || pc == Parking || pc == Waking || pc == Busy
  }

  predicate ThreadOk<D>(ready: D -> bool, s: State<D>, t: nat)
    requires t < |s.pcs|
  {
    var pc := s.pcs[t];
    && (HoldsLk(pc) <==> s.lk == t)
    && (HoldsPt(pc) <==> s.pt == t)
    && (pc == Wanting || pc == Both ==> !ready(s.data) && !s.owes)
    && (pc == Parking || pc == Asleep ==> !ready(s.data) || s.owes)
  }

  ghost predicate Inv<D>(ready: D -> bool, s: State<D>) {
    && -1 <= s.lk < |s.pcs| && -1 <= s.pt < |s.pcs| && (s.owes ==> s.lk != NOBODY)
    && forall t: nat :: t < |s.pcs| ==> ThreadOk(ready, s, t)
  }

  lemma StepKeepsInv<D>(ready: D -> bool, s: State<D>, e: Step<D>)
    requires Inv(ready, s) && Enabled(ready, s, e)
    ensures Inv(ready, Next(ready, s, e)) && |Next(ready, s, e).pcs| == |s.pcs|
  {
    var s' := Next(ready, s, e);
    assert ThreadOk(ready, s, e.t);
    forall t: nat | t < |s'.pcs|
      ensures ThreadOk(ready, s', t)
    {
      assert ThreadOk(ready, s, t);
    }
  }

  lemma {:induction false} RunKeepsInv<D>(ready: D -> bool, s: State<D>, es: seq<Step<D>>)
    requires Inv(ready, s) && Runs(ready, s, es)
    ensures Inv(ready, After(ready, s, es)) && |After(ready, s, es).pcs| == |s.pcs|
    decreases |es|
  {
    hide Inv, Next, Enabled;
    if es != [] {
      StepKeepsInv(ready, s, es[0]);
      RunKeepsInv(ready, Next(ready, s, es[0]), es[1..]);
    }
  }

  /** In every run, whenever lk is free, nobody sleeps, or is about to, although the condition holds; and
      a thread that has both locks in sleep has not been overtaken by a change. */
  lemma NoneMissed<D>(ready: D -> bool, n: nat, d: D, es: seq<Step<D>>, t: nat)
    requires Runs(ready, Init(n, d), es) && t < n
    ensures var s := After(ready, Init(n, d), es);
            && |s.pcs| == n
            && (s.lk == NOBODY && (s.pcs[t] == Asleep || s.pcs[t] == Parking) ==> !ready(s.data))
            && (s.pcs[t] == Wanting || s.pcs[t] == Both ==> !ready(s.data))
  {
    hide Next, Enabled;
    RunKeepsInv(ready, Init(n, d), es);
    assert ThreadOk(ready, After(ready, Init(n, d), es), t);
  }

  /** Nor is anybody left asleep by a wakeup: right after it, no thread sleeps. */
  lemma WakeupWakes<D>(ready: D -> bool, n: nat, d: D, es: seq<Step<D>>, u: nat, t: nat)
    requires Runs(ready, Init(n, d), es) && t < n
    requires Enabled(ready, After(ready, Init(n, d), es), WakeAll(u))
    ensures var s := Next(ready, After(ready, Init(n, d), es), WakeAll(u));
            |s.pcs| == n && s.pcs[t] != Asleep && s.pcs[t] != Parking
  {
    RunKeepsInv(ready, Init(n, d), es);
    var s := After(ready, Init(n, d), es);
    assert ThreadOk(ready, s, t) && ThreadOk(ready, s, u);
  }
}
