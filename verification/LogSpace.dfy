/** begin_op, log_write and end_op as steps of concurrent operations, one for each section under log.lock.
    log_write makes its panic tests before it takes the lock: its tests and its append are two steps. */
module LogSpace {
  import opened Basics
  import opened Sums

  /** logsize is LOGSIZE, maxop is MAXOPBLOCKS, size is log.size. */
  datatype Params = Params(logsize: nat, maxop: nat, size: int)

  /** Checked: between the tests of log_write and its append. */
  datatype Op = Idle | Running(used: nat) | Checked(used: nat)

  datatype State = State(ops: seq<Op>, outstanding: int, committing: bool, block: seq<nat>, panicked: bool)

  datatype Step =
    | Begin(op: nat)
    | Check(op: nat)
    | Append(op: nat, x: nat)
    | End(op: nat)
    | Clear          // commit() sets lh.n to 0
    | Finish         // end_op clears committing

  function Init(slots: nat): State {
    State(seq(slots, _ => Idle), 0, false, [], false)
  }

  /** A caller keeps its promise to make at most MAXOPBLOCKS calls of log_write. */
  predicate Enabled(p: Params, s: State, e: Step) {
    !s.panicked &&
    match e
    case Begin(i) => i < |s.ops| && s.ops[i].Idle? && !s.committing
                     && |s.block| + (s.outstanding + 1) * p.maxop <= p.logsize
    case Check(i) => i < |s.ops| && s.ops[i].Running? && s.ops[i].used < p.maxop
    case Append(i, _) => i < |s.ops| && s.ops[i].Checked?
    case End(i) => i < |s.ops| && s.ops[i].Running?
    case Clear => s.committing
    case Finish => s.committing && s.block == []
  }

  function Next(p: Params, s: State, e: Step): State
    requires Enabled(p, s, e)
  {
    match e
    case Begin(i) => s.(ops := s.ops[i := Running(0)], outstanding := s.outstanding + 1)
    case Check(i) =>
      if |s.block| >= p.logsize || |s.block| >= p.size - 1 || s.outstanding < 1 then s.(panicked := true)
      else s.(ops := s.ops[i := Checked(s.ops[i].used)])
    case Append(i, x) =>
      s.(ops := s.ops[i := Running(s.ops[i].used + 1)],
         block := if x in s.block then s.block else s.block + [x])
    case End(i) =>
      if s.committing then s.(panicked := true)
      else s.(ops := s.ops[i := Idle], outstanding := s.outstanding - 1, committing := s.outstanding - 1 == 0)
    case Clear => s.(block := [])
    case Finish => s.(committing := false)
  }

  predicate Runs(p: Params, s: State, es: seq<Step>)
    decreases |es|
  {
    es == [] || (Enabled(p, s, es[0]) && Runs(p, Next(p, s, es[0]), es[1..]))
  }

  function After(p: Params, s: State, es: seq<Step>): (t: State)
    requires Runs(p, s, es)
    ensures |t.ops| == |s.ops|
    decreases |es|
  {
    if es == [] then s else After(p, Next(p, s, es[0]), es[1..])
  }

  // ----- the space invariant

  function Active(o: Op): int { if o.Idle? then 0 else 1 }

  /** The log_write calls that an operation may still make. */
  function Unused(p: Params): Op -> int {
    (o: Op) => if o.Idle? then 0 else p.maxop - o.used
  }

  function Reserved(p: Params, s: State): int {
    Sum(Unused(p), s.ops)
  }

  ghost predicate Inv(p: Params, s: State) {
    && !s.panicked
    && s.outstanding == Sum(Active, s.ops)
    && |s.block| + Reserved(p, s) <= p.logsize
    && (forall i :: 0 <= i < |s.ops| ==> !s.ops[i].Idle? ==> s.ops[i].used <= p.maxop)
    && (forall i :: 0 <= i < |s.ops| ==> s.ops[i].Checked? ==> s.ops[i].used < p.maxop)
    && (s.committing ==> s.outstanding == 0)
    && (s.outstanding == 0 && !s.committing ==> s.block == [])
    && (forall i, j :: 0 <= i < j < |s.block| ==> s.block[i] != s.block[j])
  }

  lemma InitInv(p: Params, slots: nat)
    ensures Inv(p, Init(slots))
  {
    SumZero(Active, Init(slots).ops);
    SumZero(Unused(p), Init(slots).ops);
  }

  /** Reserved space never exceeds maxop per active operation. */
  lemma ReservedBound(p: Params, s: State)
    requires Inv(p, s)
    ensures 0 <= Reserved(p, s) <= p.maxop * s.outstanding
  {
    SumNonNegative(Unused(p), s.ops);
    SumBound(Unused(p), Active, p.maxop, s.ops);
  }

  /** What a step does to the counts, when only operation i moves. */
  lemma CountsChange(p: Params, s: State, s': State, i: nat)
    requires i < |s.ops| == |s'.ops| && s'.ops == s.ops[i := s'.ops[i]]
    ensures Sum(Active, s'.ops) == Sum(Active, s.ops) - Active(s.ops[i]) + Active(s'.ops[i])
    ensures Reserved(p, s') == Reserved(p, s) - Unused(p)(s.ops[i]) + Unused(p)(s'.ops[i])
  {
    SumUpdate(Active, s.ops, i, s'.ops[i]);
    SumUpdate(Unused(p), s.ops, i, s'.ops[i]);
  }

  lemma ActiveCounts(p: Params, s: State, i: nat)
    requires Inv(p, s) && i < |s.ops|
    ensures Active(s.ops[i]) <= s.outstanding && 0 <= Unused(p)(s.ops[i]) <= Reserved(p, s)
    ensures Reserved(p, s) <= p.maxop * s.outstanding
  {
    SumAtLeast(Active, s.ops, i);
    SumAtLeast(Unused(p), s.ops, i);
    ReservedBound(p, s);
  }

  /** One step of any interleaving keeps the invariant, and so never panics. */
  lemma StepInv(p: Params, s: State, e: Step)
    requires p.logsize + 1 <= p.size
    requires Inv(p, s) && Enabled(p, s, e)
    ensures Inv(p, Next(p, s, e))
  {
    hide Sum;
    var s' := Next(p, s, e);
    match e
    case Begin(i) =>
      ActiveCounts(p, s, i);
      CountsChange(p, s, s', i);
      assert p.maxop * (s.outstanding + 1) == (s.outstanding + 1) * p.maxop;
      assert p.maxop * (s.outstanding + 1) == p.maxop * s.outstanding + p.maxop;
    case Check(i) =>
      ActiveCounts(p, s, i);
      CountsChange(p, s, s', i);
    case Append(i, x) =>
      ActiveCounts(p, s, i);
      CountsChange(p, s, s', i);
    case End(i) =>
      ActiveCounts(p, s, i);
      CountsChange(p, s, s', i);
    case Clear =>
    case Finish =>
  }

  lemma {:induction false} RunsInv(p: Params, s: State, es: seq<Step>)
    requires p.logsize + 1 <= p.size
    requires Inv(p, s) && Runs(p, s, es)
    ensures Inv(p, After(p, s, es))
    decreases |es|
  {
    if es != [] {
      StepInv(p, s, es[0]);
      RunsInv(p, Next(p, s, es[0]), es[1..]);
    }
  }

  /** In every interleaving log_write and end_op never panic, the log never holds more than
      LOGSIZE blocks with room for what every running operation may still write, and while a
      commit is in progress no operation is running, so it commits whole operations only. When nothing runs
      or is committed, no block is left in the log. */
  lemma SpaceAndIsolation(p: Params, slots: nat, es: seq<Step>)
    requires p.logsize + 1 <= p.size && Runs(p, Init(slots), es)
    ensures var s := After(p, Init(slots), es);
            && !s.panicked
            && |s.block| + Reserved(p, s) <= p.logsize
            && (s.committing ==> forall i :: 0 <= i < slots ==> s.ops[i].Idle?)
            && (s.outstanding == 0 && !s.committing ==> s.block == [])
  {
    InitInv(p, slots);
    RunsInv(p, Init(slots), es);
    var s := After(p, Init(slots), es);
    if s.committing {
      forall i | 0 <= i < slots
        ensures s.ops[i].Idle?
      {
        SumAtLeast(Active, s.ops, i);
      }
    }
  }

  // ----- nobody is kept out for ever

  ghost predicate Reaches(p: Params, s: State, t: State) {
    exists es :: Runs(p, s, es) && After(p, s, es) == t
  }

  lemma {:induction false} RunsConcat(p: Params, s: State, es: seq<Step>, fs: seq<Step>)
    requires Runs(p, s, es) && Runs(p, After(p, s, es), fs)
    ensures Runs(p, s, es + fs) && After(p, s, es + fs) == After(p, After(p, s, es), fs)
    decreases |es|
  {
    if es == [] {
      assert es + fs == fs;
    } else {
      assert (es + fs)[1..] == es[1..] + fs;
      RunsConcat(p, Next(p, s, es[0]), es[1..], fs);
    }
  }

  lemma ReachesStep(p: Params, s: State, t: State, e: Step)
    requires Reaches(p, s, t) && Enabled(p, t, e)
    ensures Reaches(p, s, Next(p, t, e))
  {
    hide Next, Enabled;
    var es :| Runs(p, s, es) && After(p, s, es) == t;
    OneStep(p, t, e);
    RunsConcat(p, s, es, [e]);
  }

  lemma OneStep(p: Params, t: State, e: Step)
    requires Enabled(p, t, e)
    ensures Runs(p, t, [e]) && After(p, t, [e]) == Next(p, t, e)
  {
    hide Next, Enabled;
    var es := [e];
    assert es[0] == e && es[1..] == [];
    assert Runs(p, Next(p, t, e), es[1..]);
    assert After(p, Next(p, t, e), es[1..]) == Next(p, t, e);
  }

  /** What is left before operation i may begin: steps of the operations that are running, then of the
      commit. */
  function Rank(o: Op): int {
    match o
    case Idle => 0
    case Running(_) => 1
    case Checked(_) => 2
  }

  lemma SomeActive(p: Params, s: State) returns (i: nat)
    requires Inv(p, s) && s.outstanding > 0
    ensures i < |s.ops| && !s.ops[i].Idle?
  {
    i := SumPositive(Active, s.ops);
  }

  /** From every state a run leads on to one in which an idle operation is let in: the running ones can
      append what they have checked and end, the last one commits, and the commit empties the log. */
  lemma {:induction false} CanBegin(p: Params, s: State, i: nat) returns (es: seq<Step>)
    requires p.logsize + 1 <= p.size && p.maxop <= p.logsize && Inv(p, s) && i < |s.ops| && s.ops[i].Idle?
    ensures Runs(p, s, es) && Enabled(p, After(p, s, es), Begin(i))
    decreases Sum(Rank, s.ops), s.committing, |s.block|
  {
    hide Sum, Runs, After;
    RanksPositive(s);
    var e;
    if s.committing {
      e := if s.block == [] then Finish else Clear;
    } else if s.outstanding > 0 {
      var j := SomeActive(p, s);
      e := if s.ops[j].Checked? then Append(j, 0) else End(j);
      SumUpdate(Rank, s.ops, j, Next(p, s, e).ops[j]);
    } else {
      es := [];
      NoStep(p, s);
      SumNonNegative(Active, s.ops);
      assert (s.outstanding + 1) * p.maxop == p.maxop;
      return;
    }
    StepInv(p, s, e);
    RanksPositive(Next(p, s, e));
    var more := CanBegin(p, Next(p, s, e), i);
    OneStep(p, s, e);
    RunsConcat(p, s, [e], more);
    es := [e] + more;
  }

  lemma NoStep(p: Params, s: State)
    ensures Runs(p, s, []) && After(p, s, []) == s
  {
  }

  lemma RanksPositive(s: State)
    ensures 0 <= Sum(Rank, s.ops)
  {
    SumNonNegative(Rank, s.ops);
  }

  // ----- and the log must really be that large

  function Clamp(x: int, m: nat): nat {
    if x < 0 then 0 else if x > m then m else x
  }

  /** k operations running, having logged n blocks between them, the first ones most. */
  function Filled(p: Params, slots: nat, k: nat, n: nat): State {
    State(seq(slots, j => if j < k then Running(Clamp(n - j * p.maxop, p.maxop)) else Idle),
          k, false, seq(n, i => i), false)
  }

  lemma {:induction false} ReachBegun(p: Params, slots: nat, k: nat)
    requires k <= slots && k * p.maxop <= p.logsize
    ensures Reaches(p, Init(slots), Filled(p, slots, k, 0))
  {
    if k == 0 {
      assert Runs(p, Init(slots), []) && After(p, Init(slots), []) == Init(slots);
      assert Init(slots) == Filled(p, slots, 0, 0);
    } else {
      hide Reaches;
      Times(k - 1, k, p.maxop);
      ReachBegun(p, slots, k - 1);
      BeginOne(p, slots, k);
      ReachesStep(p, Init(slots), Filled(p, slots, k - 1, 0), Begin(k - 1));
    }
  }

  lemma BeginOne(p: Params, slots: nat, k: nat)
    requires 0 < k <= slots && k * p.maxop <= p.logsize
    ensures var t := Filled(p, slots, k - 1, 0);
            Enabled(p, t, Begin(k - 1)) && Next(p, t, Begin(k - 1)) == Filled(p, slots, k, 0)
  {
    forall j | 0 <= j < k
      ensures Clamp(0 - j * p.maxop, p.maxop) == 0
    {
      Times(0, j, p.maxop);
    }
  }

  /** Block n is logged by operation n / maxop. */
  lemma FillOne(p: Params, slots: nat, k: nat, n: nat)
    requires 0 < p.maxop && k <= slots && n < k * p.maxop
    ensures var t, i := Filled(p, slots, k, n), n / p.maxop;
            && i < k && t.ops[i] == Running(n % p.maxop)
            && Filled(p, slots, k, n + 1).ops == t.ops[i := Running(n % p.maxop + 1)]
  {
    var m, i := p.maxop, n / p.maxop;
    DivLess(n, m, k);
    forall j | 0 <= j < k && j != i
      ensures Clamp(n - j * m, m) == Clamp(n + 1 - j * m, m)
    {
      ClampElsewhere(i, m, n % m, j);
    }
  }

  lemma DivLess(n: nat, m: nat, k: nat)
    requires 0 < m && n < k * m
    ensures n / m < k && n == n / m * m + n % m
  {
    if n / m >= k {
      Times(k, n / m, m);
    }
  }

  lemma ClampElsewhere(i: nat, m: nat, r: nat, j: nat)
    requires r < m && i != j
    ensures Clamp(i * m + r - j * m, m) == Clamp(i * m + r + 1 - j * m, m)
  {
    if j < i {
      Times(j + 1, i, m);
    } else {
      Times(i + 1, j, m);
    }
  }

  lemma {:induction false} ReachFilled(p: Params, slots: nat, k: nat, n: nat)
    requires 0 < p.maxop && k <= slots && k * p.maxop <= p.logsize
    requires n <= k * p.maxop && n <= p.size - 1
    ensures Reaches(p, Init(slots), Filled(p, slots, k, n))
  {
    hide Reaches;
    if n == 0 {
      ReachBegun(p, slots, k);
    } else {
      ReachFilled(p, slots, k, n - 1);
      var t, i := Filled(p, slots, k, n - 1), (n - 1) / p.maxop;
      CheckAndAppend(p, slots, k, n - 1);
      ReachesStep(p, Init(slots), t, Check(i));
      ReachesStep(p, Init(slots), Next(p, t, Check(i)), Append(i, n - 1));
    }
  }

  lemma CheckAndAppend(p: Params, slots: nat, k: nat, n: nat)
    requires 0 < p.maxop && k <= slots && k * p.maxop <= p.logsize && n < k * p.maxop && n < p.size - 1
    ensures var t, i := Filled(p, slots, k, n), n / p.maxop;
            && Enabled(p, t, Check(i))
            && Enabled(p, Next(p, t, Check(i)), Append(i, n))
            && Next(p, Next(p, t, Check(i)), Append(i, n)) == Filled(p, slots, k, n + 1)
  {
    FillOne(p, slots, k, n);
    hide Clamp;
    var t, i := Filled(p, slots, k, n), n / p.maxop;
    assert n !in t.block;
    assert t.block + [n] == seq(n + 1, j => j);
  }

  lemma CheckPanics(p: Params, slots: nat, k: nat, n: nat)
    requires 0 < p.maxop && 0 < k <= slots && n < k * p.maxop && n >= p.size - 1
    ensures var t, i := Filled(p, slots, k, n), n / p.maxop;
            Enabled(p, t, Check(i)) && Next(p, t, Check(i)).panicked
  {
    FillOne(p, slots, k, n);
  }

  lemma PanicReachable(p: Params, slots: nat, k: nat)
    requires 0 < p.maxop && 0 < k <= slots && p.logsize == k * p.maxop && p.size <= p.logsize
    ensures exists t :: Reaches(p, Init(slots), t) && t.panicked
  {
    hide Reaches;
    var n := if p.size <= 1 then 0 else p.size - 1;
    if p.size <= 0 {
      ReachBegun(p, slots, k);
    } else {
      ReachFilled(p, slots, k, n);
    }
    Times(1, k, p.maxop);
    CheckPanics(p, slots, k, n);
    ReachesStep(p, Init(slots), Filled(p, slots, k, n), Check(n / p.maxop));
  }

  /** With LOGSIZE a multiple of MAXOPBLOCKS, as param.h makes it, and enough processes, a
      panic is reachable exactly if the log area has at most LOGSIZE blocks (header included). */
  lemma PanicIff(p: Params, slots: nat, k: nat)
    requires 0 < p.maxop && 0 < k <= slots && p.logsize == k * p.maxop
    ensures (exists t :: Reaches(p, Init(slots), t) && t.panicked) <==> p.size <= p.logsize
  {
    if p.logsize + 1 <= p.size {
      forall t | Reaches(p, Init(slots), t)
        ensures !t.panicked
      {
        var es :| Runs(p, Init(slots), es) && After(p, Init(slots), es) == t;
        SpaceAndIsolation(p, slots, es);
      }
    } else {
      PanicReachable(p, slots, k);
    }
  }
}
