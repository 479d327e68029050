/** Pipes (ex4/xv6/pipe.c): a byte queue in a ring with 32-bit counters, and the readers and writers
    that sleep on it. What runs under the pipe's lock is one step. */
module Pipe {
  const PIPESIZE: nat := 512
  const WORD: nat := 0x1_0000_0000

  type byte = x: int | 0 <= x < 256

  /** How a stretch under the lock ends: asleep, returning -1, or with the call done. */
  datatype Outcome = Slept | Failed | Finished

  // ----- the ring

  /** The counters are mod 2^32 and PIPESIZE divides 2^32, so a wrapped counter indexes the same byte. */
  lemma Wrapped(x: nat)
    ensures x % WORD % PIPESIZE == x % PIPESIZE
  {
    var q := x / WORD;
    assert x == WORD * q + x % WORD;
    assert WORD == PIPESIZE * 0x80_0000;
    assert x == PIPESIZE * (0x80_0000 * q) + x % WORD;
    ModAdd(0x80_0000 * q, x % WORD);
  }

  lemma ModAdd(k: nat, y: nat)
    ensures (PIPESIZE * k + y) % PIPESIZE == y % PIPESIZE
  {
    var q := y / PIPESIZE;
    assert PIPESIZE * k + y == PIPESIZE * (k + q) + y % PIPESIZE;
  }

  /** The counters' distance mod 2^32. */
  function Length(r: nat, w: nat): nat {
    (w - r) % WORD
  }

  /** The place of the byte that is written or read next but j. */
  function Place(x: nat, j: nat): (p: nat)
    ensures p < PIPESIZE
  {
    (x + j) % PIPESIZE
  }

  /** The bytes between the two counters. */
  function Queue(d: seq<byte>, r: nat, w: nat): (q: seq<byte>)
    requires |d| == PIPESIZE
    ensures |q| == Length(r, w)
  {
    seq(Length(r, w), j requires 0 <= j < Length(r, w) => d[Place(r, j)])
  }

  lemma LengthIs(r: nat, w: nat)
    requires r < WORD && w < WORD
    ensures Length(r, w) == if r <= w then w - r else w - r + WORD
    ensures r == w <==> Length(r, w) == 0
    ensures w == (r + PIPESIZE) % WORD <==> Length(r, w) == PIPESIZE
    ensures Length(r, w) < WORD - 1 ==> Length(r, (w + 1) % WORD) == Length(r, w) + 1
    ensures r != w ==> Length((r + 1) % WORD, w) == Length(r, w) - 1
  {
  }

  lemma Push(d: seq<byte>, r: nat, w: nat, x: byte)
    requires |d| == PIPESIZE && r < WORD && w < WORD && Length(r, w) < PIPESIZE
    ensures Queue(d[w % PIPESIZE := x], r, (w + 1) % WORD) == Queue(d, r, w) + [x]
  {
    hide Length, Place;
    LengthIs(r, w);
    var n := Length(r, w);
    LastPlace(r, w);
    var q, q' := Queue(d, r, w), Queue(d[w % PIPESIZE := x], r, (w + 1) % WORD);
    forall j: nat | j < n
      ensures q'[j] == q[j]
    {
      PlacesDiffer(r, j, n);
    }
    assert q'[n] == x;
  }

  lemma LastPlace(r: nat, w: nat)
    requires r < WORD && w < WORD
    ensures w % PIPESIZE == Place(r, Length(r, w))
  {
    LengthIs(r, w);
    Wrapped(r + Length(r, w));
  }

  /** Two of PIPESIZE consecutive places are the same only if they are one. */
  lemma PlacesDiffer(x: nat, j: nat, k: nat)
    requires j < k < j + PIPESIZE
    ensures Place(x, j) != Place(x, k)
  {
  }

  lemma Pop(d: seq<byte>, r: nat, w: nat)
    requires |d| == PIPESIZE && r < WORD && w < WORD && r != w
    ensures Queue(d, r, w) == [d[r % PIPESIZE]] + Queue(d, (r + 1) % WORD, w)
  {
    hide Length, Place;
    LengthIs(r, w);
    NextPlace(r, 0);
    var q, q' := Queue(d, r, w), Queue(d, (r + 1) % WORD, w);
    assert q[0] == d[r % PIPESIZE];
    forall j: nat | j < |q'|
      ensures q'[j] == q[j + 1]
    {
      NextPlace(r, j);
    }
  }

  lemma NextPlace(r: nat, j: nat)
    ensures Place(r, 0) == r % PIPESIZE
    ensures Place((r + 1) % WORD, j) == Place(r, j + 1)
  {
    Wrapped(r + 1);
    var y := (r + 1) % WORD;
    ModSum(y, j);
    ModSum(r + 1, j);
  }

  lemma ModSum(x: nat, j: nat)
    ensures (x + j) % PIPESIZE == (x % PIPESIZE + j) % PIPESIZE
  {
    assert x + j == PIPESIZE * (x / PIPESIZE) + (x % PIPESIZE + j);
    ModAdd(x / PIPESIZE, x % PIPESIZE + j);
  }

  class Pipe {
    const data: array<byte>
    var nread: nat
    var nwrite: nat
    var readopen: bool
    var writeopen: bool

    ghost predicate Valid()
      reads this
    {
      data.Length == PIPESIZE && nread < WORD && nwrite < WORD && Length(nread, nwrite) <= PIPESIZE
    }

    /** The bytes that have been written and not yet read. */
    ghost function Buffered(): (b: seq<byte>)
      requires data.Length == PIPESIZE
      reads this, data
      ensures |b| == Length(nread, nwrite)
    {
      Queue(data[..], nread, nwrite)
    }

    constructor ()
      ensures Valid() && fresh(data) && Buffered() == [] && readopen && writeopen
    {
      data := new byte[PIPESIZE](_ => 0);
      nread, nwrite, readopen, writeopen := 0, 0, true, true;
    }

    /** pipewrite from byte i0 on, until it sleeps or returns (pipe.c:84-97): takes as many bytes as
        there is room for. */
    method WriteSection(src: seq<byte>, i0: nat, killed: bool) returns (i: nat, out: Outcome)
      requires Valid() && i0 <= |src|
      modifies this`nwrite, data
      ensures Valid()
      ensures i == i0 + Taken(|old(Buffered())|, |src| - i0)
      ensures Buffered() == old(Buffered()) + src[i0..i]
      ensures out == WriteOutcome(i, |src|, readopen, killed)
      ensures i0 <= i <= |src| && (out.Finished? <==> i == |src|)
      ensures out.Slept? <==> i < |src| && readopen && !killed
      ensures i < |src| ==> |Buffered()| == PIPESIZE
    {
      hide Queue, Length;
      i := i0;
      assert src[i0..i] == [];
      while i < |src|
        invariant Valid() && i0 <= i <= |src| && Buffered() == old(Buffered()) + src[i0..i]
      {
        LengthIs(nread, nwrite);
        if nwrite == (nread + PIPESIZE) % WORD {
          if !readopen || killed {
            return i, Failed;
          }
          return i, Slept;
        }
        ghost var d := data[..];
        Push(d, nread, nwrite, src[i]);
        data[nwrite % PIPESIZE] := src[i];
        assert data[..] == d[nwrite % PIPESIZE := src[i]];
        nwrite := (nwrite + 1) % WORD;
        assert src[i0..i + 1] == src[i0..i] + [src[i]];
        i := i + 1;
      }
      out := Finished;
    }

    /** piperead from its lock to its sleep or return (pipe.c:106-120): takes the oldest bytes, as many
        as there are and as were asked for. */
    method ReadSection(n: nat, killed: bool) returns (got: seq<byte>, out: Outcome)
      requires Valid()
      modifies this`nread
      ensures Valid()
      ensures out == ReadOutcome(|old(Buffered())|, writeopen, killed)
      ensures |got| == if out.Finished? then Given(|old(Buffered())|, n) else 0
      ensures got + Buffered() == old(Buffered())
      ensures out.Slept? <==> old(Buffered()) == [] && writeopen && !killed
      ensures out.Failed? <==> old(Buffered()) == [] && writeopen && killed
      ensures out.Finished? ==> |got| <= n && (|got| == n || Buffered() == [])
    {
      hide Queue, Length;
      LengthIs(nread, nwrite);
      got := [];
      if nread == nwrite && writeopen {
        if killed {
          return [], Failed;
        }
        return [], Slept;
      }
      var i := 0;
      while i < n
        invariant Valid() && |got| == i <= n && got + Buffered() == old(Buffered())
      {
        LengthIs(nread, nwrite);
        if nread == nwrite {
          break;
        }
        Pop(data[..], nread, nwrite);
        got := got + [data[nread % PIPESIZE]];
        nread := (nread + 1) % WORD;
        i := i + 1;
      }
      LengthIs(nread, nwrite);
      out := Finished;
    }
  }

  /** How many of n bytes fit into a pipe that holds len. */
  function Taken(len: nat, n: nat): nat
    requires len <= PIPESIZE
  {
    if n <= PIPESIZE - len then n else PIPESIZE - len
  }

  function WriteOutcome(i: nat, n: nat, readopen: bool, killed: bool): Outcome {
    if i >= n then Finished else if !readopen || killed then Failed else Slept
  }

  function Given(len: nat, n: nat): nat {
    if n <= len then n else len
  }

  function ReadOutcome(len: nat, writeopen: bool, killed: bool): Outcome {
    if len == 0 && writeopen then (if killed then Failed else Slept) else Finished
  }

  // ----- readers and writers

  /** A thread outside the pipe, in pipewrite with byte i next, or in piperead. */
  datatype Thread = Idle | Writing(src: seq<byte>, i: nat, asleep: bool) | Reading(n: nat, asleep: bool)

  /** The pipe between two stretches under its lock, and what has gone in and come out so far. */
  datatype State = State(buf: seq<byte>, readopen: bool, writeopen: bool, threads: seq<Thread>, killed: set<nat>,
                         accepted: seq<byte>, consumed: seq<byte>)

  datatype Step =
    | CallWrite(t: nat, src: seq<byte>) | CallRead(t: nat, n: nat)
    | Run(t: nat) | CloseRead | CloseWrite | Kill(t: nat)

  function Init(n: nat): State {
    State([], true, true, seq(n, _ => Idle), {}, [], [])
  }

  /** A call keeps its end of the pipe open. */
  predicate Enabled(s: State, e: Step) {
    match e
    case CallWrite(t, src) => t < |s.threads| && s.threads[t] == Idle && s.writeopen
    case CallRead(t, n) => t < |s.threads| && s.threads[t] == Idle && s.readopen
    case Run(t) => t < |s.threads| && |s.buf| <= PIPESIZE && s.threads[t] != Idle && !s.threads[t].asleep
                   && (s.threads[t].Writing? ==> s.threads[t].i <= |s.threads[t].src|)
    case CloseRead => s.readopen && forall t :: 0 <= t < |s.threads| ==> !s.threads[t].Reading?
    case CloseWrite => s.writeopen && forall t :: 0 <= t < |s.threads| ==> !s.threads[t].Writing?
    case Kill(t) => t < |s.threads|
  }

  function WakeOne(x: Thread, writers: bool): Thread {
    match x
    case Idle => Idle
    case Writing(src, i, asleep) => Writing(src, i, asleep && !writers)
    case Reading(n, asleep) => Reading(n, asleep && writers)
  }

  /** wakeup on the channel of the writers or of the readers. */
  function Wake(ts: seq<Thread>, writers: bool): (r: seq<Thread>)
    ensures |r| == |ts|
    ensures forall t :: 0 <= t < |ts| ==> r[t] == WakeOne(ts[t], writers)
  {
    seq(|ts|, t requires 0 <= t < |ts| => WakeOne(ts[t], writers))
  }

  /** What a thread does from the lock to its sleep or return; the pipe's part is WriteSection. */
  function RunWrite(s: State, t: nat): State
    requires Enabled(s, Run(t)) && s.threads[t].Writing?
  {
    var x := s.threads[t];
    var i := x.i + Taken(|s.buf|, |x.src| - x.i);
    var s1 := s.(buf := s.buf + x.src[x.i..i], accepted := s.accepted + x.src[x.i..i]);
    match WriteOutcome(i, |x.src|, s.readopen, t in s.killed)
    case Finished => s1.(threads := Wake(s.threads, false)[t := Idle])
    case Failed => s1.(threads := s.threads[t := Idle])
    case Slept => s1.(threads := Wake(s.threads, false)[t := Writing(x.src, i, true)])
  }

  /** Likewise, the pipe's part is ReadSection. */
  function RunRead(s: State, t: nat): State
    requires Enabled(s, Run(t)) && s.threads[t].Reading?
  {
    var x := s.threads[t];
    match ReadOutcome(|s.buf|, s.writeopen, t in s.killed)
    case Finished =>
      var k := Given(|s.buf|, x.n);
      s.(buf := s.buf[k..], consumed := s.consumed + s.buf[..k], threads := Wake(s.threads, true)[t := Idle])
    case Failed => s.(threads := s.threads[t := Idle])
    case Slept => s.(threads := s.threads[t := Reading(x.n, true)])
  }

  function Next(s: State, e: Step): State
    requires Enabled(s, e)
  {
    match e
    case CallWrite(t, src) => s.(threads := s.threads[t := Writing(src, 0, false)])
    case CallRead(t, n) => s.(threads := s.threads[t := Reading(n, false)])
    case Run(t) => if s.threads[t].Writing? then RunWrite(s, t) else RunRead(s, t)
    case CloseRead => s.(readopen := false, threads := Wake(s.threads, true))
    case CloseWrite => s.(writeopen := false, threads := Wake(s.threads, false))
    case Kill(t) =>
      s.(killed := s.killed + {t},
         threads := s.threads[t := WakeOne(WakeOne(s.threads[t], true), false)])
  }

  predicate Runs(s: State, es: seq<Step>)
    decreases |es|
  {
    es == [] || (Enabled(s, es[0]) && Runs(Next(s, es[0]), es[1..]))
  }

  function After(s: State, es: seq<Step>): State
    requires Runs(s, es)
    decreases |es|
  {
    if es == [] then s else After(Next(s, es[0]), es[1..])
  }

  /** Bytes read followed by bytes buffered are the bytes accepted; nobody reads a closed end. */
  ghost predicate Flow(s: State) {
    && s.consumed + s.buf == s.accepted && |s.buf| <= PIPESIZE
    && (forall t :: 0 <= t < |s.threads| ==> s.threads[t].Writing? ==>
        s.threads[t].i <= |s.threads[t].src| && s.writeopen)
    && (forall t :: 0 <= t < |s.threads| ==> s.threads[t].Reading? ==> s.readopen)
  }

  predicate SleepOk(s: State, x: Thread) {
    && (x.Reading? && x.asleep ==> s.buf == [] && s.writeopen)
    && (x.Writing? && x.asleep ==> |s.buf| == PIPESIZE && s.readopen)
  }

  /** A sleeping reader means an empty pipe that may still be written, a sleeping writer a full pipe
      that may still be read. */
  ghost predicate NobodyStranded(s: State) {
    forall t :: 0 <= t < |s.threads| ==> SleepOk(s, s.threads[t])
  }

  /** A killed writer that is about to fill the pipe and give up, while a reader sleeps. */
  predicate GivesUp(s: State, e: Step)
    requires Enabled(s, e)
  {
    && e.Run? && s.threads[e.t].Writing? && e.t in s.killed && |s.buf| < PIPESIZE
    && |s.threads[e.t].src| - s.threads[e.t].i > PIPESIZE - |s.buf|
    && exists t :: 0 <= t < |s.threads| && s.threads[t].Reading? && s.threads[t].asleep
  }

  lemma WriteKeepsFlow(s: State, t: nat)
    requires Flow(s) && Enabled(s, Run(t)) && s.threads[t].Writing?
    ensures Flow(RunWrite(s, t))
  {
    var x := s.threads[t];
    var i := x.i + Taken(|s.buf|, |x.src| - x.i);
    assert s.consumed + (s.buf + x.src[x.i..i]) == s.accepted + x.src[x.i..i];
  }

  lemma ReadKeepsFlow(s: State, t: nat)
    requires Flow(s) && Enabled(s, Run(t)) && s.threads[t].Reading?
    ensures Flow(RunRead(s, t))
  {
    var k := Given(|s.buf|, s.threads[t].n);
    assert s.consumed + s.buf[..k] + s.buf[k..] == s.consumed + s.buf;
  }

  lemma StepKeepsFlow(s: State, e: Step)
    requires Flow(s) && Enabled(s, e)
    ensures Flow(Next(s, e))
  {
    hide RunWrite, RunRead;
    if e.Run? && s.threads[e.t].Writing? {
      WriteKeepsFlow(s, e.t);
    } else if e.Run? {
      ReadKeepsFlow(s, e.t);
    }
  }

  /** A step strands nobody exactly if it is not a killed writer's giving up after it has filled the
      pipe: that return does not wake the readers (pipe.c:86-88). */
  lemma StrandsIff(s: State, e: Step)
    requires Flow(s) && NobodyStranded(s) && Enabled(s, e)
    ensures NobodyStranded(Next(s, e)) <==> !GivesUp(s, e)
  {
    var s' := Next(s, e);
    if GivesUp(s, e) {
      var t :| 0 <= t < |s.threads| && s.threads[t].Reading? && s.threads[t].asleep;
      assert !SleepOk(s', s'.threads[t]);
    } else {
      forall t | 0 <= t < |s'.threads|
        ensures SleepOk(s', s'.threads[t])
      {
        assert SleepOk(s, s.threads[t]);
      }
    }
  }

  /** No step of the run is such a giving up. */
  ghost predicate NoneGivesUp(s: State, es: seq<Step>)
    requires Runs(s, es)
    decreases |es|
  {
    es == [] || (!GivesUp(s, es[0]) && NoneGivesUp(Next(s, es[0]), es[1..]))
  }

  /** In every run, bytes come out as they went in and at most PIPESIZE are buffered; and unless a
      killed writer gives up as above, a sleeper has something to wait for. */
  lemma {:induction false} PipeSafety(s: State, es: seq<Step>)
    requires Runs(s, es) && Flow(s)
    ensures Flow(After(s, es))
    ensures NobodyStranded(s) && NoneGivesUp(s, es) ==> NobodyStranded(After(s, es))
    decreases |es|
  {
    hide NobodyStranded, Flow, Next, GivesUp;
    if es != [] {
      StepKeepsFlow(s, es[0]);
      if NobodyStranded(s) {
        StrandsIff(s, es[0]);
      }
      PipeSafety(Next(s, es[0]), es[1..]);
    }
  }

  predicate Asleep(x: Thread) {
    x != Idle && x.asleep
  }

  /** A killed thread does not sleep. */
  ghost predicate KilledAwake(s: State) {
    forall t: nat :: t in s.killed && t < |s.threads| ==> !Asleep(s.threads[t])
  }

  lemma StepKeepsAwake(s: State, e: Step)
    requires Flow(s) && KilledAwake(s) && Enabled(s, e)
    ensures KilledAwake(Next(s, e))
  {
    forall t: nat | t in Next(s, e).killed && t < |Next(s, e).threads|
      ensures !Asleep(Next(s, e).threads[t])
    {
      assert t in s.killed ==> !Asleep(s.threads[t]);
    }
  }

  /** In every run kill wakes, and nobody goes to sleep after being killed. */
  lemma {:induction false} KilledNeverSleeps(s: State, es: seq<Step>)
    requires Runs(s, es) && Flow(s) && KilledAwake(s)
    ensures KilledAwake(After(s, es))
    decreases |es|
  {
    hide KilledAwake, Flow, Next, Enabled;
    if es != [] {
      StepKeepsFlow(s, es[0]);
      StepKeepsAwake(s, es[0]);
      KilledNeverSleeps(Next(s, es[0]), es[1..]);
    }
  }

  predicate NoKill(es: seq<Step>) {
    forall i :: 0 <= i < |es| ==> !es[i].Kill?
  }

  lemma {:induction false} NoKillNoGivingUp(s: State, es: seq<Step>)
    requires Runs(s, es) && s.killed == {} && NoKill(es)
    ensures NoneGivesUp(s, es)
    decreases |es|
  {
    hide Next;
    if es != [] {
      KilledStays(s, es[0]);
      assert !es[0].Kill?;
      NoKillNoGivingUp(Next(s, es[0]), es[1..]);
    }
  }

  lemma KilledStays(s: State, e: Step)
    requires Enabled(s, e)
    ensures !e.Kill? ==> Next(s, e).killed == s.killed
  {
  }

  lemma InitOk(n: nat)
    ensures Flow(Init(n)) && NobodyStranded(Init(n))
  {
  }

  /** Without kill, a reader and a writer never sleep at the same time. */
  lemma NotBothAsleep(n: nat, es: seq<Step>, t: nat, u: nat)
    requires Runs(Init(n), es) && NoKill(es)
    requires t < |After(Init(n), es).threads| && u < |After(Init(n), es).threads|
    ensures NobodyStranded(After(Init(n), es))
    ensures var ts := After(Init(n), es).threads;
            !(ts[t].Reading? && ts[t].asleep && ts[u].Writing? && ts[u].asleep)
  {
    hide Runs, After;
    InitOk(n);
    NoKillNoGivingUp(Init(n), es);
    PipeSafety(Init(n), es);
    var s := After(Init(n), es);
    assert SleepOk(s, s.threads[t]) && SleepOk(s, s.threads[u]);
  }

  /** With kill it happens: a reader sleeps, and a killed writer fills the pipe and returns. */
  lemma KillStrands() returns (es: seq<Step>)
    ensures Runs(Init(2), es) && !NobodyStranded(After(Init(2), es))
  {
    var src: seq<byte> := seq(PIPESIZE + 1, _ => 0);
    var s0 := Init(2);
    var e0, e1, e2, e3, e4 := CallRead(0, 1), Run(0), Kill(1), CallWrite(1, src), Run(1);
    var s1 := Next(s0, e0);
    var s2 := Next(s1, e1);
    var s3 := Next(s2, e2);
    var s4 := Next(s3, e3);
    assert s2.threads[0] == Reading(1, true);
    assert s4.threads == [Reading(1, true), Writing(src, 0, false)];
    InitOk(2);
    var s5 := Next(s4, e4);
    assert s5.threads[0] == Reading(1, true) && |s5.buf| == PIPESIZE;
    assert !SleepOk(s5, s5.threads[0]);
    hide Next, Enabled;
    RunsOne(s4, e4);
    RunsMore(s3, e3, [e4]);
    RunsMore(s2, e2, [e3, e4]);
    RunsMore(s1, e1, [e2, e3, e4]);
    RunsMore(s0, e0, [e1, e2, e3, e4]);
    es := [e0, e1, e2, e3, e4];
    assert [e0] + [e1, e2, e3, e4] == es && [e1] + [e2, e3, e4] == [e1, e2, e3, e4];
    assert [e2] + [e3, e4] == [e2, e3, e4] && [e3] + [e4] == [e3, e4];
  }

  lemma RunsOne(s: State, e: Step)
    requires Enabled(s, e)
    ensures Runs(s, [e]) && After(s, [e]) == Next(s, e)
  {
    assert [e][1..] == [];
  }

  lemma RunsMore(s: State, e: Step, es: seq<Step>)
    requires Enabled(s, e) && Runs(Next(s, e), es)
    ensures Runs(s, [e] + es) && After(s, [e] + es) == After(Next(s, e), es)
  {
    assert ([e] + es)[1..] == es;
  }

  // ----- what a call has delivered when it returns

  /** The bytes that a run accepts, each with the thread that wrote it. */
  function Sent(s: State, es: seq<Step>): seq<(nat, byte)>
    requires Runs(s, es)
    decreases |es|
  {
    if es == [] then [] else Marked(Accepts(s, es[0]), ThreadOf(es[0])) + Sent(Next(s, es[0]), es[1..])
  }

  /** What a step adds to the bytes accepted. */
  function Accepts(s: State, e: Step): seq<byte>
    requires Enabled(s, e)
  {
    if |s.accepted| <= |Next(s, e).accepted| then Next(s, e).accepted[|s.accepted|..] else []
  }

  function ThreadOf(e: Step): nat {
    if e.Run? then e.t else 0
  }

  function Marked(b: seq<byte>, t: nat): seq<(nat, byte)> {
    seq(|b|, i requires 0 <= i < |b| => (t, b[i]))
  }

  function Bytes(m: seq<(nat, byte)>): seq<byte> {
    seq(|m|, i requires 0 <= i < |m| => m[i].1)
  }

  /** The bytes of one thread. */
  function Of(m: seq<(nat, byte)>, t: nat): seq<byte> {
    if m == [] then [] else (if m[0].0 == t then [m[0].1] else []) + Of(m[1..], t)
  }

  lemma {:induction false} OfJoined(a: seq<(nat, byte)>, b: seq<(nat, byte)>, t: nat)
    ensures Of(a + b, t) == Of(a, t) + Of(b, t)
  {
    if a == [] {
      assert a + b == b;
    } else {
      assert (a + b)[0] == a[0] && (a + b)[1..] == a[1..] + b;
      OfJoined(a[1..], b, t);
      var first := if a[0].0 == t then [a[0].1] else [];
      assert first + (Of(a[1..], t) + Of(b, t)) == (first + Of(a[1..], t)) + Of(b, t);
    }
  }

  lemma {:induction false} OfMarked(b: seq<byte>, u: nat, t: nat)
    ensures Of(Marked(b, u), t) == if u == t then b else []
  {
    if b != [] {
      assert Marked(b, u)[1..] == Marked(b[1..], u);
      OfMarked(b[1..], u, t);
    }
  }

  /** Only a write adds to what is accepted, and at the end. */
  lemma AcceptsAdds(s: State, e: Step)
    requires Enabled(s, e)
    ensures Next(s, e).accepted == s.accepted + Accepts(s, e)
    ensures !(e.Run? && s.threads[e.t].Writing?) ==> Accepts(s, e) == []
  {
  }

  lemma {:induction false} SentIsAccepted(s: State, es: seq<Step>)
    requires Runs(s, es)
    ensures After(s, es).accepted == s.accepted + Bytes(Sent(s, es))
    decreases |es|
  {
    hide Next, Enabled, Accepts;
    if es != [] {
      AcceptsAdds(s, es[0]);
      SentIsAccepted(Next(s, es[0]), es[1..]);
      var b, m := Accepts(s, es[0]), Sent(Next(s, es[0]), es[1..]);
      assert Bytes(Marked(b, ThreadOf(es[0])) + m) == b + Bytes(m);
    }
  }

  /** Nothing in the run ends a call of t early or starts another. */
  predicate Leaves(es: seq<Step>, t: nat) {
    forall i :: 0 <= i < |es| ==>
      !es[i].CloseRead? && es[i] != Kill(t) && !((es[i].CallWrite? || es[i].CallRead?) && es[i].t == t)
  }

  /** How far thread t has got with writing src. */
  predicate Reached(s: State, t: nat, src: seq<byte>, i: nat) {
    && t < |s.threads| && s.readopen && t !in s.killed && i <= |src|
    && (s.threads[t].Writing? ==> s.threads[t].src == src && s.threads[t].i == i)
    && (!s.threads[t].Writing? ==> s.threads[t] == Idle && i == |src|)
  }

  lemma WriteReaches(s: State, e: Step, t: nat, src: seq<byte>, i: nat) returns (j: nat)
    requires Enabled(s, e) && Reached(s, t, src, i) && Leaves([e], t)
    ensures i <= j && Reached(Next(s, e), t, src, j)
    ensures if e.Run? && e.t == t then Accepts(s, e) == src[i..j] else i == j
  {
    assert [e][0] == e;
    j := if e == Run(t) then i + Taken(|s.buf|, |src| - i) else i;
  }

  /** A write that returns with the read end open and without kill has handed over all its bytes, and one
      under way those before its next byte. */
  lemma {:induction false} WriteDelivers(s: State, es: seq<Step>, t: nat, src: seq<byte>, i: nat) returns (j: nat)
    requires Runs(s, es) && Leaves(es, t) && Reached(s, t, src, i)
    ensures i <= j && Reached(After(s, es), t, src, j) && Of(Sent(s, es), t) == src[i..j]
    ensures After(s, es).threads[t] == Idle ==> j == |src|
    decreases |es|
  {
    hide Next, Enabled, Accepts;
    if es == [] {
      j := i;
    } else {
      var e := es[0];
      assert Leaves([e], t) && Leaves(es[1..], t);
      var k := WriteReaches(s, e, t, src, i);
      j := WriteDelivers(Next(s, e), es[1..], t, src, k);
      AcceptsAdds(s, e);
      OfMarked(Accepts(s, e), ThreadOf(e), t);
      OfJoined(Marked(Accepts(s, e), ThreadOf(e)), Sent(Next(s, e), es[1..]), t);
      assert src[i..k] + src[k..j] == src[i..j];
    }
  }

  /** A read that returns has what it asked for or has emptied the pipe, and it returns nothing only if it
      asked for nothing or nobody can write. */
  lemma ReadReturns(s: State, t: nat)
    requires Flow(s) && Enabled(s, Run(t)) && s.threads[t].Reading? && t !in s.killed
    ensures var s', n := Next(s, Run(t)), s.threads[t].n;
            && s'.threads[t] == (if s.buf == [] && s.writeopen then Reading(n, true) else Idle)
            && s.consumed <= s'.consumed && |s'.consumed| <= |s.consumed| + n
            && (s'.threads[t] == Idle ==> |s'.consumed| == |s.consumed| + n || s'.buf == [])
            && (s'.threads[t] == Idle && s'.consumed == s.consumed ==> n == 0 || !s.writeopen)
  {
  }

  // ----- a write of any length comes to its end

  lemma {:induction false} RunsJoined(s: State, a: seq<Step>, b: seq<Step>)
    requires Runs(s, a) && Runs(After(s, a), b)
    ensures Runs(s, a + b) && After(s, a + b) == After(After(s, a), b)
    decreases |a|
  {
    hide Next, Enabled;
    if a == [] {
      assert a + b == b;
    } else {
      assert (a + b)[1..] == a[1..] + b;
      RunsJoined(Next(s, a[0]), a[1..], b);
    }
  }

  /** Two threads that nobody has killed: t writes, u is free to read, and nothing is closed. */
  ghost predicate Pair(s: State, t: nat, u: nat) {
    && Flow(s) && NobodyStranded(s) && s.readopen && s.writeopen && s.killed == {}
    && t < |s.threads| && u < |s.threads| && t != u && s.threads[t].Writing? && s.threads[u] == Idle
  }

  /** A turn of the writer: it ends, or the pipe is full and it sleeps. */
  lemma WriterTurn(s: State, t: nat, u: nat) returns (s': State)
    requires Pair(s, t, u) && !s.threads[t].asleep
    ensures Enabled(s, Run(t)) && s' == Next(s, Run(t)) && |s'.threads| == |s.threads|
    ensures Flow(s') && NobodyStranded(s')
    ensures s'.threads[t] == Idle || (Pair(s', t, u) && s'.threads[t].asleep)
    ensures s'.threads[t] == Idle ==> s'.accepted == s.accepted + s.threads[t].src[s.threads[t].i..]
    ensures s'.threads[t] != Idle ==>
              && s'.threads[t].src == s.threads[t].src
              && s'.threads[t].i == s.threads[t].i + PIPESIZE - |s.buf| < |s.threads[t].src|
              && s'.accepted == s.accepted + s.threads[t].src[s.threads[t].i..s'.threads[t].i]
    ensures s'.threads[t] == Idle ==> |s.threads[t].src| - s.threads[t].i <= PIPESIZE - |s.buf|
  {
    s' := Next(s, Run(t));
    StepKeepsFlow(s, Run(t));
    StrandsIff(s, Run(t));
    assert s'.threads[u] == Idle;
  }

  /** A read by u empties the pipe and wakes the writer. */
  lemma ReaderTurn(s: State, t: nat, u: nat) returns (es: seq<Step>)
    requires Pair(s, t, u) && s.threads[t].asleep
    ensures Runs(s, es) && Pair(After(s, es), t, u) && |After(s, es).threads| == |s.threads|
    ensures After(s, es).buf == []
    ensures After(s, es).threads[t] == Writing(s.threads[t].src, s.threads[t].i, false)
    ensures After(s, es).accepted == s.accepted
    ensures forall e :: e in es ==> e == CallRead(u, PIPESIZE) || e == Run(u)
  {
    assert SleepOk(s, s.threads[t]);
    var e, f := CallRead(u, PIPESIZE), Run(u);
    var s1 := Next(s, e);
    StepKeepsFlow(s, e);
    StrandsIff(s, e);
    var s2 := Next(s1, f);
    StepKeepsFlow(s1, f);
    StrandsIff(s1, f);
    RunsOne(s1, f);
    RunsMore(s, e, [f]);
    es := [e] + [f];
  }

  /** Whatever the length, the writer can be run to its end by reads, and then all its bytes are in. */
  lemma {:induction false} WriteCanFinish(s: State, t: nat, u: nat) returns (es: seq<Step>)
    requires Pair(s, t, u) && !s.threads[t].asleep
    ensures Runs(s, es) && |After(s, es).threads| == |s.threads| && After(s, es).threads[t] == Idle
    ensures After(s, es).accepted == s.accepted + s.threads[t].src[s.threads[t].i..]
    decreases |s.threads[t].src| - s.threads[t].i, |s.buf|
  {
    hide Next, Enabled, Runs, After;
    var e := Run(t);
    var s1 := WriterTurn(s, t, u);
    RunsOne(s, e);
    if s1.threads[t] == Idle {
      es := [e];
    } else {
      var drain := ReaderTurn(s1, t, u);
      var s2 := After(s1, drain);
      var more := WriteCanFinish(s2, t, u);
      RunsJoined(s1, drain, more);
      RunsMore(s, e, drain + more);
      es := [e] + (drain + more);
      var src, i, j := s.threads[t].src, s.threads[t].i, s1.threads[t].i;
      assert src[i..] == src[i..j] + src[j..];
    }
  }

  /** In a new pipe: a write of more than PIPESIZE bytes sleeps and still comes to its end, with all its
      bytes accepted in order. */
  lemma LongWrite(src: seq<byte>) returns (es: seq<Step>)
    requires |src| > PIPESIZE
    ensures |es| >= 2 && Runs(Init(2), es) && Runs(Init(2), es[..2])
    ensures |After(Init(2), es[..2]).threads| == 2 == |After(Init(2), es).threads|
    ensures After(Init(2), es[..2]).threads[0] == Writing(src, PIPESIZE, true)
    ensures After(Init(2), es).threads[0] == Idle && After(Init(2), es).accepted == src
  {
    hide Next, Enabled, Runs, After;
    InitOk(2);
    var s0, e0, e1 := Init(2), CallWrite(0, src), Run(0);
    var s1 := CallTurn(src);
    var s2 := WriterTurn(s1, 0, 1);
    RunsOne(s1, e1);
    RunsMore(s0, e0, [e1]);
    var drain := ReaderTurn(s2, 0, 1);
    var more := WriteCanFinish(After(s2, drain), 0, 1);
    RunsJoined(s2, drain, more);
    RunsJoined(s0, [e0] + [e1], drain + more);
    es := [e0] + [e1] + (drain + more);
    assert es[..2] == [e0] + [e1];
    assert src[..PIPESIZE] + src[PIPESIZE..] == src;
  }

  lemma CallTurn(src: seq<byte>) returns (s: State)
    ensures Enabled(Init(2), CallWrite(0, src)) && s == Next(Init(2), CallWrite(0, src))
    ensures Pair(s, 0, 1) && |s.threads| == 2 && s.threads[0] == Writing(src, 0, false)
    ensures s.buf == [] && s.accepted == []
  {
    InitOk(2);
    s := Next(Init(2), CallWrite(0, src));
    StepKeepsFlow(Init(2), CallWrite(0, src));
    StrandsIff(Init(2), CallWrite(0, src));
  }
}
