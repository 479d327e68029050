/** The lottery scheduler (xv6/kernel/proc.c) and the draw it makes (random_at_most). */
module Lottery {
  import opened Basics

  const DRAWS: nat := 0x8000_0000        // RAND_MAX + 1: genrand returns one of so many values
  const ULONG_MAX: nat := 0xFFFF_FFFF

  datatype Proc = Proc(runnable: bool, tickets: nat)

  // ----- random_at_most

  function BinSize(max: nat): (s: nat)
    ensures max < DRAWS ==> 1 <= s
  {
    if max < DRAWS then DivAtLeast(DRAWS, max + 1); DRAWS / (max + 1) else DRAWS / (max + 1)
  }

  lemma DivAtLeast(a: nat, b: nat)
    requires 0 < b <= a
    ensures 1 <= a / b && a / b * b + a % b == a
  {
  }

  /** The draws that the loop does not reject. */
  predicate Accepted(max: nat, x: nat) {
    x < DRAWS - DRAWS % (max + 1)
  }

  /** Draw i ends the loop. */
  predicate FirstAccepted(max: nat, draws: seq<nat>, i: nat) {
    i < |draws| && Accepted(max, draws[i]) && forall j :: 0 <= j < i ==> !Accepted(max, draws[j])
  }

  /** The bin that a draw falls into. */
  function Value(max: nat, x: nat): nat
    requires max < DRAWS
  {
    x / BinSize(max)
  }

  /** Turns draws into a number from 0 to max: rejects the draws beyond the last full bin, and
      returns the bin of the first accepted one. None stands for draws that have all been rejected. */
  method RandomAtMost(max: nat, draws: seq<nat>) returns (found: bool, value: nat, ghost k: nat)
    requires max < ULONG_MAX && forall i :: 0 <= i < |draws| ==> draws[i] < DRAWS
    ensures found <==> exists i :: 0 <= i < |draws| && Accepted(max, draws[i])
    ensures found ==> FirstAccepted(max, draws, k) && max < DRAWS && value == Value(max, draws[k]) && value <= max
  {
    hide BinSize;
    var numBins, numRand := max + 1, DRAWS;
    var binSize, defect := BinSize(max), numRand % numBins;
    k := 0;
    var i := 0;
    while i < |draws|
      invariant 0 <= i <= |draws| && forall j :: 0 <= j < i ==> !Accepted(max, draws[j])
    {
      if draws[i] < numRand - defect {
        AcceptedValue(max, draws[i]);
        return true, draws[i] / binSize, i;
      }
      i := i + 1;
    }
    return false, 0, 0;
  }

  /** The loop can end if and only if max is at most RAND_MAX: beyond, every draw is rejected. */
  lemma SomeAcceptedIff(max: nat)
    ensures (exists x :: 0 <= x < DRAWS && Accepted(max, x)) <==> max < DRAWS
  {
    if max < DRAWS {
      DivAtLeast(DRAWS, max + 1);
      assert Accepted(max, 0);
    }
  }

  lemma AcceptedValue(max: nat, x: nat)
    requires x < DRAWS && Accepted(max, x)
    ensures max < DRAWS && BinSize(max) > 0 && Value(max, x) <= max
  {
    hide BinSize, Accepted;
    SomeAcceptedIff(max);
    InBin(max, x, x / BinSize(max));
  }

  lemma AcceptedIff(max: nat, x: nat)
    requires max < DRAWS
    ensures Accepted(max, x) <==> x < (max + 1) * BinSize(max)
    ensures (max + 1) * BinSize(max) <= DRAWS
  {
    DivAtLeast(DRAWS, max + 1);
  }

  /** The accepted draws are max + 1 bins of equal size. */
  lemma InBin(max: nat, x: nat, v: nat)
    requires max < DRAWS
    ensures Accepted(max, x) && Value(max, x) == v <==>
              v <= max && v * BinSize(max) <= x < (v + 1) * BinSize(max)
  {
    hide BinSize, Accepted;
    var b := BinSize(max);
    AcceptedIff(max, x);
    DivIs(x, b, v);
    if v <= max {
      Times(v + 1, max + 1, b);
    } else {
      Times(max + 1, v, b);
    }
  }

  lemma DivIs(x: nat, b: nat, v: nat)
    requires 0 < b
    ensures x / b == v <==> v * b <= x < (v + 1) * b
  {
    assert (v + 1) * b == v * b + b;
    var q := x / b;
    assert q * b <= x < q * b + b;
    if q < v {
      Times(q + 1, v, b);
    } else if v < q {
      Times(v + 1, q, b);
    }
  }

  /** The numbers from lo up to, not including, hi. */
  function Interval(lo: nat, hi: nat): (s: set<nat>)
    requires lo <= hi
    ensures |s| == hi - lo
    ensures forall x: nat :: x in s <==> lo <= x < hi
    decreases hi - lo
  {
    if lo == hi then {} else Interval(lo, hi - 1) + {hi - 1}
  }

  /** The accepted draws that give value v. */
  function DrawsFor(max: nat, v: nat): set<nat>
    requires max < DRAWS
  {
    set x: nat | x < DRAWS && Accepted(max, x) && Value(max, x) == v
  }

  /** Every value from 0 to max comes from the same number of draws, and no other value from any. */
  lemma Uniform(max: nat, v: nat)
    requires max < DRAWS
    ensures |DrawsFor(max, v)| == if v <= max then BinSize(max) else 0
  {
    hide BinSize, Accepted, Value;
    var b := BinSize(max);
    var lo := v * b;
    assert (v + 1) * b == lo + b;
    forall x: nat
      ensures x in DrawsFor(max, v) <==> v <= max && lo <= x < lo + b
    {
      InBin(max, x, v);
      AcceptedIff(max, x);
    }
    if v <= max {
      assert DrawsFor(max, v) == Interval(lo, lo + b);
    } else {
      assert DrawsFor(max, v) == {};
    }
  }

  // ----- the scheduler

  /** Tickets of the runnable ones of the first n processes. */
  function Tickets(ps: seq<Proc>, n: nat): nat
    requires n <= |ps|
  {
    if n == 0 then 0 else Tickets(ps, n - 1) + if ps[n - 1].runnable then ps[n - 1].tickets else 0
  }

  predicate AllPositive(ps: seq<Proc>) {
    forall i :: 0 <= i < |ps| ==> ps[i].runnable ==> ps[i].tickets > 0
  }

  /** No runnable process comes before place i. */
  predicate FirstRunnable(ps: seq<Proc>, i: nat) {
    i < |ps| && ps[i].runnable && forall j :: 0 <= j < i ==> !ps[j].runnable
  }

  /** The process chosen for winner w: the first runnable one whose running count reaches w. */
  predicate Chosen(ps: seq<Proc>, w: nat, i: nat) {
    && i < |ps| && ps[i].runnable && w <= Tickets(ps, i + 1)
    && forall j: nat :: j < i && ps[j].runnable ==> Tickets(ps, j + 1) < w
  }

  /** One round of the scheduler: counts the tickets, draws a winner and looks for it (proc.c:286-318).
      Returns the place of the process to run, or -1. */
  method Schedule(ps: seq<Proc>, draws: seq<nat>) returns (drawn: bool, who: int, ghost w: nat)
    requires AllPositive(ps) && Tickets(ps, |ps|) < ULONG_MAX
    requires forall i :: 0 <= i < |draws| ==> draws[i] < DRAWS
    ensures drawn ==> Tickets(ps, |ps|) < DRAWS
    ensures drawn <==> exists i :: 0 <= i < |draws| && Accepted(Tickets(ps, |ps|), draws[i])
    ensures drawn ==> w <= Tickets(ps, |ps|)
                      && exists i: nat :: FirstAccepted(Tickets(ps, |ps|), draws, i)
                          && w == Value(Tickets(ps, |ps|), draws[i])
    ensures drawn ==> (who == -1 <==> forall i :: 0 <= i < |ps| ==> !ps[i].runnable)
    ensures drawn && who != -1 ==> who >= 0 && Chosen(ps, w, who)
  {
    var total := 0;
    var p := 0;
    while p < |ps|
      invariant 0 <= p <= |ps| && total == Tickets(ps, p)
    {
      if ps[p].runnable {
        total := total + ps[p].tickets;
      }
      p := p + 1;
    }
    var winner;
    ghost var k;
    drawn, winner, k := RandomAtMost(total, draws);
    w := winner;
    if !drawn {
      return false, -1, 0;
    }
    assert FirstAccepted(Tickets(ps, |ps|), draws, k);
    var count := 0;
    p := 0;
    while p < |ps|
      invariant 0 <= p <= |ps| && count == Tickets(ps, p)
      invariant forall j: nat :: j < p && ps[j].runnable ==> Tickets(ps, j + 1) < winner
    {
      if ps[p].runnable {
        count := count + ps[p].tickets;
        if count >= winner {
          return true, p, w;
        }
      }
      p := p + 1;
    }
    who := -1;
    NobodyLeft(ps, winner);
  }

  /** If nobody reaches the winner, nobody is runnable. */
  lemma NobodyLeft(ps: seq<Proc>, w: nat)
    requires w <= Tickets(ps, |ps|)
    requires forall j: nat :: j < |ps| && ps[j].runnable ==> Tickets(ps, j + 1) < w
    ensures forall i :: 0 <= i < |ps| ==> !ps[i].runnable
  {
    if i: nat :| i < |ps| && ps[i].runnable {
      var l := LastRunnable(ps, i, |ps|);
    }
  }

  lemma {:induction false} LastRunnable(ps: seq<Proc>, i: nat, n: nat) returns (l: nat)
    requires i < n <= |ps| && ps[i].runnable
    ensures l < n && ps[l].runnable && Tickets(ps, l + 1) == Tickets(ps, n)
    decreases n
  {
    if ps[n - 1].runnable {
      l := n - 1;
    } else {
      l := LastRunnable(ps, i, n - 1);
    }
  }

  lemma {:induction false} TicketsGrow(ps: seq<Proc>, m: nat, n: nat)
    requires m <= n <= |ps|
    ensures Tickets(ps, m) <= Tickets(ps, n)
    ensures (forall j :: m <= j < n ==> !ps[j].runnable) ==> Tickets(ps, m) == Tickets(ps, n)
    decreases n
  {
    if m < n {
      TicketsGrow(ps, m, n - 1);
    }
  }

  function LowestWinner(ps: seq<Proc>, i: nat): nat
    requires i < |ps|
  {
    if FirstRunnable(ps, i) then 0 else Tickets(ps, i) + 1
  }

  /** Which winners choose process i: its own tickets, and 0 as well if it is the first runnable one. */
  lemma WinnersOf(ps: seq<Proc>, w: nat, i: nat)
    requires AllPositive(ps) && i < |ps| && ps[i].runnable
    ensures Chosen(ps, w, i) <==> LowestWinner(ps, i) <= w <= Tickets(ps, i + 1)
    ensures FirstRunnable(ps, i) ==> Tickets(ps, i) == 0
  {
    TicketsGrow(ps, 0, i);
    forall j: nat | j < i && ps[j].runnable
      ensures Tickets(ps, j + 1) <= Tickets(ps, i)
    {
      TicketsGrow(ps, j + 1, i);
    }
    if !FirstRunnable(ps, i) {
      var j: nat :| j < i && ps[j].runnable;
      var l := LastRunnable(ps, j, i);
    }
  }

  /** The accepted draws for which the scheduler runs process i. */
  function DrawsChoosing(ps: seq<Proc>, i: nat): set<nat>
    requires Tickets(ps, |ps|) < DRAWS
  {
    set x: nat | x < DRAWS && Accepted(Tickets(ps, |ps|), x) && Chosen(ps, Value(Tickets(ps, |ps|), x), i)
  }

  /** The lottery's shares: a runnable process is chosen by exactly one bin of draws per ticket, plus
      one bin more if it is the first runnable one in the table. */
  lemma Share(ps: seq<Proc>, i: nat)
    requires AllPositive(ps) && Tickets(ps, |ps|) < DRAWS && i < |ps|
    ensures |DrawsChoosing(ps, i)| == if !ps[i].runnable then 0
                                      else BinSize(Tickets(ps, |ps|))
                                           * (ps[i].tickets + if FirstRunnable(ps, i) then 1 else 0)
  {
    if !ps[i].runnable {
      assert DrawsChoosing(ps, i) == {};
      return;
    }
    hide BinSize, Accepted, Value, Chosen, Tickets;
    var b := BinSize(Tickets(ps, |ps|));
    var lo, hi := LowestWinner(ps, i), Tickets(ps, i + 1) + 1;
    WinnersOf(ps, 0, i);
    TicketsStep(ps, i);
    Times(lo, hi, b);
    var from, to := lo * b, hi * b;
    forall x: nat
      ensures x in DrawsChoosing(ps, i) <==> from <= x < to
    {
      InRange(ps, i, x);
    }
    assert DrawsChoosing(ps, i) == Interval(from, to);
    assert hi - lo == ps[i].tickets + if FirstRunnable(ps, i) then 1 else 0;
    Difference(lo, hi, b);
  }

  lemma Difference(lo: nat, hi: nat, b: nat)
    requires lo <= hi
    ensures hi * b - lo * b == b * (hi - lo)
  {
  }

  lemma TicketsStep(ps: seq<Proc>, i: nat)
    requires i < |ps|
    ensures Tickets(ps, i + 1) == Tickets(ps, i) + if ps[i].runnable then ps[i].tickets else 0
  {
  }

  lemma InRange(ps: seq<Proc>, i: nat, x: nat)
    requires AllPositive(ps) && Tickets(ps, |ps|) < DRAWS && i < |ps| && ps[i].runnable
    ensures var b := BinSize(Tickets(ps, |ps|));
            x in DrawsChoosing(ps, i) <==> LowestWinner(ps, i) * b <= x < (Tickets(ps, i + 1) + 1) * b
  {
    hide BinSize, Accepted, Chosen, Tickets, LowestWinner;
    var max := Tickets(ps, |ps|);
    var b := BinSize(max);
    var lo, hi := LowestWinner(ps, i), Tickets(ps, i + 1) + 1;
    TicketsGrow(ps, i + 1, |ps|);
    var w := Value(max, x);
    InBin(max, x, w);
    AcceptedIff(max, x);
    DivIs(x, b, w);
    WinnersOf(ps, w, i);
    if lo <= w {
      Times(lo, w, b);
    } else {
      Times(w + 1, lo, b);
    }
    if w < hi {
      Times(w + 1, hi, b);
    } else {
      Times(hi, w, b);
    }
    Times(hi, max + 1, b);
  }
}
