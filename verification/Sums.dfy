/** Sums over a sequence of the values that a function gives its elements.

    The counters of the protocols are such sums: how many operations are outstanding, how many
    students sit on chairs, how many directory entries name an inode. A step changes one element,
    so SumUpdate says what it does to each counter. The other lemmas compare sums term by term or
    find an element that a sum must have, and SumFresh gives the value when nothing has happened
    yet. */
module Sums {
  function Sum<T>(f: T -> int, s: seq<T>): int {
    if s == [] then 0 else f(s[0]) + Sum(f, s[1..])
  }

  /** Changing one element changes the sum by the difference. */
  lemma {:induction false} SumUpdate<T>(f: T -> int, s: seq<T>, i: nat, x: T)
    requires i < |s|
    ensures Sum(f, s[i := x]) == Sum(f, s) - f(s[i]) + f(x)
  {
    if i == 0 {
      assert s[i := x][1..] == s[1..];
    } else {
      assert s[i := x][1..] == s[1..][i - 1 := x];
      SumUpdate(f, s[1..], i - 1, x);
    }
  }

  lemma {:induction false} SumConcat<T>(f: T -> int, a: seq<T>, b: seq<T>)
    ensures Sum(f, a + b) == Sum(f, a) + Sum(f, b)
  {
    if a == [] {
      assert a + b == b;
    } else {
      assert (a + b)[1..] == a[1..] + b;
      SumConcat(f, a[1..], b);
    }
  }

  /** Pointwise bounds on f - c*g carry over to sums; with equality both ways, so do equations. */
  lemma {:induction false} SumBound<T>(f: T -> int, g: T -> int, c: int, s: seq<T>)
    requires forall j :: 0 <= j < |s| ==> f(s[j]) <= c * g(s[j])
    ensures Sum(f, s) <= c * Sum(g, s)
  {
    if s != [] {
      SumBound(f, g, c, s[1..]);
      assert c * (g(s[0]) + Sum(g, s[1..])) == c * g(s[0]) + c * Sum(g, s[1..]);
    }
  }

  lemma {:induction false} SumZero<T>(f: T -> int, s: seq<T>)
    requires forall j :: 0 <= j < |s| ==> f(s[j]) == 0
    ensures Sum(f, s) == 0
  {
    if s != [] {
      SumZero(f, s[1..]);
    }
  }

  lemma SumFresh<T>(f: T -> int, s: seq<T>, x: T)
    requires (forall j :: 0 <= j < |s| ==> s[j] == x) && f(x) == 0
    ensures Sum(f, s) == 0
  {
    SumZero(f, s);
  }

  lemma {:induction false} SumConstant<T>(f: T -> int, s: seq<T>, c: int)
    requires forall j :: 0 <= j < |s| ==> f(s[j]) == c
    ensures Sum(f, s) == c * |s|
  {
    if s != [] {
      SumConstant(f, s[1..], c);
    }
  }

  lemma {:induction false} SumAtMost<T>(f: T -> int, s: seq<T>, c: int)
    requires forall j :: 0 <= j < |s| ==> f(s[j]) <= c
    ensures Sum(f, s) <= c * |s|
  {
    if s != [] {
      SumAtMost(f, s[1..], c);
    }
  }

  /** A sum of non-negative terms is at least any one of them. */
  lemma {:induction false} SumAtLeast<T>(f: T -> int, s: seq<T>, i: nat)
    requires i < |s| && forall j :: 0 <= j < |s| ==> 0 <= f(s[j])
    ensures f(s[i]) <= Sum(f, s)
  {
    SumNonNegative(f, s[1..]);
    if i > 0 {
      SumAtLeast(f, s[1..], i - 1);
    }
  }

  lemma {:induction false} SumNonNegative<T>(f: T -> int, s: seq<T>)
    requires forall j :: 0 <= j < |s| ==> 0 <= f(s[j])
    ensures 0 <= Sum(f, s)
  {
    if s != [] {
      SumNonNegative(f, s[1..]);
    }
  }

  /** A positive sum has a positive term. */
  lemma {:induction false} SumPositive<T>(f: T -> int, s: seq<T>) returns (i: nat)
    requires 0 < Sum(f, s)
    ensures i < |s| && 0 < f(s[i])
  {
    if f(s[0]) > 0 {
      i := 0;
    } else {
      i := SumPositive(f, s[1..]);
      i := i + 1;
    }
  }

  /** If h is f plus g term by term, possibly over another sequence, so are the sums. */
  lemma {:induction false} SumAdd<S, T>(f: S -> int, g: S -> int, s: seq<S>, h: T -> int, t: seq<T>)
    requires |s| == |t|
    requires forall j :: 0 <= j < |s| ==> h(t[j]) == f(s[j]) + g(s[j])
    ensures Sum(h, t) == Sum(f, s) + Sum(g, s)
  {
    if s != [] {
      SumAdd(f, g, s[1..], h, t[1..]);
    }
  }

  lemma {:induction false} SumSame<S, T>(f: S -> int, s: seq<S>, g: T -> int, t: seq<T>)
    requires |s| == |t|
    requires forall j :: 0 <= j < |s| ==> f(s[j]) == g(t[j])
    ensures Sum(f, s) == Sum(g, t)
  {
    if s != [] {
      SumSame(f, s[1..], g, t[1..]);
    }
  }
}
