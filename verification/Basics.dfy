/** Small things that several modules use. */
module Basics {
  datatype Option<T> = None | Some(value: T)

  predicate Distinct(s: seq<nat>) {
    forall i, j :: 0 <= i < j < |s| ==> s[i] != s[j]
  }

  lemma SubsetSize(a: set<nat>, b: set<nat>)
    requires a <= b
    ensures |a| <= |b|
    ensures a != b ==> |a| < |b|
  {
    assert b == a + (b - a);
    if b - a == {} {
      assert a == b;
    }
  }

  lemma Times(a: int, b: int, m: nat)
    requires a <= b
    ensures a * m <= b * m
  {
  }

  /** A count as a C short keeps it: in 16 bits, signed. */
  function Short(n: int): int {
    (n + 0x8000) % 0x1_0000 - 0x8000
  }

  /** Counting up and down in a short is counting, seen in 16 bits. */
  lemma ShortAdd(n: int)
    ensures Short(Short(n) + 1) == Short(n + 1) && Short(Short(n) - 1) == Short(n - 1)
  {
  }
}
