/** The generator of random_num.h: MT19937 with a state array that is regenerated in place,
    against the plain recurrence. */
module Mersenne {
  const N: nat := 624
  const M: nat := 397
  const MATRIX_A: bv32 := 0x9908_b0df
  const UPPER_MASK: bv32 := 0x8000_0000
  const LOWER_MASK: bv32 := 0x7fff_ffff

  /** A 32-bit word (unsigned long on the i386). */
  datatype Word = Word(bits: bv32)

  function Mag(y: bv32): bv32 {
    if y & 1 == 0 then 0 else MATRIX_A
  }

  /** The word that follows u (top bit) and v (other bits) under the recurrence, with w added in. */
  function Twist(u: Word, v: Word, w: Word): Word {
    var y := (u.bits & UPPER_MASK) | (v.bits & LOWER_MASK);
    Word(w.bits ^ (y >> 1) ^ Mag(y))
  }

  function Scramble(x: Word): Word {
    Word(69069 * x.bits)
  }

  /** The masks with 0xffffffff. */
  function Low32(x: Word): Word {
    Word(x.bits & 0xffff_ffff)
  }

  lemma Low32Is(x: Word)
    ensures Low32(x) == x
  {
  }

  function TemperU(y: Word): Word { Word(y.bits ^ (y.bits >> 11)) }
  function TemperS(y: Word): Word { Word(y.bits ^ ((y.bits << 7) & 0x9d2c_5680)) }
  function TemperT(y: Word): Word { Word(y.bits ^ ((y.bits << 15) & 0xefc6_0000)) }
  function TemperL(y: Word): Word { Word(y.bits ^ (y.bits >> 18)) }

  function Temper(x: Word): Word {
    TemperL(TemperT(TemperS(TemperU(x))))
  }

  /** Without the top bit. */
  function Strip(y: Word): Word {
    Word(y.bits & LOWER_MASK)
  }

  const DEFAULT_SEED: Word := Word(4357)

  /** Term k of the sequence: a linear congruence for the first N terms, then the recurrence. */
  function X(seed: Word, k: nat): Word {
    if k == 0 then seed
    else if k < N then Scramble(X(seed, k - 1))
    else Twist(X(seed, k - N), X(seed, k - N + 1), X(seed, k - N + M))
  }

  class Generator {
    const mt: array<Word>
    var mti: nat
    ghost var seed: Word
    ghost var base: nat        // the term that mt[0] holds, once there is a seed

    ghost predicate Valid()
      reads this, mt
    {
      && mt.Length == N && (mti <= N || mti == N + 1)
      && (mti <= N ==> Holds(mt[..], seed, base, base, N))
    }

    /** The term that the next call returns. */
    ghost function NextTerm(): nat
      reads this
    {
      if mti == N + 1 then N else base + mti
    }

    /** The seed that the next call works from. */
    ghost function Seed(): Word
      reads this
    {
      if mti == N + 1 then DEFAULT_SEED else seed
    }

    constructor ()
      ensures Valid() && NextTerm() == N && Seed() == DEFAULT_SEED && fresh(mt)
    {
      mt := new Word[N](_ => Word(0));
      mti := N + 1;
    }

    method Sgenrand(s: Word)
      requires Valid()
      modifies this, mt
      ensures Valid() && NextTerm() == N && Seed() == s && mti == N
    {
      hide X, Scramble, Low32;
      Low32Is(s);
      Early(s, 0);
      mt[0] := Low32(s);
      mti := 1;
      while mti < N
        invariant 1 <= mti <= N
        invariant forall i :: 0 <= i < mti ==> mt[i] == X(s, i)
      {
        Low32Is(Scramble(mt[mti - 1]));
        Early(s, mti);
        mt[mti] := Low32(Scramble(mt[mti - 1]));
        mti := mti + 1;
      }
      seed, base := s, 0;
    }

    /** Replaces term base + i by term base + N + i, for every i, in three parts. */
    method Regenerate()
      requires Valid() && mti == N
      modifies this, mt
      ensures Valid() && mti == 0 && base == old(base) + N && seed == old(seed)
    {
      hide X, Twist, Holds;
      ghost var b := base;
      StillHolds(mt[..], seed, b);
      var kk := 0;
      while kk < N - M
        invariant 0 <= kk <= N - M && base == b && seed == old(seed)
        invariant Holds(mt[..], seed, b, b + N, kk)
      {
        ghost var a := mt[..];
        Replace(a, seed, b, kk);
        mt[kk] := Twist(mt[kk], mt[kk + 1], mt[kk + M]);
        assert mt[..] == a[kk := mt[kk]];
        kk := kk + 1;
      }
      while kk < N - 1
        invariant N - M <= kk <= N - 1 && base == b && seed == old(seed)
        invariant Holds(mt[..], seed, b, b + N, kk)
      {
        ghost var a := mt[..];
        Replace(a, seed, b, kk);
        mt[kk] := Twist(mt[kk], mt[kk + 1], mt[kk + M - N]);
        assert mt[..] == a[kk := mt[kk]];
        kk := kk + 1;
      }
      ghost var a := mt[..];
      Replace(a, seed, b, N - 1);
      mt[N - 1] := Twist(mt[N - 1], mt[0], mt[M - 1]);
      assert mt[..] == a[N - 1 := mt[N - 1]];
      AllReplaced(mt[..], seed, b);
      mti := 0;
      base := b + N;
    }

    /** Call number c returns term N + c of the sequence, tempered, without its top bit. */
    method Genrand() returns (r: Word)
      requires Valid()
      modifies this, mt
      ensures Valid() && Seed() == old(Seed()) && NextTerm() == old(NextTerm()) + 1
      ensures r == Strip(Temper(X(old(Seed()), old(NextTerm()))))
    {
      hide X, Holds, TemperU, TemperS, TemperT, TemperL, Strip, Twist, Scramble;
      if mti >= N {
        if mti == N + 1 {
          Sgenrand(DEFAULT_SEED);
        }
        Regenerate();
      }
      TermAt(mt[..], seed, base, mti);
      var y := mt[mti];
      mti := mti + 1;
      y := TemperU(y);
      y := TemperS(y);
      y := TemperT(y);
      y := TemperL(y);
      r := Strip(y);
    }
  }

  /** The first k words are terms from hi on, the others terms from lo on. */
  ghost predicate Holds(a: seq<Word>, seed: Word, lo: nat, hi: nat, k: nat) {
    |a| == N && forall i: nat :: i < N ==> a[i] == X(seed, (if i < k then hi else lo) + i)
  }

  lemma Early(seed: Word, k: nat)
    requires k < N
    ensures X(seed, k) == if k == 0 then seed else Scramble(X(seed, k - 1))
  {
  }

  lemma Unfold(seed: Word, k: nat)
    requires k >= N
    ensures X(seed, k) == Twist(X(seed, k - N), X(seed, k - N + 1), X(seed, k - N + M))
  {
    hide Twist;
  }

  lemma TwistBits(u: Word, v: Word, w: Word)
    ensures var y := (u.bits & 0x8000_0000) | (v.bits & 0x7fff_ffff);
            Twist(u, v, w).bits == w.bits ^ (y >> 1) ^ (if y & 1 == 0 then 0 else 0x9908_b0df)
  {
  }

  /** The recurrence on bits, with u, v and w the terms 624, 623 and 227 before: the top bit of u and the
      others of v, shifted, and the constant added in if they are odd. */
  lemma Recurrence(seed: Word, k: nat, u: Word, v: Word, w: Word)
    requires k >= 624 && u == X(seed, k - 624) && v == X(seed, k - 623) && w == X(seed, k - 227)
    ensures var y := (u.bits & 0x8000_0000) | (v.bits & 0x7fff_ffff);
            X(seed, k).bits == w.bits ^ (y >> 1) ^ (if y & 1 == 0 then 0 else 0x9908_b0df)
  {
    hide X, Twist;
    Unfold(seed, k);
    TwistBits(u, v, w);
  }

  /** The terms before are a congruential sequence. */
  lemma Congruence(seed: Word, k: nat)
    requires k < 624
    ensures k == 0 ==> X(seed, k) == seed
    ensures k > 0 ==> X(seed, k).bits == 69069 * X(seed, k - 1).bits
  {
    hide X;
    Early(seed, k);
  }

  /** With the seed that is used without sgenrand, what the first call returns: published for this
      generator as 3510405877, of which genrand drops the top bit. Term 397, the congruence's, is given. */
  lemma FirstOutput()
    requires X(DEFAULT_SEED, 397) == Word(61989553)
    ensures Strip(Temper(X(DEFAULT_SEED, 624))) == Word(3510405877 - 0x8000_0000)
  {
    hide X;
    Early(DEFAULT_SEED, 0);
    Early(DEFAULT_SEED, 1);
    Unfold(DEFAULT_SEED, 624);
    assert X(DEFAULT_SEED, 1) == Word(300933633);
    Sample();
  }

  lemma Sample()
    ensures Strip(Temper(Twist(Word(4357), Word(300933633), Word(61989553)))) == Word(3510405877 - 0x8000_0000)
  {
  }

  function Around(i: nat): (r: nat)
    requires i < 2 * N
    ensures r < N
  {
    if i < N then i else i - N
  }

  lemma StillHolds(a: seq<Word>, seed: Word, b: nat)
    requires Holds(a, seed, b, b, N)
    ensures Holds(a, seed, b, b + N, 0)
  {
    hide X;
  }

  lemma AllReplaced(a: seq<Word>, seed: Word, b: nat)
    requires Holds(a, seed, b, b + N, N)
    ensures Holds(a, seed, b + N, b + N, N)
  {
    hide X;
  }

  lemma TermAt(a: seq<Word>, seed: Word, b: nat, i: nat)
    requires Holds(a, seed, b, b, N) && i < N
    ensures |a| == N && a[i] == X(seed, b + i)
  {
    hide X;
  }

  /** Word kk is replaced from words kk, kk + 1 and kk + M, counted around the array: of these the
      ones before kk have been replaced already. */
  lemma Replace(a: seq<Word>, seed: Word, b: nat, kk: nat)
    requires Holds(a, seed, b, b + N, kk) && kk < N
    ensures |a| == N
    ensures Holds(a[kk := Twist(a[kk], a[Around(kk + 1)], a[Around(kk + M)])], seed, b, b + N, kk + 1)
  {
    hide X, Twist;
    Unfold(seed, b + N + kk);
    assert a[kk] == X(seed, b + kk);
    assert a[Around(kk + 1)] == X(seed, b + kk + 1);
    assert a[Around(kk + M)] == X(seed, b + kk + M);
  }
}
