/**
The pseudo-random sequence of modrep_osld/lte_lib/sequences.c. The second
register is fed back from places 3, 2 and 0, as the source has it; section 7.2
of 3GPP TS 36.211 also feeds place 1 back. Where a member takes a fixed number
as a parameter (the register length 31 as `m` or `size`, the start `lo`), that
keeps the recursive definitions from being unrolled at the number.
*/
module GoldSequence {
  import opened ConvCode
  import Trellis

  const NC := 1600
  const GOLD_MAX_LEN := 2 * NC

  /** The first register. */
  function X1(n: nat): (b: int)
    ensures b == 0 || b == 1
  {
    if n == 0 then 1 else if n < 31 then 0 else (X1(n - 28) + X1(n - 31)) % 2
  }

  /** The second register, loaded with the seed. */
  function X2(seed: nat, n: nat): (b: int)
    ensures b == 0 || b == 1
    decreases n
  {
    if n < 31 then (seed / Pow2(n)) % 2 else (X2(seed, n - 28) + X2(seed, n - 29) + X2(seed, n - 31)) % 2
  }

  lemma Recurrence(seed: nat, n: nat)
    ensures X2(seed, n + 31) == (X2(seed, n + 3) + X2(seed, n + 2) + X2(seed, n)) % 2
  {
  }

  function Gold(seed: nat, n: nat): (b: int)
    ensures b == 0 || b == 1
  {
    (X1(n + NC) + X2(seed, n + NC)) % 2
  }

  function Sequence(seed: nat, len: nat): (c: seq<int>)
    ensures |c| == len
  {
    seq(len, n requires 0 <= n < len => Gold(seed, n))
  }

  // --------------------------------------------------------------- the generator

  /** The first `n` places hold the registers' output. */
  ghost predicate Holds(x1: seq<int>, x2: seq<int>, seed: nat, n: nat) {
    && n <= |x1| && n <= |x2|
    && (forall i: nat {:trigger x1[i]} :: i < n ==> x1[i] == X1(i))
    && forall i: nat {:trigger x2[i]} :: i < n ==> x2[i] == X2(seed, i)
  }

  /** Loads the registers. */
  method Load(seed: nat, x1: array<int>, x2: array<int>, size: nat)
    requires x1 != x2 && size == 31 <= x1.Length && size <= x2.Length
    modifies x1, x2
    ensures Holds(x1[..], x2[..], seed, size)
  {
    var n := 0;
    while n < size
      invariant 0 <= n <= size
      invariant forall i: nat {:trigger x1[i]} :: i < n ==> x1[i] == 0
      invariant forall i: nat {:trigger x2[i]} :: i < n ==> x2[i] == (seed / Pow2(i)) % 2
    {
      x1[n] := 0;
      x2[n] := (seed / Pow2(n)) % 2;
      n := n + 1;
    }
    x1[0] := 1;
  }

  lemma HoldsNext(x1: seq<int>, x2: seq<int>, seed: nat, n: nat, k: nat, b1: int, b2: int)
    requires Holds(x1, x2, seed, k) && k == n + 31 && k < |x1| && k < |x2|
    requires b1 == (x1[n + 3] + x1[n]) % 2 && b2 == (x2[n + 3] + x2[n + 2] + x2[n]) % 2
    ensures Holds(x1[k := b1], x2[k := b2], seed, k + 1)
  {
    Recurrence(seed, n);
    assert x1[n + 3] == X1(n + 3) && x1[n] == X1(n);
    assert b1 == X1(k) && b2 == X2(seed, k);
  }

  /** Runs the registers for `total` steps. */
  method Run(seed: nat, total: nat, x1: array<int>, x2: array<int>)
    requires x1 != x2 && total + 31 <= x1.Length && total + 31 <= x2.Length && Holds(x1[..], x2[..], seed, 31)
    modifies x1, x2
    ensures Holds(x1[..], x2[..], seed, total + 31)
  {
    var n := 0;
    while n < total
      invariant 0 <= n <= total
      invariant Holds(x1[..], x2[..], seed, n + 31)
    {
      var b1, b2 := (x1[n + 3] + x1[n]) % 2, (x2[n + 3] + x2[n + 2] + x2[n]) % 2;
      HoldsNext(x1[..], x2[..], seed, n, n + 31, b1, b2);
      ghost var before1, before2 := x1[..], x2[..];
      x1[n + 31] := b1;
      x2[n + 31] := b2;
      assert x1[..] == before1[n + 31 := b1] && x2[..] == before2[n + 31 := b2];
      n := n + 1;
    }
  }

  /** Combines the registers after the warm-up. */
  method Combine(x1: array<int>, x2: array<int>, seed: nat, len: nat, c: array<int>)
    requires c != x1 && c != x2 && len <= c.Length && Holds(x1[..], x2[..], seed, NC + len)
    modifies c
    ensures c[..len] == Sequence(seed, len) && c[len..] == old(c[len..])
  {
    ghost var s1, s2 := x1[..], x2[..];
    var n := 0;
    while n < len
      invariant 0 <= n <= len && c[len..] == old(c[len..])
      invariant forall i: nat {:trigger c[i]} :: i < n ==> c[i] == Gold(seed, i)
    {
      c[n] := (x1[n + NC] + x2[n + NC]) % 2;
      assert c[n] == (s1[n + NC] + s2[n + NC]) % 2;
      n := n + 1;
    }
  }

  /** `generate_prs_c`, within the length that its arrays allow. */
  method Generate(seed: nat, len: nat, c: array<int>)
    requires len <= c.Length && NC + len + 31 <= GOLD_MAX_LEN
    modifies c
    ensures c[..len] == Sequence(seed, len) && c[len..] == old(c[len..])
  {
    var x1, x2 := new int[GOLD_MAX_LEN], new int[GOLD_MAX_LEN];
    Load(seed, x1, x2, 31);
    Run(seed, NC + len, x1, x2);
    Combine(x1, x2, seed, len, c);
  }

  // ------------------------------------------------------------------ running back

  /** Two runs agree on the 31 places from `lo` on. */
  ghost predicate Agree(seed: nat, seed': nat, lo: nat) {
    forall i: nat :: lo <= i < lo + 31 ==> Same(seed, seed', i)
  }

  predicate Same(seed: nat, seed': nat, i: nat) {
    X2(seed, i) == X2(seed', i)
  }

  /** The register can be run backwards: the place before a window is determined by the window. */
  lemma StepBack(seed: nat, seed': nat, lo: nat)
    requires Agree(seed, seed', lo + 1)
    ensures Agree(seed, seed', lo)
  {
    Recurrence(seed, lo);
    Recurrence(seed', lo);
    assert Same(seed, seed', lo + 31) && Same(seed, seed', lo + 3) && Same(seed, seed', lo + 2);
    assert Same(seed, seed', lo);
  }

  lemma StepForward(seed: nat, seed': nat, lo: nat)
    requires Agree(seed, seed', lo)
    ensures Agree(seed, seed', lo + 1)
  {
    Recurrence(seed, lo);
    Recurrence(seed', lo);
    assert Same(seed, seed', lo) && Same(seed, seed', lo + 3) && Same(seed, seed', lo + 2);
    assert Same(seed, seed', lo + 31);
  }

  lemma {:induction false} AgreeAnywhere(seed: nat, seed': nat, lo: nat)
    ensures Agree(seed, seed', lo) <==> Agree(seed, seed', 0)
  {
    if lo > 0 {
      AgreeAnywhere(seed, seed', lo - 1);
      if Agree(seed, seed', lo) {
        StepBack(seed, seed', lo - 1);
      } else if Agree(seed, seed', lo - 1) {
        StepForward(seed, seed', lo - 1);
      }
    }
  }

  /** The window at the start is the seed. */
  lemma WindowIsSeed(seed: nat, seed': nat, m: nat)
    requires m == 31
    ensures Agree(seed, seed', 0) <==> Bits(seed, m) == Bits(seed', m)
  {
    forall i: nat | i < m ensures Same(seed, seed', i) <==> Bits(seed, m)[m - 1 - i] == Bits(seed', m)[m - 1 - i] {
      BitsAt(seed, m, m - 1 - i);
      BitsAt(seed', m, m - 1 - i);
    }
    if Agree(seed, seed', 0) {
      forall k: nat | k < m ensures Bits(seed, m)[k] == Bits(seed', m)[k] {
        assert Same(seed, seed', m - 1 - k);
      }
    }
  }

  lemma SameGold(seed: nat, seed': nat, n: nat)
    ensures Gold(seed, n) == Gold(seed', n) <==> Same(seed, seed', n + NC)
  {
  }

  lemma {:induction false} AgreeForward(seed: nat, seed': nat, n: nat)
    requires Agree(seed, seed', 0)
    ensures Same(seed, seed', n)
  {
    AgreeAnywhere(seed, seed', n);
  }

  lemma EqualGivesAgree(seed: nat, seed': nat, len: nat)
    requires len >= 31 && Sequence(seed, len) == Sequence(seed', len)
    ensures Agree(seed, seed', NC)
  {
    forall i: nat | NC <= i < NC + 31 ensures Same(seed, seed', i) {
      assert Sequence(seed, len)[i - NC] == Sequence(seed', len)[i - NC];
      SameGold(seed, seed', i - NC);
    }
  }

  lemma AgreeGivesEqual(seed: nat, seed': nat, len: nat)
    requires Agree(seed, seed', 0)
    ensures Sequence(seed, len) == Sequence(seed', len)
  {
    forall n: nat | n < len ensures Gold(seed, n) == Gold(seed', n) {
      AgreeForward(seed, seed', n + NC);
      SameGold(seed, seed', n);
    }
  }

  /** Sequences of at least 31 bits are equal exactly if the low 31 bits of the seeds are. */
  lemma SeedsBySequence(seed: nat, seed': nat, len: nat, m: nat)
    requires len >= 31 && m == 31
    ensures Sequence(seed, len) == Sequence(seed', len) <==> Bits(seed, m) == Bits(seed', m)
  {
    WindowIsSeed(seed, seed', m);
    AgreeAnywhere(seed, seed', NC);
    if Sequence(seed, len) == Sequence(seed', len) {
      EqualGivesAgree(seed, seed', len);
    }
    if Agree(seed, seed', 0) {
      AgreeGivesEqual(seed, seed', len);
    }
  }

  /** Two different 31-bit seeds never give the same sequence. */
  lemma SeedIsDetermined(seed: nat, seed': nat, len: nat, m: nat)
    requires len >= 31 && m == 31 && seed < Pow2(m) && seed' < Pow2(m)
    ensures Sequence(seed, len) == Sequence(seed', len) <==> seed == seed'
  {
    SeedsBySequence(seed, seed', len, m);
    Trellis.BitsThenValue(seed, m);
    Trellis.BitsThenValue(seed', m);
  }

  // ------------------------------------------------------------------ the standard

  /** How many places the sequence of section 7.2 of 3GPP TS 36.211 leaves out. */
  const STANDARD_OFFSET := 1600

  /** The first register as that section has it: a one behind which thirty zeros are loaded. */
  function Y1(n: nat): (b: int)
    ensures b == 0 || b == 1
  {
    if n < 31 then (if n == 0 then 1 else 0) else (Y1(n - 31 + 3) + Y1(n - 31)) % 2
  }

  /** The code's first register is the standard's. */
  lemma {:induction false} FirstRegister(n: nat)
    ensures X1(n) == Y1(n)
  {
    if n >= 31 {
      FirstRegister(n - 28);
      FirstRegister(n - 31);
    }
  }

  /** The second register as section 7.2 of 3GPP TS 36.211 has it. */
  function Y2(seed: nat, n: nat): (b: int)
    ensures b == 0 || b == 1
    decreases n
  {
    if n < 31 then (seed / Pow2(n)) % 2
    else (Y2(seed, n - 28) + Y2(seed, n - 29) + Y2(seed, n - 30) + Y2(seed, n - 31)) % 2
  }

  function StandardGold(seed: nat, n: nat): (b: int)
    ensures b == 0 || b == 1
  {
    (Y1(n + STANDARD_OFFSET) + Y2(seed, n + STANDARD_OFFSET)) % 2
  }

  /** The sequence of the standard. */
  function StandardSequence(seed: nat, len: nat): (c: seq<int>)
    ensures |c| == len
  {
    seq(len, n requires 0 <= n < len => StandardGold(seed, n))
  }

  /** The code's register and the standard's hold the same at `i`. */
  predicate Conforms(seed: nat, i: nat) {
    X2(seed, i) == Y2(seed, i)
  }

  lemma StandardRecurrence(seed: nat, n: nat)
    ensures Y2(seed, n + 31) == (Y2(seed, n + 3) + Y2(seed, n + 2) + Y2(seed, n + 1) + Y2(seed, n)) % 2
  {
  }

  lemma ConformsGold(seed: nat, n: nat)
    ensures Gold(seed, n) == StandardGold(seed, n) <==> Conforms(seed, n + NC)
  {
    FirstRegister(n + NC);
  }

  /** From the zero seed, both registers stay zero. */
  lemma {:induction false} ZeroSeed(seed: nat, n: nat)
    requires forall i: nat :: i < 31 ==> (seed / Pow2(i)) % 2 == 0
    ensures X2(seed, n) == 0 && Y2(seed, n) == 0
  {
    if n >= 31 {
      ZeroSeed(seed, n - 31);
      ZeroSeed(seed, n - 30);
      ZeroSeed(seed, n - 29);
      ZeroSeed(seed, n - 28);
      Recurrence(seed, n - 31);
      StandardRecurrence(seed, n - 31);
    }
  }

  lemma ZeroQuotient(p: nat)
    requires p > 0
    ensures 0 / p == 0
  {
  }

  lemma ZeroIsZero(n: nat)
    ensures X2(0, n) == 0
  {
    forall i: nat | i < 31 ensures (0 / Pow2(i)) % 2 == 0 {
      ZeroQuotient(Pow2(i));
    }
    ZeroSeed(0, n);
  }

  /** Where the registers conform around place `n`, the place after it is zero. */
  lemma ConformingPlaceIsZero(seed: nat, n: nat)
    requires Conforms(seed, n) && Conforms(seed, n + 1) && Conforms(seed, n + 2) && Conforms(seed, n + 3) && Conforms(seed, n + 31)
    ensures Same(seed, 0, n + 1)
  {
    Recurrence(seed, n);
    StandardRecurrence(seed, n);
    ZeroIsZero(n + 1);
  }

  /** Registers that conform on 62 places in a row have been zero from the start. */
  lemma ConformingIsZero(seed: nat, lo: nat)
    requires forall i: nat :: lo <= i < lo + 62 ==> Conforms(seed, i)
    ensures Agree(seed, 0, 0)
  {
    forall i: nat | lo + 1 <= i < lo + 1 + 31 ensures Same(seed, 0, i) {
      var n: nat := i - 1;
      ConformingPlaceIsZero(seed, n);
    }
    AgreeAnywhere(seed, 0, lo + 1);
  }

  lemma EqualGivesConforming(seed: nat, len: nat, lo: nat)
    requires len >= 62 && lo == NC && Sequence(seed, len) == StandardSequence(seed, len)
    ensures forall i: nat :: lo <= i < lo + 62 ==> Conforms(seed, i)
  {
    forall i: nat | lo <= i < lo + 62 ensures Conforms(seed, i) {
      assert Sequence(seed, len)[i - lo] == StandardSequence(seed, len)[i - lo];
      ConformsGold(seed, i - lo);
    }
  }

  /** A seed whose low 31 bits are zero gives the standard's sequence, at every length. */
  lemma ZeroGivesStandard(seed: nat, len: nat)
    requires Agree(seed, 0, 0)
    ensures Sequence(seed, len) == StandardSequence(seed, len)
  {
    forall i: nat | i < 31 ensures (seed / Pow2(i)) % 2 == 0 {
      assert Same(seed, 0, i);
      ZeroIsZero(i);
    }
    forall n: nat | n < len ensures Gold(seed, n) == StandardGold(seed, n) {
      ZeroSeed(seed, n + NC);
      ConformsGold(seed, n);
    }
  }

  /** Over 62 bits or more, the code gives the standard's sequence exactly for the seeds whose low 31 bits are zero. */
  lemma StandardIffZero(seed: nat, len: nat, m: nat)
    requires len >= 62 && m == 31
    ensures Sequence(seed, len) == StandardSequence(seed, len) <==> Bits(seed, m) == Bits(0, m)
  {
    WindowIsSeed(seed, 0, m);
    if Sequence(seed, len) == StandardSequence(seed, len) {
      EqualGivesConforming(seed, len, NC);
      ConformingIsZero(seed, NC);
    }
    if Agree(seed, 0, 0) {
      ZeroGivesStandard(seed, len);
    }
  }

  lemma SeedTwoWindow(n: nat)
    requires n < 4
    ensures X2(2, n) == Y2(2, n) == if n == 1 then 1 else 0
  {
    assert Pow2(0) == 1 && Pow2(1) == 2 && Pow2(2) == 4 && Pow2(3) == 8;
  }

  /** Seed 2 departs from the standard at the first bit that is fed back, with `n` at 0. */
  lemma SeedTwoDeparts(n: nat)
    requires n == 0
    ensures X2(2, n + 31) == 0 && Y2(2, n + 31) == 1
  {
    SeedTwoWindow(n);
    SeedTwoWindow(n + 1);
    SeedTwoWindow(n + 2);
    SeedTwoWindow(n + 3);
    Recurrence(2, n);
    StandardRecurrence(2, n);
  }

  /** So its sequence is not the standard's, at any length from 62 on. */
  lemma SeedTwoDiffers(len: nat, m: nat)
    requires len >= 62 && m == 31
    ensures Sequence(2, len) != StandardSequence(2, len)
  {
    StandardIffZero(2, len, m);
    BitsAt(2, m, m - 2);
    BitsAt(0, m, m - 2);
    assert Pow2(1) == 2;
  }
}
