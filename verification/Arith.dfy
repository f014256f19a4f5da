/** The few facts about multiplication, quotient and remainder that the other modules need. */
module Arith {
  lemma MulSign(d: int, m: nat)
    ensures d >= 1 ==> d * m >= m
    ensures d <= -1 ==> d * m + m <= 0
  {
    if d >= 1 {
      assert d * m == (d - 1) * m + m;
    } else {
      assert d * m == (d + 1) * m - m;
    }
  }

  lemma DivMod(k: nat, m: nat)
    requires m > 0
    ensures k == (k / m) * m + k % m
  {
  }

  /** Quotient and remainder are determined by k == q * m + r. */
  lemma Unique(k: nat, q: int, r: int, m: nat)
    requires m > 0 && 0 <= r < m && k == q * m + r
    ensures k / m == q && k % m == r
  {
    DivMod(k, m);
    var d := k / m - q;
    assert d * m == (k / m) * m - q * m;
    MulSign(d, m);
  }

  lemma Distribute(a: int, b: int, m: int)
    ensures (a + b) * m == a * m + b * m
  {
  }

  /** The index of item `i` in group `j`, for groups of `m`. */
  function Position(j: nat, i: nat, m: nat): nat {
    j * m + i
  }

  lemma PositionInjective(j: nat, i: nat, j': nat, i': nat, m: nat)
    requires i < m && i' < m && Position(j, i, m) == Position(j', i', m)
    ensures j == j' && i == i'
  {
    Unique(j * m + i, j, i, m);
    Unique(j' * m + i', j', i', m);
  }

  /** Group number `j` of a sequence made of groups of `m`. */
  function Group<T>(s: seq<T>, j: nat, m: nat): (g: seq<T>)
    requires (j + 1) * m <= |s|
    ensures |g| == m
  {
    assert (j + 1) * m == j * m + m;
    s[j * m..j * m + m]
  }

  lemma GroupAt<T>(s: seq<T>, j: nat, m: nat, i: nat)
    requires (j + 1) * m <= |s| && i < m
    ensures Position(j, i, m) < |s| && Group(s, j, m)[i] == s[Position(j, i, m)]
  {
    assert (j + 1) * m == j * m + m;
  }

  lemma MulMonotone(a: nat, b: nat, m: nat)
    requires a <= b
    ensures a * m <= b * m
  {
    assert b * m == a * m + (b - a) * m;
  }

  /** A set of m numbers below m holds all of them. */
  lemma {:induction false} SubsetFull(a: set<nat>, m: nat)
    requires forall x :: x in a ==> x < m
    ensures |a| <= m
    ensures |a| == m ==> forall x: nat :: x < m ==> x in a
  {
    if m == 0 {
      assert a == {};
    } else {
      SubsetFull(a - {m - 1}, m - 1);
      if m - 1 !in a {
        assert a - {m - 1} == a;
      }
    }
  }

  ghost predicate InjectiveBelow(f: nat -> nat, m: nat) {
    forall x: nat, y: nat {:trigger f(x), f(y)} :: x < m && y < m && f(x) == f(y) ==> x == y
  }

  ghost function Image(f: nat -> nat, m: nat): set<nat> {
    set x: nat | x < m :: f(x)
  }

  lemma {:induction false} ImageCount(f: nat -> nat, m: nat)
    requires InjectiveBelow(f, m)
    ensures |Image(f, m)| == m
  {
    if m == 0 {
      assert Image(f, m) == {};
    } else {
      ImageCount(f, m - 1);
      assert Image(f, m) == Image(f, m - 1) + {f(m - 1)};
      assert f(m - 1) !in Image(f, m - 1);
    }
  }

  ghost function Preimage(f: nat -> nat, m: nat, e: nat): set<nat> {
    set x: nat | x < m && f(x) < e
  }

  lemma InImage(f: nat -> nat, m: nat, v: nat) returns (n: nat)
    requires InjectiveBelow(f, m) && v < m && forall x: nat :: x < m ==> f(x) < m
    ensures n < m && f(n) == v
  {
    ImageCount(f, m);
    SubsetFull(Image(f, m), m);
    assert v in Image(f, m);
    n :| n < m && f(n) == v;
  }

  lemma PreimageStep(f: nat -> nat, m: nat, e: nat, n: nat)
    requires InjectiveBelow(f, m) && 0 < e && n < m && f(n) == e - 1
    ensures n !in Preimage(f, m, e - 1) && Preimage(f, m, e) == Preimage(f, m, e - 1) + {n}
  {
  }

  /** A one-to-one map of 0..m to itself sends exactly `e` numbers below `e`. */
  lemma {:induction false} PreimageCount(f: nat -> nat, m: nat, e: nat)
    requires InjectiveBelow(f, m) && e <= m
    requires forall x: nat :: x < m ==> f(x) < m
    ensures |Preimage(f, m, e)| == e
  {
    if e == 0 {
      assert Preimage(f, m, e) == {};
    } else {
      PreimageCount(f, m, e - 1);
      var n := InImage(f, m, e - 1);
      PreimageStep(f, m, e, n);
    }
  }
}
