/**
Soft and hard demapping (section 7.1 of 3GPP TS 36.211):
modrep_osld/gen_soft_demod/src/soft_demod_functions.c with the tables of
soft_demod_tables.c, and modrep_osld/gen_hard_demod/src/hard_demod_functions.c.
Numbers are exact, and `u` is the unit of the constellation's levels.
*/
module Demapper {
  import Arith
  import opened ConvCode
  import Trellis

  datatype Modulation = BPSK | QPSK | QAM16 | QAM64
  datatype Complex = Complex(re: real, im: real)

  function BitsPerSymbol(mod: Modulation): (b: nat)
    ensures 0 < b <= 6
  {
    match mod
    case BPSK => 1
    case QPSK => 2
    case QAM16 => 4
    case QAM64 => 6
  }

  /** One axis of BPSK and QPSK. */
  function Axis4(b: int, u: real): real {
    if b == 0 then u else -u
  }

  /** One axis of 16QAM. */
  function Axis16(b: int, outer: int, u: real): real {
    if b == 0 then (if outer == 0 then u else 3.0 * u) else (if outer == 0 then -u else -3.0 * u)
  }

  /** The positive half of one axis of 64QAM. */
  function Level64(hi: int, lo: int, u: real): real {
    if hi == 0 then (if lo == 0 then 3.0 * u else u) else (if lo == 0 then 5.0 * u else 7.0 * u)
  }

  function Axis64(b: int, hi: int, lo: int, u: real): real {
    if b == 0 then Level64(hi, lo, u) else -Level64(hi, lo, u)
  }

  predicate IsLabel(mod: Modulation, bits: seq<int>) {
    |bits| == BitsPerSymbol(mod) && IsBits(bits)
  }

  /** The constellation point with a given label. */
  function Point(mod: Modulation, u: real, bits: seq<int>): Complex
    requires IsLabel(mod, bits)
  {
    match mod
    case BPSK => Complex(Axis4(bits[0], u), Axis4(bits[0], u))
    case QPSK => Complex(Axis4(bits[0], u), Axis4(bits[1], u))
    case QAM16 => Complex(Axis16(bits[0], bits[2], u), Axis16(bits[1], bits[3], u))
    case QAM64 => Complex(Axis64(bits[0], bits[2], bits[4], u), Axis64(bits[1], bits[3], bits[5], u))
  }

  function Square(x: real): (r: real)
    ensures r >= 0.0
  {
    x * x
  }

  /** The squared distance. */
  function Distance(p: Complex, z: Complex): real {
    Square(p.re - z.re) + Square(p.im - z.im)
  }

  /** `bits` label a constellation point than which none is closer. */
  ghost predicate IsNearest(mod: Modulation, u: real, p: Complex, bits: seq<int>) {
    && IsLabel(mod, bits)
    && forall other: seq<int> :: IsLabel(mod, other) ==> Distance(p, Point(mod, u, bits)) <= Distance(p, Point(mod, u, other))
  }

  // ---------------------------------------------------- thresholds find the nearest

  /** `a` is at least as close to `x` as `b`: they are equal, or `x` lies on the side of `a` of their midpoint. */
  predicate OnSide(x: real, a: real, b: real) {
    a == b || (a > b && 2.0 * x >= a + b) || (a < b && 2.0 * x <= a + b)
  }

  lemma ProductSign(p: real, q: real)
    requires p == 0.0 || (p >= 0.0 && q >= 0.0)
    ensures p * q >= 0.0
  {
  }

  lemma Closer(x: real, a: real, b: real)
    requires OnSide(x, a, b)
    ensures Square(x - a) <= Square(x - b)
  {
    if a > b {
      ProductSign(a - b, 2.0 * x - a - b);
      assert Square(x - b) - Square(x - a) == (a - b) * (2.0 * x - a - b);
    } else {
      ProductSign(b - a, a + b - 2.0 * x);
      assert Square(x - b) - Square(x - a) == (b - a) * (a + b - 2.0 * x);
    }
  }

  lemma BothCloser(p: Complex, a: Complex, b: Complex)
    requires OnSide(p.re, a.re, b.re) && OnSide(p.im, a.im, b.im)
    ensures Distance(p, a) <= Distance(p, b)
  {
    Closer(p.re, a.re, b.re);
    Closer(p.im, a.im, b.im);
  }

  lemma Axis4OnSide(x: real, u: real, b: int, b': int)
    requires u > 0.0 && (x > 0.0 ==> b == 0) && (x <= 0.0 ==> b != 0)
    ensures OnSide(x, Axis4(b, u), Axis4(b', u))
  {
  }

  lemma Axis16OnSide(x: real, u: real, s: int, a: int, s': int, a': int)
    requires u > 0.0 && (x > 0.0 ==> s == 0) && (x <= 0.0 ==> s != 0)
    requires a == 0 <==> -2.0 * u <= x <= 2.0 * u
    ensures OnSide(x, Axis16(s, a, u), Axis16(s', a', u))
  {
  }

  lemma Axis64OnSide(x: real, u: real, s: int, hi: int, lo: int, s': int, hi': int, lo': int)
    requires u > 0.0 && (x > 0.0 ==> s == 0) && (x <= 0.0 ==> s != 0)
    requires hi == 0 <==> -4.0 * u <= x <= 4.0 * u
    requires lo == 0 <==> (-6.0 * u <= x <= 6.0 * u && !(-2.0 * u <= x <= 2.0 * u))
    ensures OnSide(x, Axis64(s, hi, lo, u), Axis64(s', hi', lo', u))
  {
  }

  lemma BpskCloser(p: Complex, u: real)
    requires u > 0.0
    ensures p.re + p.im >= 0.0 ==> Distance(p, Complex(u, u)) <= Distance(p, Complex(-u, -u))
    ensures p.re + p.im <= 0.0 ==> Distance(p, Complex(-u, -u)) <= Distance(p, Complex(u, u))
  {
    assert Distance(p, Complex(-u, -u)) - Distance(p, Complex(u, u)) == 4.0 * u * (p.re + p.im);
  }

  // ------------------------------------------------------------- the soft decision

  /** A number made of `k` with bit `c` put in at weight `w`. */
  function InsertBit(k: nat, w: nat, c: nat): nat
    requires w > 0
  {
    (2 * (k / w) + c) * w + k % w
  }

  lemma InsertBitAt(k: nat, w: nat, c: nat)
    requires w > 0 && c < 2
    ensures InsertBit(k, w, c) / w == 2 * (k / w) + c && (InsertBit(k, w, c) / w) % 2 == c
  {
    Arith.Unique(InsertBit(k, w, c), 2 * (k / w) + c, k % w, w);
  }

  lemma {:induction false} PowSum(a: nat, b: nat)
    ensures Pow2(a + b) == Pow2(a) * Pow2(b)
  {
    if a > 0 {
      PowSum(a - 1, b);
    }
  }

  /** The symbols with bit `c` at place `b` of a label of `n` bits, as numbers below 2^n. */
  function Member(n: nat, b: nat, c: nat, k: nat): nat
    requires b < n && c < 2
  {
    InsertBit(k, Pow2(n - 1 - b), c)
  }

  lemma QuotientBound(k: nat, w: nat, q: nat)
    requires w > 0 && k < q * w
    ensures k / w < q
  {
    Arith.DivMod(k, w);
    Arith.MulSign(k / w - q, w);
    assert (k / w - q) * w == (k / w) * w - q * w;
  }

  lemma InsertBelow(k: nat, w: nat, c: nat, q: nat)
    requires w > 0 && c < 2 && k < q * w
    ensures InsertBit(k, w, c) < 2 * (q * w)
  {
    var h := 2 * (k / w) + c;
    QuotientBound(k, w, q);
    Arith.MulMonotone(h + 1, 2 * q, w);
    assert (h + 1) * w == h * w + w;
    assert (2 * q) * w == 2 * (q * w);
  }

  /** Every listed symbol has the bit that its list is for. */
  lemma MemberBit(n: nat, b: nat, c: nat, k: nat)
    requires b < n && c < 2 && k < Pow2(n - 1)
    ensures Member(n, b, c, k) < Pow2(n) && Bits(Member(n, b, c, k), n)[b] == c
  {
    PowSum(b, n - 1 - b);
    InsertBelow(k, Pow2(n - 1 - b), c, Pow2(b));
    InsertBitAt(k, Pow2(n - 1 - b), c);
    BitsAt(Member(n, b, c, k), n, b);
  }

  /** `i` without its bit at weight `w`. */
  function RemoveBit(i: nat, w: nat): nat
    requires w > 0
  {
    ((i / w) / 2) * w + i % w
  }

  lemma RemoveThenInsert(i: nat, w: nat)
    requires w > 0
    ensures InsertBit(RemoveBit(i, w), w, (i / w) % 2) == i
  {
    var h := (i / w) / 2;
    Arith.Unique(RemoveBit(i, w), h, i % w, w);
    Arith.DivMod(i, w);
    assert 2 * h + (i / w) % 2 == i / w;
  }

  lemma RemoveBelow(i: nat, w: nat, q: nat)
    requires w > 0 && i < 2 * (q * w)
    ensures RemoveBit(i, w) < q * w
  {
    var h := (i / w) / 2;
    assert (2 * q) * w == 2 * (q * w);
    QuotientBound(i, w, 2 * q);
    Arith.MulMonotone(h + 1, q, w);
    assert (h + 1) * w == h * w + w;
  }

  /** Every symbol with the bit is listed. */
  lemma MemberOf(n: nat, b: nat, i: nat) returns (k: nat)
    requires b < n && i < Pow2(n)
    ensures k < Pow2(n - 1) && Member(n, b, Bits(i, n)[b], k) == i
  {
    k := RemoveBit(i, Pow2(n - 1 - b));
    PowSum(b, n - 1 - b);
    BitsAt(i, n, b);
    RemoveThenInsert(i, Pow2(n - 1 - b));
    RemoveBelow(i, Pow2(n - 1 - b), Pow2(b));
  }

  /** The distance to the symbol with number `i`. */
  function DistanceTo(mod: Modulation, u: real, p: Complex, i: nat): real {
    Distance(p, Point(mod, u, Bits(i, BitsPerSymbol(mod))))
  }

  /** The distances to the symbols whose bit `b` is `c`. */
  function Distances(mod: Modulation, u: real, p: Complex, b: nat, c: nat): (ds: seq<real>)
    requires b < BitsPerSymbol(mod) && c < 2
    ensures |ds| == Pow2(BitsPerSymbol(mod) - 1)
  {
    seq(Pow2(BitsPerSymbol(mod) - 1), k requires 0 <= k < Pow2(BitsPerSymbol(mod) - 1) =>
      DistanceTo(mod, u, p, Member(BitsPerSymbol(mod), b, c, k)))
  }

  /** The smallest of the first `n` distances. */
  function Smallest(ds: seq<real>, n: nat): real
    requires 0 < n <= |ds|
  {
    if n == 1 then ds[0] else
      var least := Smallest(ds, n - 1);
      if ds[n - 1] < least then ds[n - 1] else least
  }

  lemma {:induction false} SmallestIsLeast(ds: seq<real>, n: nat, k: nat)
    requires k < n <= |ds|
    ensures Smallest(ds, n) <= ds[k]
  {
    if k < n - 1 {
      SmallestIsLeast(ds, n - 1, k);
    }
  }

  lemma {:induction false} SmallestAttained(ds: seq<real>, n: nat) returns (k: nat)
    requires 0 < n <= |ds|
    ensures k < n && Smallest(ds, n) == ds[k]
  {
    k := 0;
    if n > 1 {
      k := SmallestAttained(ds, n - 1);
      if ds[n - 1] < Smallest(ds, n - 1) {
        k := n - 1;
      }
    }
  }

  /** `ds` are those distances. */
  ghost predicate IsDistances(mod: Modulation, u: real, p: Complex, b: nat, c: nat, ds: seq<real>)
    requires b < BitsPerSymbol(mod) && c < 2
  {
    && |ds| == Pow2(BitsPerSymbol(mod) - 1)
    && forall k: nat {:trigger Member(BitsPerSymbol(mod), b, c, k)} :: k < |ds| ==>
      ds[k] == DistanceTo(mod, u, p, Member(BitsPerSymbol(mod), b, c, k))
  }

  /** The soft value for the smallest distances to a zero and to a one. */
  function Ratio(num: real, den: real, sigma2: real): real
    requires sigma2 > 0.0
  {
    -1.0 * (den - num) / sigma2
  }

  /** The approximate log-likelihood ratio of bit `b`, negative for a zero. */
  function Llr(mod: Modulation, u: real, sigma2: real, p: Complex, b: nat): real
    requires b < BitsPerSymbol(mod) && sigma2 > 0.0
  {
    var zeros, ones := Distances(mod, u, p, b, 0), Distances(mod, u, p, b, 1);
    Ratio(Smallest(zeros, |zeros|), Smallest(ones, |ones|), sigma2)
  }

  /** A symbol is listed for its own bit. */
  lemma ListedForItsBit(mod: Modulation, u: real, p: Complex, bits: seq<int>, b: nat)
    requires IsLabel(mod, bits) && b < BitsPerSymbol(mod)
    ensures var ds := Distances(mod, u, p, b, bits[b]); Smallest(ds, |ds|) <= Distance(p, Point(mod, u, bits))
  {
    var v, ds := Trellis.Value(bits), Distances(mod, u, p, b, bits[b]);
    Trellis.ValueThenBits(bits);
    var k := MemberOf(BitsPerSymbol(mod), b, v);
    assert ds[k] == DistanceTo(mod, u, p, v);
    SmallestIsLeast(ds, |ds|, k);
  }

  /** No listed symbol is closer than the nearest one. */
  lemma NoListCloser(mod: Modulation, u: real, p: Complex, bits: seq<int>, b: nat, c: nat)
    requires IsNearest(mod, u, p, bits) && b < BitsPerSymbol(mod) && c < 2
    ensures var ds := Distances(mod, u, p, b, c); Distance(p, Point(mod, u, bits)) <= Smallest(ds, |ds|)
  {
    var n, ds := BitsPerSymbol(mod), Distances(mod, u, p, b, c);
    var k := SmallestAttained(ds, |ds|);
    assert IsLabel(mod, Bits(Member(n, b, c, k), n));
  }

  lemma RatioSign(num: real, den: real, sigma2: real)
    requires sigma2 > 0.0
    ensures Ratio(num, den, sigma2) < 0.0 <==> num < den
    ensures Ratio(num, den, sigma2) > 0.0 <==> den < num
  {
  }

  /** The smallest distances without and with the bit, split at the distance of the nearest symbol. */
  lemma NearestSplits(mod: Modulation, u: real, p: Complex, bits: seq<int>, b: nat, zero: real, one: real)
    requires IsNearest(mod, u, p, bits) && b < BitsPerSymbol(mod)
    requires var ds := Distances(mod, u, p, b, 0); zero == Smallest(ds, |ds|)
    requires var ds := Distances(mod, u, p, b, 1); one == Smallest(ds, |ds|)
    ensures bits[b] == 0 ==> zero <= one
    ensures bits[b] == 1 ==> one <= zero
  {
    ListedForItsBit(mod, u, p, bits, b);
    NoListCloser(mod, u, p, bits, b, 1 - bits[b]);
  }

  /** The soft demapper never contradicts a demapper that picks a nearest symbol: a negative value means 0, a positive one means 1. */
  lemma SoftAgreesWithHard(mod: Modulation, u: real, sigma2: real, p: Complex, bits: seq<int>, b: nat)
    requires IsNearest(mod, u, p, bits) && b < BitsPerSymbol(mod) && sigma2 > 0.0
    ensures Llr(mod, u, sigma2, p, b) < 0.0 ==> bits[b] == 0
    ensures Llr(mod, u, sigma2, p, b) > 0.0 ==> bits[b] == 1
  {
    var zeros, ones := Distances(mod, u, p, b, 0), Distances(mod, u, p, b, 1);
    var zero, one := Smallest(zeros, |zeros|), Smallest(ones, |ones|);
    NearestSplits(mod, u, p, bits, b, zero, one);
    RatioSign(zero, one, sigma2);
  }

  /** `bits` label a point than which none with the same bit `b` is closer, and that bit is `c`. */
  ghost predicate IsNearestWith(mod: Modulation, u: real, p: Complex, b: nat, c: nat, bits: seq<int>)
    requires b < BitsPerSymbol(mod)
  {
    && IsLabel(mod, bits) && bits[b] == c
    && forall other: seq<int> :: IsLabel(mod, other) && other[b] == c ==> Distance(p, Point(mod, u, bits)) <= Distance(p, Point(mod, u, other))
  }

  /** The smallest listed distance is that of a nearest symbol with the bit. */
  lemma NearestListed(mod: Modulation, u: real, p: Complex, b: nat, c: nat) returns (bits: seq<int>)
    requires b < BitsPerSymbol(mod) && c < 2
    ensures IsNearestWith(mod, u, p, b, c, bits)
    ensures var ds := Distances(mod, u, p, b, c); Smallest(ds, |ds|) == Distance(p, Point(mod, u, bits))
  {
    var n, ds := BitsPerSymbol(mod), Distances(mod, u, p, b, c);
    var k := SmallestAttained(ds, |ds|);
    MemberBit(n, b, c, k);
    bits := Bits(Member(n, b, c, k), n);
    forall other: seq<int> | IsLabel(mod, other) && other[b] == c ensures Distance(p, Point(mod, u, bits)) <= Distance(p, Point(mod, u, other)) {
      ListedForItsBit(mod, u, p, other, b);
    }
  }

  /** `v` is the difference of two distances in terms of the noise variance. */
  predicate IsScaled(sigma2: real, v: real, d0: real, d1: real) {
    sigma2 * v == d0 - d1
  }

  /** `v` compares a nearest symbol `z0` with a zero and a nearest symbol `z1` with a one at place `b`. */
  ghost predicate Compares(mod: Modulation, u: real, sigma2: real, p: Complex, b: nat, v: real, z0: seq<int>, z1: seq<int>)
    requires b < BitsPerSymbol(mod)
  {
    && IsNearestWith(mod, u, p, b, 0, z0) && IsNearestWith(mod, u, p, b, 1, z1)
    && IsScaled(sigma2, v, Distance(p, Point(mod, u, z0)), Distance(p, Point(mod, u, z1)))
  }

  /** `v` times the noise variance is the distance to a nearest symbol with a zero less that to a nearest one with a one. */
  ghost predicate IsSoftValue(mod: Modulation, u: real, sigma2: real, p: Complex, b: nat, v: real)
    requires b < BitsPerSymbol(mod)
  {
    exists z0: seq<int>, z1: seq<int> :: Compares(mod, u, sigma2, p, b, v, z0, z1)
  }

  lemma RatioIsScaled(num: real, den: real, sigma2: real)
    requires sigma2 > 0.0
    ensures IsScaled(sigma2, Ratio(num, den, sigma2), num, den)
  {
  }

  lemma LlrIsSoftValue(mod: Modulation, u: real, sigma2: real, p: Complex, b: nat)
    requires b < BitsPerSymbol(mod) && sigma2 > 0.0
    ensures IsSoftValue(mod, u, sigma2, p, b, Llr(mod, u, sigma2, p, b))
  {
    var z0 := NearestListed(mod, u, p, b, 0);
    var z1 := NearestListed(mod, u, p, b, 1);
    RatioIsScaled(Distance(p, Point(mod, u, z0)), Distance(p, Point(mod, u, z1)), sigma2);
    assert Compares(mod, u, sigma2, p, b, Llr(mod, u, sigma2, p, b), z0, z1);
  }

  lemma ScaledUnique(sigma2: real, v: real, w: real, d0: real, d1: real)
    requires sigma2 > 0.0 && IsScaled(sigma2, v, d0, d1) && IsScaled(sigma2, w, d0, d1)
    ensures v == w
  {
    assert sigma2 * (v - w) == 0.0;
  }

  lemma NearestWithUnique(mod: Modulation, u: real, p: Complex, b: nat, c: nat, z: seq<int>, z': seq<int>)
    requires b < BitsPerSymbol(mod) && IsNearestWith(mod, u, p, b, c, z) && IsNearestWith(mod, u, p, b, c, z')
    ensures Distance(p, Point(mod, u, z)) == Distance(p, Point(mod, u, z'))
  {
  }

  /** There is one soft value for every bit of every point. */
  lemma SoftValueUnique(mod: Modulation, u: real, sigma2: real, p: Complex, b: nat, v: real, w: real)
    requires b < BitsPerSymbol(mod) && sigma2 > 0.0 && IsSoftValue(mod, u, sigma2, p, b, v) && IsSoftValue(mod, u, sigma2, p, b, w)
    ensures v == w
  {
    var z0, z1 :| Compares(mod, u, sigma2, p, b, v, z0, z1);
    var y0, y1 :| Compares(mod, u, sigma2, p, b, w, y0, y1);
    NearestWithUnique(mod, u, p, b, 0, z0, y0);
    NearestWithUnique(mod, u, p, b, 1, z1, y1);
    ScaledUnique(sigma2, v, w, Distance(p, Point(mod, u, z0)), Distance(p, Point(mod, u, z1)));
  }

  lemma BpskDifference(u: real, p: Complex)
    ensures Distance(p, Complex(u, u)) - Distance(p, Complex(-u, -u)) == -4.0 * u * (p.re + p.im)
  {
  }

  /** The soft value of a BPSK symbol in closed form. */
  lemma BpskSoft(u: real, sigma2: real, p: Complex, v: real)
    requires IsSoftValue(BPSK, u, sigma2, p, 0, v)
    ensures sigma2 * v == -4.0 * u * (p.re + p.im)
  {
    var z0, z1 :| Compares(BPSK, u, sigma2, p, 0, v, z0, z1);
    BpskDifference(u, p);
  }

  /** The soft values of all bits of a symbol. */
  function LlrRow(mod: Modulation, u: real, sigma2: real, p: Complex): (row: seq<real>)
    requires sigma2 > 0.0
    ensures |row| == BitsPerSymbol(mod)
  {
    seq(BitsPerSymbol(mod), b requires 0 <= b < BitsPerSymbol(mod) => Llr(mod, u, sigma2, p, b))
  }

  /** `row` holds those values. */
  ghost predicate IsLlrRow(mod: Modulation, u: real, sigma2: real, p: Complex, row: seq<real>)
    requires sigma2 > 0.0
  {
    && |row| == BitsPerSymbol(mod)
    && forall b: nat {:trigger Llr(mod, u, sigma2, p, b)} :: b < |row| ==> row[b] == Llr(mod, u, sigma2, p, b)
  }
}
