/** The loops of the hard and the soft demapper, proved against module Demapper. */
module DemapperLoops {
  import Arith
  import opened ConvCode
  import opened Demapper
  import opened DemapperTables

  // ---------------------------------------------------------------- hard decisions

  /** Which side of the antidiagonal: a point on it counts by its in-phase sign. */
  predicate Cut2(p: Complex, b: int) {
    b == 0 <==> p.re + p.im > 0.0 || (p.re + p.im == 0.0 && p.re <= 0.0)
  }

  /** What the sign says about one axis. */
  predicate Cut4(x: real, b: int) {
    b == 0 <==> x > 0.0
  }

  /** What sign and threshold say about one axis. */
  predicate Cut16(x: real, u: real, b: int, outer: int) {
    Cut4(x, b) && (outer == 0 <==> -2.0 * u <= x <= 2.0 * u)
  }

  /** What sign and thresholds say about one axis. */
  predicate Cut64(x: real, u: real, b: int, hi: int, lo: int) {
    && Cut4(x, b)
    && (hi == 0 <==> -4.0 * u <= x <= 4.0 * u)
    && (lo == 0 <==> (-6.0 * u <= x <= 6.0 * u && !(-2.0 * u <= x <= 2.0 * u)))
  }

  /** The hard decision on a point, ties included. */
  predicate IsDecision(mod: Modulation, u: real, p: Complex, bits: seq<int>) {
    && IsLabel(mod, bits)
    && match mod
       case BPSK => Cut2(p, bits[0])
       case QPSK => Cut4(p.re, bits[0]) && Cut4(p.im, bits[1])
       case QAM16 => Cut16(p.re, u, bits[0], bits[2]) && Cut16(p.im, u, bits[1], bits[3])
       case QAM64 => Cut64(p.re, u, bits[0], bits[2], bits[4]) && Cut64(p.im, u, bits[1], bits[3], bits[5])
  }

  /** There is one decision on every point. */
  lemma DecisionUnique(mod: Modulation, u: real, p: Complex, bits: seq<int>, bits': seq<int>)
    requires IsDecision(mod, u, p, bits) && IsDecision(mod, u, p, bits')
    ensures bits == bits'
  {
    forall i | 0 <= i < |bits| ensures bits[i] == bits'[i] {
    }
  }

  lemma DecisionOnSide(mod: Modulation, u: real, p: Complex, bits: seq<int>, other: seq<int>)
    requires u > 0.0 && mod != BPSK && IsDecision(mod, u, p, bits) && IsLabel(mod, other)
    ensures OnSide(p.re, Point(mod, u, bits).re, Point(mod, u, other).re)
    ensures OnSide(p.im, Point(mod, u, bits).im, Point(mod, u, other).im)
  {
    match mod
    case QPSK =>
      Axis4OnSide(p.re, u, bits[0], other[0]);
      Axis4OnSide(p.im, u, bits[1], other[1]);
    case QAM16 =>
      Axis16OnSide(p.re, u, bits[0], bits[2], other[0], other[2]);
      Axis16OnSide(p.im, u, bits[1], bits[3], other[1], other[3]);
    case QAM64 =>
      Axis64OnSide(p.re, u, bits[0], bits[2], bits[4], other[0], other[2], other[4]);
      Axis64OnSide(p.im, u, bits[1], bits[3], bits[5], other[1], other[3], other[5]);
  }

  lemma DecisionCloser(mod: Modulation, u: real, p: Complex, bits: seq<int>, other: seq<int>)
    requires u > 0.0 && IsDecision(mod, u, p, bits) && IsLabel(mod, other)
    ensures Distance(p, Point(mod, u, bits)) <= Distance(p, Point(mod, u, other))
  {
    if mod == BPSK {
      BpskCloser(p, u);
    } else {
      DecisionOnSide(mod, u, p, bits, other);
      BothCloser(p, Point(mod, u, bits), Point(mod, u, other));
    }
  }

  /** The hard decision labels a nearest constellation point. */
  lemma DecisionIsNearest(mod: Modulation, u: real, p: Complex, bits: seq<int>)
    requires u > 0.0 && IsDecision(mod, u, p, bits)
    ensures IsNearest(mod, u, p, bits)
  {
    forall other: seq<int> | IsLabel(mod, other) ensures Distance(p, Point(mod, u, bits)) <= Distance(p, Point(mod, u, other)) {
      DecisionCloser(mod, u, p, bits, other);
    }
  }

  /** `hard_bpsk_demod` on one symbol. */
  method HardBpskSymbol(p: Complex, ghost u: real) returns (bits: seq<int>)
    requires u > 0.0
    ensures IsDecision(BPSK, u, p, bits) && IsNearest(BPSK, u, p, bits)
  {
    var b;
    if p.re > 0.0 {
      if p.im > 0.0 || p.re > -p.im {
        b := 0;
      } else {
        b := 1;
      }
    } else {
      if p.im < 0.0 || p.im < -p.re {
        b := 1;
      } else {
        b := 0;
      }
    }
    bits := [b];
    DecisionIsNearest(BPSK, u, p, bits);
  }

  method SignBit(x: real) returns (b: int)
    ensures b == if x > 0.0 then 0 else 1
  {
    if x > 0.0 {
      b := 0;
    } else {
      b := 1;
    }
  }

  /** `hard_qpsk_demod` on one symbol. */
  method HardQpskSymbol(p: Complex, ghost u: real) returns (bits: seq<int>)
    requires u > 0.0
    ensures IsDecision(QPSK, u, p, bits) && IsNearest(QPSK, u, p, bits)
  {
    var b0 := SignBit(p.re);
    var b1 := SignBit(p.im);
    bits := [b0, b1];
    DecisionIsNearest(QPSK, u, p, bits);
  }

  method OuterBit16(x: real, threshold: real) returns (b: int)
    ensures b == if -threshold <= x <= threshold then 0 else 1
  {
    if x > threshold || x < -threshold {
      b := 1;
    } else {
      b := 0;
    }
  }

  /** `hard_qam16_demod` on one symbol. */
  method HardQam16Symbol(p: Complex, u: real) returns (bits: seq<int>)
    requires u > 0.0
    ensures IsDecision(QAM16, u, p, bits) && IsNearest(QAM16, u, p, bits)
  {
    var b0 := SignBit(p.re);
    var b2 := OuterBit16(p.re, 2.0 * u);
    var b1 := SignBit(p.im);
    var b3 := OuterBit16(p.im, 2.0 * u);
    bits := [b0, b1, b2, b3];
    DecisionIsNearest(QAM16, u, p, bits);
  }

  method OuterBits64(x: real, t1: real, t2: real, t3: real) returns (hi: int, lo: int)
    requires 0.0 < t1 < t2 < t3
    ensures hi == if -t2 <= x <= t2 then 0 else 1
    ensures lo == if -t3 <= x <= t3 && !(-t1 <= x <= t1) then 0 else 1
  {
    if x > t3 || x < -t3 {
      hi, lo := 1, 1;
    } else if x > t2 || x < -t2 {
      hi, lo := 1, 0;
    } else if x > t1 || x < -t1 {
      hi, lo := 0, 0;
    } else {
      hi, lo := 0, 1;
    }
  }

  /** `hard_qam64_demod` on one symbol. */
  method HardQam64Symbol(p: Complex, u: real) returns (bits: seq<int>)
    requires u > 0.0
    ensures IsDecision(QAM64, u, p, bits) && IsNearest(QAM64, u, p, bits)
  {
    var b0 := SignBit(p.re);
    var b2, b4 := OuterBits64(p.re, 2.0 * u, 4.0 * u, 6.0 * u);
    var b1 := SignBit(p.im);
    var b3, b5 := OuterBits64(p.im, 2.0 * u, 4.0 * u, 6.0 * u);
    bits := [b0, b1, b2, b3, b4, b5];
    DecisionIsNearest(QAM64, u, p, bits);
  }

  /** The bits of symbol `s` are the decision on it. */
  ghost predicate DecidedAt(mod: Modulation, u: real, input: seq<Complex>, output: seq<int>, s: nat) {
    && s < |input| && (s + 1) * BitsPerSymbol(mod) <= |output|
    && IsDecision(mod, u, input[s], Arith.Group(output, s, BitsPerSymbol(mod)))
  }

  /** All of the first `n` symbols are decided. */
  ghost predicate AllDecided(mod: Modulation, u: real, input: seq<Complex>, output: seq<int>, n: nat) {
    forall s: nat :: s < n ==> DecidedAt(mod, u, input, output, s)
  }

  lemma SameGroup(output: seq<int>, output': seq<int>, b: nat, s: nat, n: nat)
    requires s < n && n * b <= |output| && |output| == |output'| && output'[..n * b] == output[..n * b]
    ensures (s + 1) * b <= |output| && Arith.Group(output', s, b) == Arith.Group(output, s, b)
  {
    Arith.MulMonotone(s + 1, n, b);
    assert (s + 1) * b == s * b + b;
    var start, end, head := s * b, s * b + b, n * b;
    assert output[start..end] == output[..head][start..end];
    assert output'[start..end] == output'[..head][start..end];
  }

  lemma GroupWritten(mod: Modulation, u: real, input: seq<Complex>, output: seq<int>, output': seq<int>, n: nat, b: nat)
    requires AllDecided(mod, u, input, output, n) && DecidedAt(mod, u, input, output', n) && b == BitsPerSymbol(mod)
    requires n * b <= |output| == |output'| && output'[..n * b] == output[..n * b]
    ensures AllDecided(mod, u, input, output', n + 1)
  {
    forall s: nat | s < n ensures DecidedAt(mod, u, input, output', s) {
      assert DecidedAt(mod, u, input, output, s);
      SameGroup(output, output', b, s, n);
    }
  }

  /** The decision on one symbol, by modulation. */
  method HardSymbol(mod: Modulation, p: Complex, u: real) returns (bits: seq<int>)
    requires u > 0.0
    ensures IsDecision(mod, u, p, bits)
  {
    match mod
    case BPSK => bits := HardBpskSymbol(p, u);
    case QPSK => bits := HardQpskSymbol(p, u);
    case QAM16 => bits := HardQam16Symbol(p, u);
    case QAM64 => bits := HardQam64Symbol(p, u);
  }

  method PutGroup(output: array<int>, at: nat, bits: seq<int>)
    requires at + |bits| <= output.Length
    modifies output
    ensures output[..at] == old(output[..at]) && output[at..at + |bits|] == bits
    ensures forall p :: at + |bits| <= p < output.Length ==> output[p] == old(output[p])
  {
    var i := 0;
    while i < |bits|
      invariant 0 <= i <= |bits|
      invariant output[..at] == old(output[..at]) && output[at..at + i] == bits[..i]
      invariant forall p :: at + |bits| <= p < output.Length ==> output[p] == old(output[p])
    {
      output[at + i] := bits[i];
      assert output[at..at + i + 1] == output[at..at + i] + [bits[i]];
      i := i + 1;
    }
  }

  /** One symbol demapped and written. */
  method HardNext(mod: Modulation, input: array<Complex>, output: array<int>, s: nat, at: nat, u: real)
    requires u > 0.0 && s < input.Length && at == s * BitsPerSymbol(mod) && at + BitsPerSymbol(mod) <= output.Length
    requires AllDecided(mod, u, input[..], output[..], s)
    modifies output
    ensures AllDecided(mod, u, input[..], output[..], s + 1)
    ensures forall p :: at + BitsPerSymbol(mod) <= p < output.Length ==> output[p] == old(output[p])
  {
    var b := BitsPerSymbol(mod);
    Arith.Distribute(s, 1, b);
    var bits := HardSymbol(mod, input[s], u);
    ghost var before := output[..];
    PutGroup(output, at, bits);
    assert Arith.Group(output[..], s, b) == bits;
    GroupWritten(mod, u, input[..], before, output[..], s, b);
  }

  /** `hard_demod`: every symbol is demapped to its decision, and nothing beyond is written. */
  method HardDemod(mod: Modulation, input: array<Complex>, output: array<int>, n: nat, u: real)
    requires u > 0.0 && n <= input.Length && n * BitsPerSymbol(mod) <= output.Length
    modifies output
    ensures AllDecided(mod, u, input[..], output[..], n)
    ensures forall p :: n * BitsPerSymbol(mod) <= p < output.Length ==> output[p] == old(output[p])
  {
    var b := BitsPerSymbol(mod);
    ghost var total := n * b;
    var s, at := 0, 0;
    while s < n
      invariant 0 <= s <= n && at == s * b <= total
      invariant AllDecided(mod, u, input[..], output[..], s)
      invariant forall p :: total <= p < output.Length ==> output[p] == old(output[p])
    {
      Arith.MulMonotone(s + 1, n, b);
      Arith.Distribute(s, 1, b);
      HardNext(mod, input, output, s, at, u);
      s, at := s + 1, at + b;
    }
  }

  // ---------------------------------------------------------------- soft decisions

  lemma LookUp(mod: Modulation, u: real, symbols: seq<Complex>, index: array3<nat>, p: Complex, b: nat, c: nat, k: nat)
    requires HoldsSymbols(mod, u, symbols) && HoldsIndex(mod, index) && b < BitsPerSymbol(mod) && c < 2 && k < Pow2(BitsPerSymbol(mod) - 1)
    ensures k < 32 && index[c, b, k] == Member(BitsPerSymbol(mod), b, c, k) < |symbols|
    ensures Distance(p, symbols[index[c, b, k]]) == DistanceTo(mod, u, p, Member(BitsPerSymbol(mod), b, c, k))
  {
    assert HoldsPlace(mod, index, b);
    MemberBit(BitsPerSymbol(mod), b, c, k);
  }

  /** The squared distance, computed as the source does. */
  method Measure(p: Complex, z: Complex) returns (d: real)
    ensures d == Distance(p, z)
  {
    var idiff, qdiff := p.re - z.re, p.im - z.im;
    d := idiff * idiff + qdiff * qdiff;
  }

  /** The distance to entry `k` of the list for bit place `b` and value `c`. */
  method MeasureListed(mod: Modulation, ghost u: real, symbols: array<Complex>, index: array3<nat>, p: Complex,
                       b: nat, c: nat, k: nat, ghost ds: seq<real>) returns (d: real)
    requires HoldsSymbols(mod, u, symbols[..]) && HoldsIndex(mod, index) && b < BitsPerSymbol(mod) && c < 2
    requires IsDistances(mod, u, p, b, c, ds) && k < |ds|
    ensures d == ds[k]
  {
    LookUp(mod, u, symbols[..], index, p, b, c, k);
    d := Measure(p, symbols[index[c, b, k]]);
  }

  /** The running minima over the symbols without and with the bit. */
  method Minima(mod: Modulation, ghost u: real, symbols: array<Complex>, index: array3<nat>, p: Complex, b: nat,
                half: nat, ghost zeros: seq<real>, ghost ones: seq<real>)
    returns (num: real, den: real)
    requires HoldsSymbols(mod, u, symbols[..]) && HoldsIndex(mod, index) && b < BitsPerSymbol(mod)
    requires IsDistances(mod, u, p, b, 0, zeros) && IsDistances(mod, u, p, b, 1, ones) && half == |zeros| == |ones| > 0
    ensures num == Smallest(zeros, half) && den == Smallest(ones, half)
  {
    num := MeasureListed(mod, u, symbols, index, p, b, 0, 0, zeros);
    den := MeasureListed(mod, u, symbols, index, p, b, 1, 0, ones);
    var i := 1;
    while i < half
      invariant 1 <= i <= half
      invariant num == Smallest(zeros, i) && den == Smallest(ones, i)
    {
      var newNum := MeasureListed(mod, u, symbols, index, p, b, 0, i, zeros);
      var newDen := MeasureListed(mod, u, symbols, index, p, b, 1, i, ones);
      if newNum < num {
        num := newNum;
      }
      if newDen < den {
        den := newDen;
      }
      i := i + 1;
    }
  }

  method SoftValue(num: real, den: real, sigma2: real) returns (r: real)
    requires sigma2 > 0.0
    ensures r == Ratio(num, den, sigma2)
  {
    r := -1.0 * (den - num) / sigma2;
  }

  lemma RowEntry(mod: Modulation, u: real, sigma2: real, p: Complex, b: nat) returns (zeros: seq<real>, ones: seq<real>)
    requires sigma2 > 0.0 && b < BitsPerSymbol(mod)
    ensures IsDistances(mod, u, p, b, 0, zeros) && IsDistances(mod, u, p, b, 1, ones)
    ensures |zeros| == |ones| == Pow2(BitsPerSymbol(mod) - 1)
    ensures Llr(mod, u, sigma2, p, b) == Ratio(Smallest(zeros, |zeros|), Smallest(ones, |ones|), sigma2)
  {
    zeros, ones := Distances(mod, u, p, b, 0), Distances(mod, u, p, b, 1);
  }

  /** The soft value of one bit. */
  method SoftBit(mod: Modulation, ghost u: real, symbols: array<Complex>, index: array3<nat>, sigma2: real,
                 p: Complex, b: nat, ghost row: seq<real>) returns (r: real)
    requires HoldsSymbols(mod, u, symbols[..]) && HoldsIndex(mod, index) && sigma2 > 0.0
    requires IsLlrRow(mod, u, sigma2, p, row) && b < |row|
    ensures r == row[b]
  {
    ghost var zeros, ones := RowEntry(mod, u, sigma2, p, b);
    var num, den := Minima(mod, u, symbols, index, p, b, Pow2(BitsPerSymbol(mod) - 1), zeros, ones);
    r := SoftValue(num, den, sigma2);
  }

  predicate IsTable(rows: seq<seq<real>>, bps: nat) {
    forall s :: 0 <= s < |rows| ==> |rows[s]| == bps
  }

  predicate Written(output: seq<real>, rows: seq<seq<real>>, bps: nat, s: nat, b: nat)
    requires IsTable(rows, bps) && s < |rows| && b < bps
  {
    var at := Arith.Position(s, b, bps);
    at < |output| && output[at] == rows[s][b]
  }

  /** The rows before `n`, and row `n` up to `k`, are in the output. */
  ghost predicate WrittenUpTo(output: seq<real>, rows: seq<seq<real>>, bps: nat, n: nat, k: nat)
    requires IsTable(rows, bps) && n <= |rows| && k <= bps
  {
    && (forall s: nat, b: nat :: s < n && b < bps ==> Written(output, rows, bps, s, b))
    && forall b: nat :: n < |rows| && b < k ==> Written(output, rows, bps, n, b)
  }

  lemma WriteNext(output: seq<real>, rows: seq<seq<real>>, bps: nat, n: nat, k: nat, at: nat)
    requires IsTable(rows, bps) && n < |rows| && k < bps && WrittenUpTo(output, rows, bps, n, k)
    requires at == Arith.Position(n, k, bps) < |output|
    ensures WrittenUpTo(output[at := rows[n][k]], rows, bps, n, k + 1)
  {
    var output' := output[at := rows[n][k]];
    forall s: nat, b: nat | s < |rows| && b < bps && (s != n || b != k) && Written(output, rows, bps, s, b)
      ensures Written(output', rows, bps, s, b)
    {
      if Arith.Position(s, b, bps) == at {
        Arith.PositionInjective(s, b, n, k, bps);
      }
    }
    assert Written(output', rows, bps, n, k);
  }

  /** The soft values of one symbol. */
  method SoftSymbol(mod: Modulation, ghost u: real, symbols: array<Complex>, index: array3<nat>, sigma2: real,
                    p: Complex, output: array<real>, s: nat, n: nat, ghost rows: seq<seq<real>>)
    requires HoldsSymbols(mod, u, symbols[..]) && HoldsIndex(mod, index) && sigma2 > 0.0
    requires s < n <= |rows| && n * BitsPerSymbol(mod) <= output.Length && IsTable(rows, BitsPerSymbol(mod))
    requires IsLlrRow(mod, u, sigma2, p, rows[s]) && WrittenUpTo(output[..], rows, BitsPerSymbol(mod), s, 0)
    modifies output
    ensures WrittenUpTo(output[..], rows, BitsPerSymbol(mod), s + 1, 0)
    ensures forall i :: n * BitsPerSymbol(mod) <= i < output.Length ==> output[i] == old(output[i])
  {
    var bps := BitsPerSymbol(mod);
    ghost var total := n * bps;
    var b := 0;
    while b < bps
      invariant 0 <= b <= bps
      invariant WrittenUpTo(output[..], rows, bps, s, b)
      invariant forall i :: total <= i < output.Length ==> output[i] == old(output[i])
    {
      PositionBelow(s, b, n, bps);
      var r := SoftBit(mod, u, symbols, index, sigma2, p, b, rows[s]);
      var at := s * bps + b;
      ghost var before := output[..];
      WriteNext(before, rows, bps, s, b, at);
      output[at] := r;
      assert output[..] == before[at := r];
      b := b + 1;
    }
  }

  /** What the soft demapper is to compute. */
  function SoftRows(mod: Modulation, u: real, sigma2: real, input: seq<Complex>): (rows: seq<seq<real>>)
    requires sigma2 > 0.0
    ensures |rows| == |input| && IsTable(rows, BitsPerSymbol(mod))
  {
    seq(|input|, s requires 0 <= s < |input| => LlrRow(mod, u, sigma2, input[s]))
  }

  lemma SoftRowAt(mod: Modulation, u: real, sigma2: real, input: seq<Complex>, s: nat)
    requires sigma2 > 0.0 && s < |input|
    ensures IsLlrRow(mod, u, sigma2, input[s], SoftRows(mod, u, sigma2, input)[s])
  {
  }

  /** Bit `b` of symbol `s` has its soft value in the output. */
  ghost predicate SoftAt(mod: Modulation, u: real, sigma2: real, input: seq<Complex>, output: seq<real>, s: nat, b: nat)
    requires b < BitsPerSymbol(mod)
  {
    var at := Arith.Position(s, b, BitsPerSymbol(mod));
    s < |input| && at < |output| && IsSoftValue(mod, u, sigma2, input[s], b, output[at])
  }

  lemma WrittenIsSoft(mod: Modulation, u: real, sigma2: real, input: seq<Complex>, output: seq<real>, n: nat, s: nat, b: nat)
    requires sigma2 > 0.0 && s < n <= |input| && b < BitsPerSymbol(mod)
    requires WrittenUpTo(output, SoftRows(mod, u, sigma2, input), BitsPerSymbol(mod), n, 0)
    ensures SoftAt(mod, u, sigma2, input, output, s, b)
  {
    assert Written(output, SoftRows(mod, u, sigma2, input), BitsPerSymbol(mod), s, b);
    LlrIsSoftValue(mod, u, sigma2, input[s], b);
  }

  /** `llr_approx`: every soft value is in its place, and nothing beyond is written. */
  method LlrApprox(mod: Modulation, ghost u: real, symbols: array<Complex>, index: array3<nat>, sigma2: real,
                   input: array<Complex>, output: array<real>, n: nat)
    requires HoldsSymbols(mod, u, symbols[..]) && HoldsIndex(mod, index) && sigma2 > 0.0
    requires n <= input.Length && n * BitsPerSymbol(mod) <= output.Length
    modifies output
    ensures forall s: nat, b: nat {:trigger SoftAt(mod, u, sigma2, input[..], output[..], s, b)} ::
      s < n && b < BitsPerSymbol(mod) ==> SoftAt(mod, u, sigma2, input[..], output[..], s, b)
    ensures forall i :: n * BitsPerSymbol(mod) <= i < output.Length ==> output[i] == old(output[i])
  {
    ghost var rows, total := SoftRows(mod, u, sigma2, input[..]), n * BitsPerSymbol(mod);
    var s := 0;
    while s < n
      invariant 0 <= s <= n
      invariant WrittenUpTo(output[..], rows, BitsPerSymbol(mod), s, 0)
      invariant forall i :: total <= i < output.Length ==> output[i] == old(output[i])
    {
      SoftRowAt(mod, u, sigma2, input[..], s);
      SoftSymbol(mod, u, symbols, index, sigma2, input[s], output, s, n, rows);
      s := s + 1;
    }
    forall s: nat, b: nat | s < n && b < BitsPerSymbol(mod) ensures SoftAt(mod, u, sigma2, input[..], output[..], s, b) {
      WrittenIsSoft(mod, u, sigma2, input[..], output[..], n, s, b);
    }
  }

  /** The two demappers on the same symbols: no soft value contradicts its hard bit. */
  lemma SequencesAgree(mod: Modulation, u: real, sigma2: real, input: seq<Complex>, hard: seq<int>, soft: seq<real>, n: nat, s: nat, b: nat)
    requires u > 0.0 && sigma2 > 0.0 && s < n <= |input| && b < BitsPerSymbol(mod)
    requires AllDecided(mod, u, input, hard, n) && SoftAt(mod, u, sigma2, input, soft, s, b)
    ensures var at := Arith.Position(s, b, BitsPerSymbol(mod));
      at < |hard| && at < |soft| && (soft[at] < 0.0 ==> hard[at] == 0) && (soft[at] > 0.0 ==> hard[at] == 1)
  {
    var bps := BitsPerSymbol(mod);
    assert DecidedAt(mod, u, input, hard, s);
    DecisionIsNearest(mod, u, input[s], Arith.Group(hard, s, bps));
    LlrIsSoftValue(mod, u, sigma2, input[s], b);
    SoftValueUnique(mod, u, sigma2, input[s], b, soft[Arith.Position(s, b, bps)], Llr(mod, u, sigma2, input[s], b));
    Arith.GroupAt(hard, s, bps, b);
    SoftAgreesWithHard(mod, u, sigma2, input[s], Arith.Group(hard, s, bps), b);
  }
}
