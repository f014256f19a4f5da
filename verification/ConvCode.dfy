/**
The convolutional encoder of modrep_osld/gen_convcoder/src/conv_encode.c
(section 5.1.3.1 of 3GPP TS 36.212). Bits are the integers 0 and 1, sums are
taken modulo two as the source does.
*/
module ConvCode {
  import Arith

  predicate IsBits(x: seq<int>) {
    forall i :: 0 <= i < |x| ==> x[i] == 0 || x[i] == 1
  }

  function Pow2(n: nat): (r: nat)
    ensures r > 0
  {
    if n == 0 then 1 else 2 * Pow2(n - 1)
  }

  /** The low `m` bits of `v`, most significant first. */
  function Bits(v: nat, m: nat): (r: seq<int>)
    ensures |r| == m && IsBits(r)
  {
    if m == 0 then [] else Bits(v / 2, m - 1) + [v % 2]
  }

  lemma HalfThenDivide(v: nat, p: nat)
    requires p > 0
    ensures (v / 2) / p == v / (2 * p)
  {
    var q, r := (v / 2) / p, (v / 2) % p;
    Arith.DivMod(v / 2, p);
    assert v == q * (2 * p) + (2 * r + v % 2);
    Arith.Unique(v, q, 2 * r + v % 2, 2 * p);
  }

  /** A bit is what the shift and mask of the source select. */
  lemma {:induction false} BitsAt(v: nat, m: nat, k: nat)
    requires k < m
    ensures Bits(v, m)[k] == (v / Pow2(m - k - 1)) % 2
  {
    if k < m - 1 {
      BitsAt(v / 2, m - 1, k);
      HalfThenDivide(v, Pow2(m - k - 2));
    }
  }

  /** The first `m` products of a register and its taps, summed. */
  function Dot(reg: seq<int>, taps: seq<int>, m: nat): int
    requires m <= |reg| && m <= |taps|
  {
    if m == 0 then 0 else Dot(reg, taps, m - 1) + reg[m - 1] * taps[m - 1]
  }

  /** The output bit for a register. */
  function Parity(reg: seq<int>, taps: seq<int>): (b: int)
    requires |reg| == |taps|
    ensures 0 <= b < 2
  {
    Dot(reg, taps, |taps|) % 2
  }

  /** The input bit `k` steps before bit `i`: around the corner when tail-biting, zero otherwise. */
  function Past(x: seq<int>, tail: bool, i: nat, k: nat): int
    requires i < |x| && (tail ==> k < |x|)
  {
    if k <= i then x[i - k] else if tail then x[i - k + |x|] else 0
  }

  /** The last `m` input bits up to bit `i`, newest first. */
  function Window(x: seq<int>, tail: bool, i: nat, m: nat): (r: seq<int>)
    requires i < |x| && (tail ==> m <= |x|)
    ensures |r| == m
  {
    seq(m, k requires 0 <= k < m => Past(x, tail, i, k))
  }

  predicate IsTaps(taps: seq<seq<int>>, m: nat) {
    forall j :: 0 <= j < |taps| ==> |taps[j]| == m && IsBits(taps[j])
  }

  lemma IndexSplit(p: nat, n: nat, rate: nat)
    requires p < n * rate
    ensures rate > 0 && p / rate < n && p % rate < rate && p == Arith.Position(p / rate, p % rate, rate)
  {
    Arith.DivMod(p, rate);
    Arith.MulSign(p / rate - n, rate);
    assert (p / rate - n) * rate == (p / rate) * rate - n * rate;
  }

  /** Group and place of index `p`. */
  lemma IndexParts(p: nat, n: nat, rate: nat) returns (i: nat, j: nat)
    requires p < n * rate
    ensures i < n && j < rate && p == Arith.Position(i, j, rate)
  {
    IndexSplit(p, n, rate);
    i, j := p / rate, p % rate;
  }

  /** Bit number `p` of the code word. */
  function CodeBit(x: seq<int>, tail: bool, taps: seq<seq<int>>, m: nat, p: nat): int
    requires IsTaps(taps, m) && (tail ==> m <= |x|) && p < |x| * |taps|
  {
    IndexSplit(p, |x|, |taps|);
    Parity(Window(x, tail, p / |taps|, m), taps[p % |taps|])
  }

  /** The code word: for every input bit, the convolution of the past with each generator. */
  function Codeword(x: seq<int>, tail: bool, taps: seq<seq<int>>, m: nat): (d: seq<int>)
    requires IsTaps(taps, m) && (tail ==> m <= |x|)
    ensures |d| == |x| * |taps|
  {
    seq(|x| * |taps|, p requires 0 <= p < |x| * |taps| => CodeBit(x, tail, taps, m, p))
  }

  lemma PositionRoom(i: nat, j: nat, n: nat, rate: nat)
    requires i < n && j < rate
    ensures Arith.Position(i, j, rate) < n * rate
  {
    Arith.MulMonotone(i + 1, n, rate);
    Arith.Distribute(i, 1, rate);
  }

  lemma PositionBelow(i: nat, j: nat, n: nat, rate: nat)
    requires i < n && j < rate
    ensures Arith.Position(i, j, rate) < n * rate
    ensures Arith.Position(i, j, rate) / rate == i && Arith.Position(i, j, rate) % rate == j
  {
    PositionRoom(i, j, n, rate);
    Arith.Unique(i * rate + j, i, j, rate);
  }

  lemma CodewordAt(x: seq<int>, tail: bool, taps: seq<seq<int>>, m: nat, i: nat, j: nat)
    requires IsTaps(taps, m) && (tail ==> m <= |x|) && i < |x| && j < |taps|
    ensures Arith.Position(i, j, |taps|) < |x| * |taps|
    ensures Codeword(x, tail, taps, m)[Arith.Position(i, j, |taps|)] == Parity(Window(x, tail, i, m), taps[j])
  {
    PositionBelow(i, j, |x|, |taps|);
  }

  // -------------------------------------------------------------------- linearity

  function Xor(x: seq<int>, y: seq<int>): (z: seq<int>)
    requires |x| == |y|
    ensures |z| == |x|
  {
    seq(|x|, i requires 0 <= i < |x| => (x[i] + y[i]) % 2)
  }

  /** One more place: the sums so far agree modulo two, and so do the products at it. */
  lemma TapLinear(both: int, a: int, b: int, x: int, y: int, tap: int)
    requires both % 2 == (a + b) % 2 && (tap == 0 || tap == 1)
    ensures (both + ((x + y) % 2) * tap) % 2 == ((a + x * tap) + (b + y * tap)) % 2
  {
  }

  lemma {:induction false} DotLinear(x: seq<int>, y: seq<int>, taps: seq<int>, m: nat)
    requires |x| == |y| && m <= |x| && m <= |taps| && IsBits(taps)
    ensures Dot(Xor(x, y), taps, m) % 2 == (Dot(x, taps, m) + Dot(y, taps, m)) % 2
  {
    if m > 0 {
      DotLinear(x, y, taps, m - 1);
      TapLinear(Dot(Xor(x, y), taps, m - 1), Dot(x, taps, m - 1), Dot(y, taps, m - 1), x[m - 1], y[m - 1], taps[m - 1]);
    }
  }

  lemma WindowXor(x: seq<int>, y: seq<int>, tail: bool, i: nat, m: nat)
    requires |x| == |y| && i < |x| && (tail ==> m <= |x|)
    ensures Window(Xor(x, y), tail, i, m) == Xor(Window(x, tail, i, m), Window(y, tail, i, m))
  {
  }

  lemma ParityLinear(x: seq<int>, y: seq<int>, taps: seq<int>)
    requires |x| == |y| == |taps| && IsBits(taps)
    ensures Parity(Xor(x, y), taps) == (Parity(x, taps) + Parity(y, taps)) % 2
  {
    DotLinear(x, y, taps, |taps|);
  }

  lemma LinearAt(x: seq<int>, y: seq<int>, tail: bool, taps: seq<seq<int>>, m: nat, i: nat, j: nat)
    requires |x| == |y| && IsTaps(taps, m) && (tail ==> m <= |x|) && i < |x| && j < |taps|
    ensures var at := Arith.Position(i, j, |taps|);
      at < |x| * |taps|
      && Codeword(Xor(x, y), tail, taps, m)[at] == (Codeword(x, tail, taps, m)[at] + Codeword(y, tail, taps, m)[at]) % 2
  {
    CodewordAt(Xor(x, y), tail, taps, m, i, j);
    CodewordAt(x, tail, taps, m, i, j);
    CodewordAt(y, tail, taps, m, i, j);
    WindowXor(x, y, tail, i, m);
    ParityLinear(Window(x, tail, i, m), Window(y, tail, i, m), taps[j]);
  }

  /** The code is linear: the code word of a sum is the sum of the code words. */
  lemma Linear(x: seq<int>, y: seq<int>, tail: bool, taps: seq<seq<int>>, m: nat)
    requires |x| == |y| && IsTaps(taps, m) && (tail ==> m <= |x|)
    ensures Codeword(Xor(x, y), tail, taps, m) == Xor(Codeword(x, tail, taps, m), Codeword(y, tail, taps, m))
  {
    var a, b, both := Codeword(x, tail, taps, m), Codeword(y, tail, taps, m), Codeword(Xor(x, y), tail, taps, m);
    forall p: nat | p < |x| * |taps| ensures both[p] == (a[p] + b[p]) % 2 {
      var i, j := IndexParts(p, |x|, |taps|);
      LinearAt(x, y, tail, taps, m, i, j);
    }
  }

  // ------------------------------------------------------------- impulse response

  /** A single one at place `p`. */
  function Impulse(n: nat, p: nat): (x: seq<int>)
    ensures |x| == n && IsBits(x)
  {
    seq(n, i => if i == p then 1 else 0)
  }

  /** How long before bit `i` the one at place `p` was read; never, if negative. */
  function Delay(i: nat, p: nat, n: nat, tail: bool): (k: int)
    requires i < n && p < n
    ensures k < n
  {
    if p <= i then i - p else if tail then i - p + n else -1
  }

  lemma WindowOfImpulse(n: nat, p: nat, tail: bool, i: nat, m: nat, k: nat)
    requires i < n && p < n && k < m && (tail ==> m <= n)
    ensures Window(Impulse(n, p), tail, i, m)[k] == if k == Delay(i, p, n, tail) then 1 else 0
  {
  }

  lemma {:induction false} DotOfImpulse(reg: seq<int>, taps: seq<int>, m: nat, d: int)
    requires m <= |reg| && m <= |taps| && forall k :: 0 <= k < m ==> reg[k] == if k == d then 1 else 0
    ensures Dot(reg, taps, m) == if 0 <= d < m then taps[d] else 0
  {
    if m > 0 {
      DotOfImpulse(reg, taps, m - 1, d);
      assert reg[m - 1] * taps[m - 1] == if m - 1 == d then taps[m - 1] else 0;
    }
  }

  /** The impulse response is the generators: a one is answered by their taps, one after the other, and by zeros before and after. */
  lemma ImpulseResponse(n: nat, p: nat, tail: bool, taps: seq<seq<int>>, m: nat, i: nat, j: nat)
    requires IsTaps(taps, m) && (tail ==> m <= n) && p < n && i < n && j < |taps|
    ensures Arith.Position(i, j, |taps|) < n * |taps|
    ensures Codeword(Impulse(n, p), tail, taps, m)[Arith.Position(i, j, |taps|)]
      == var k := Delay(i, p, n, tail); if 0 <= k < m then taps[j][k] else 0
  {
    var x := Impulse(n, p);
    CodewordAt(x, tail, taps, m, i, j);
    forall k: nat | k < m ensures Window(x, tail, i, m)[k] == if k == Delay(i, p, n, tail) then 1 else 0 {
      WindowOfImpulse(n, p, tail, i, m, k);
    }
    DotOfImpulse(Window(x, tail, i, m), taps[j], m, Delay(i, p, n, tail));
  }

  // --------------------------------------------------------------------- rotation

  /** `x` turned left by `r`. */
  function Rotated(x: seq<int>, r: nat): (y: seq<int>)
    requires r <= |x|
    ensures |y| == |x|
  {
    x[r..] + x[..r]
  }

  /** Where bit `i` of the turned input came from. */
  function Origin(i: nat, r: nat, n: nat): (o: nat)
    requires i < n && r <= n
    ensures o < n
  {
    if i + r < n then i + r else i + r - n
  }

  lemma WindowRotated(x: seq<int>, r: nat, i: nat, m: nat)
    requires r <= |x| && i < |x| && m <= |x|
    ensures Window(Rotated(x, r), true, i, m) == Window(x, true, Origin(i, r, |x|), m)
  {
  }

  lemma OriginPosition(i: nat, j: nat, r: nat, n: nat, rate: nat)
    requires i < n && j < rate && r <= n
    ensures r * rate <= n * rate && Arith.Position(i, j, rate) < n * rate
    ensures Arith.Position(Origin(i, r, n), j, rate) == Origin(Arith.Position(i, j, rate), r * rate, n * rate)
  {
    PositionRoom(i, j, n, rate);
    Arith.MulMonotone(r, n, rate);
    Arith.Distribute(i, r, rate);
    if i + r < n {
      PositionRoom(i + r, j, n, rate);
    } else {
      Arith.Distribute(i + r - n, n, rate);
      Arith.MulMonotone(n, i + r, rate);
    }
  }

  lemma RotatedAt(x: seq<int>, r: nat, i: nat)
    requires r <= |x| && i < |x|
    ensures Rotated(x, r)[i] == x[Origin(i, r, |x|)]
  {
  }

  lemma RotatedCode(x: seq<int>, taps: seq<seq<int>>, m: nat, r: nat, i: nat, j: nat)
    requires IsTaps(taps, m) && m <= |x| && r <= |x| && i < |x| && j < |taps|
    ensures r * |taps| <= |x| * |taps| && Arith.Position(i, j, |taps|) < |x| * |taps|
    ensures Codeword(Rotated(x, r), true, taps, m)[Arith.Position(i, j, |taps|)]
         == Rotated(Codeword(x, true, taps, m), r * |taps|)[Arith.Position(i, j, |taps|)]
  {
    var o := Origin(i, r, |x|);
    OriginPosition(i, j, r, |x|, |taps|);
    CodewordAt(Rotated(x, r), true, taps, m, i, j);
    CodewordAt(x, true, taps, m, o, j);
    WindowRotated(x, r, i, m);
    RotatedAt(Codeword(x, true, taps, m), r * |taps|, Arith.Position(i, j, |taps|));
  }

  /** A tail-biting code word turns with its input: by one group of output bits per input bit. */
  lemma RotationInvariant(x: seq<int>, taps: seq<seq<int>>, m: nat, r: nat)
    requires IsTaps(taps, m) && m <= |x| && r <= |x|
    ensures r * |taps| <= |x| * |taps|
    ensures Codeword(Rotated(x, r), true, taps, m) == Rotated(Codeword(x, true, taps, m), r * |taps|)
  {
    Arith.MulMonotone(r, |x|, |taps|);
    var a, b := Codeword(Rotated(x, r), true, taps, m), Rotated(Codeword(x, true, taps, m), r * |taps|);
    forall p: nat | p < |x| * |taps| ensures a[p] == b[p] {
      var i, j := IndexParts(p, |x|, |taps|);
      RotatedCode(x, taps, m, r, i, j);
    }
  }

  // ------------------------------------------------------------------ the encoder

  /** The taps of the first `rate` generators. */
  function Taps(g: seq<nat>, rate: nat, m: nat): (t: seq<seq<int>>)
    requires rate <= |g|
    ensures |t| == rate && IsTaps(t, m)
  {
    seq(rate, j requires 0 <= j < rate => Bits(g[j], m))
  }

  /** The matrix holds the taps. */
  ghost predicate HoldsTaps(gArray: array2<int>, taps: seq<seq<int>>)
    reads gArray
  {
    && gArray.Length0 == |taps| && IsTaps(taps, gArray.Length1)
    && forall j, k :: 0 <= j < |taps| && 0 <= k < gArray.Length1 ==> gArray[j, k] == taps[j][k]
  }

  /** Unpacks the generators, most significant bit first. */
  method BuildTaps(g: seq<nat>, rate: nat, m: nat) returns (gArray: array2<int>)
    requires rate <= |g|
    ensures fresh(gArray) && gArray.Length0 == rate && gArray.Length1 == m
    ensures HoldsTaps(gArray, Taps(g, rate, m))
  {
    gArray := new int[rate, m];
    var i := 0;
    while i < rate
      invariant 0 <= i <= rate
      invariant forall j, k :: 0 <= j < i && 0 <= k < m ==> gArray[j, k] == Bits(g[j], m)[k]
    {
      var j := 0;
      while j < m
        invariant 0 <= j <= m
        invariant forall i', k :: 0 <= i' < i && 0 <= k < m ==> gArray[i', k] == Bits(g[i'], m)[k]
        invariant forall k :: 0 <= k < j ==> gArray[i, k] == Bits(g[i], m)[k]
      {
        BitsAt(g[i], m, j);
        gArray[i, j] := (g[i] / Pow2(m - j - 1)) % 2;
        j := j + 1;
      }
      i := i + 1;
    }
  }

  /** Shifts the register by one place and puts `bit` in front. */
  method ShiftIn(sReg: array<int>, bit: int)
    requires sReg.Length > 0
    modifies sReg
    ensures sReg[..] == [bit] + old(sReg[..sReg.Length - 1])
  {
    var j := sReg.Length - 1;
    while j > 0
      invariant 0 <= j < sReg.Length
      invariant forall k :: 0 <= k <= j ==> sReg[k] == old(sReg[k])
      invariant forall k :: j < k < sReg.Length ==> sReg[k] == old(sReg[k - 1])
    {
      sReg[j] := sReg[j - 1];
      j := j - 1;
    }
    sReg[0] := bit;
  }

  /** One output bit, accumulated in place. */
  method OutputBit(sReg: array<int>, gArray: array2<int>, j: nat, d: array<int>, at: nat, ghost taps: seq<seq<int>>)
    requires j < gArray.Length0 && gArray.Length1 == sReg.Length && at < d.Length && d != sReg
    requires HoldsTaps(gArray, taps)
    modifies d
    ensures d[..] == old(d[..])[at := Parity(sReg[..], taps[j])]
  {
    d[at] := 0;
    var k := 0;
    while k < sReg.Length
      invariant 0 <= k <= sReg.Length
      invariant d[at] == Dot(sReg[..], taps[j], k)
      invariant forall p :: 0 <= p < d.Length && p != at ==> d[p] == old(d[p])
    {
      d[at] := d[at] + sReg[k] * gArray[j, k];
      k := k + 1;
    }
    d[at] := d[at] % 2;
  }

  /** The register before bit `i` enters. */
  predicate Loaded(reg: seq<int>, x: seq<int>, tail: bool, i: nat)
    requires i <= |x| && (tail ==> |reg| <= |x|)
  {
    forall k :: 0 <= k < |reg| ==> reg[k] == if k < i then x[i - k - 1] else if tail then x[i - k - 1 + |x|] else 0
  }

  method InitRegister(c: array<int>, n: nat, m: nat, tail: bool) returns (sReg: array<int>)
    requires n <= c.Length && (tail ==> m <= n)
    ensures fresh(sReg) && sReg.Length == m && Loaded(sReg[..], c[..n], tail, 0)
  {
    sReg := new int[m];
    var i := 0;
    while i < m
      invariant 0 <= i <= m
      invariant forall k :: 0 <= k < i ==> sReg[k] == if tail then c[n - k - 1] else 0
    {
      sReg[i] := if tail then c[n - i - 1] else 0;
      i := i + 1;
    }
  }

  lemma ShiftedIsWindow(reg: seq<int>, x: seq<int>, tail: bool, i: nat)
    requires |reg| > 0 && i < |x| && (tail ==> |reg| <= |x|) && Loaded(reg, x, tail, i)
    ensures [x[i]] + reg[..|reg| - 1] == Window(x, tail, i, |reg|)
    ensures Loaded(Window(x, tail, i, |reg|), x, tail, i + 1)
  {
  }

  /** The output bits of one step. */
  method OutputGroup(sReg: array<int>, gArray: array2<int>, rate: nat, d: array<int>, at: nat, ghost taps: seq<seq<int>>)
    requires rate == gArray.Length0 && gArray.Length1 == sReg.Length && at + rate <= d.Length && d != sReg
    requires HoldsTaps(gArray, taps)
    modifies d
    ensures forall p :: at <= p < at + rate ==> d[p] == Parity(sReg[..], taps[p - at])
    ensures d[..at] == old(d[..at])
    ensures forall p :: at + rate <= p < d.Length ==> d[p] == old(d[p])
  {
    var j := 0;
    while j < rate
      invariant 0 <= j <= rate
      invariant forall p :: at <= p < at + j ==> d[p] == Parity(sReg[..], taps[p - at])
      invariant d[..at] == old(d[..at])
      invariant forall p :: at + rate <= p < d.Length ==> d[p] == old(d[p])
    {
      ghost var before := d[..];
      OutputBit(sReg, gArray, j, d, at + j, taps);
      assert d[..at] == before[..at];
      forall p | at <= p < d.Length && p != at + j ensures d[p] == before[p] {
        assert d[..][p] == before[p];
      }
      j := j + 1;
    }
  }

  /** The output so far, up to `at`, is the code word of the first `i` input bits. */
  ghost predicate Encoded(d: seq<int>, x: seq<int>, tail: bool, taps: seq<seq<int>>, m: nat, i: nat, at: nat)
    requires IsTaps(taps, m) && (tail ==> m <= |x|)
  {
    && i <= |x| && at == i * |taps| <= |x| * |taps| <= |d|
    && d[..at] == Codeword(x, tail, taps, m)[..at]
  }

  lemma RoomForGroup(i: nat, n: nat, rate: nat)
    requires i < n
    ensures i * rate + rate <= n * rate && (i + 1) * rate == i * rate + rate
  {
    Arith.MulMonotone(i + 1, n, rate);
  }

  lemma EncodedStep(d: seq<int>, d': seq<int>, x: seq<int>, tail: bool, taps: seq<seq<int>>, m: nat, i: nat, at: nat)
    requires IsTaps(taps, m) && (tail ==> m <= |x|) && i < |x| && Encoded(d, x, tail, taps, m, i, at)
    requires |d'| == |d| && d'[..at] == d[..at] && at + |taps| <= |d|
    requires forall p :: at <= p < at + |taps| ==> d'[p] == Parity(Window(x, tail, i, m), taps[p - at])
    ensures Encoded(d', x, tail, taps, m, i + 1, at + |taps|)
  {
    RoomForGroup(i, |x|, |taps|);
    var code := Codeword(x, tail, taps, m);
    forall p: nat | p < at + |taps| ensures d'[p] == code[p] {
      if p < at {
        assert d'[..at][p] == code[..at][p];
      } else {
        CodewordAt(x, tail, taps, m, i, p - at);
      }
    }
  }

  /** The encoder's step for one input bit. */
  method EncodeBit(sReg: array<int>, bit: int, gArray: array2<int>, rate: nat, d: array<int>, at: nat,
                   ghost x: seq<int>, ghost tail: bool, ghost taps: seq<seq<int>>, ghost i: nat)
    requires 0 < sReg.Length == gArray.Length1 && rate == gArray.Length0 && d != sReg && HoldsTaps(gArray, taps)
    requires i < |x| && bit == x[i] && (tail ==> sReg.Length <= |x|)
    requires Loaded(sReg[..], x, tail, i) && Encoded(d[..], x, tail, taps, sReg.Length, i, at)
    modifies sReg, d
    ensures Loaded(sReg[..], x, tail, i + 1) && Encoded(d[..], x, tail, taps, sReg.Length, i + 1, at + rate)
    ensures at + rate <= |x| * rate && forall p :: at + rate <= p < d.Length ==> d[p] == old(d[p])
  {
    RoomForGroup(i, |x|, rate);
    ghost var before := d[..];
    ShiftedIsWindow(sReg[..], x, tail, i);
    ShiftIn(sReg, bit);
    OutputGroup(sReg, gArray, rate, d, at, taps);
    EncodedStep(before, d[..], x, tail, taps, sReg.Length, i, at);
  }

  /** `conv_encode`. */
  method Encode(c: array<int>, n: nat, m: nat, rate: nat, g: seq<nat>, tail: bool, d: array<int>) returns (nd: nat)
    requires 0 < m && n <= c.Length && rate <= |g| && n * rate <= d.Length && c != d
    requires tail ==> m <= n
    requires IsBits(c[..n])
    modifies d
    ensures nd == n * rate && d[..nd] == Codeword(c[..n], tail, Taps(g, rate, m), m)
    ensures d[nd..] == old(d[nd..])
  {
    ghost var x, taps, total := c[..n], Taps(g, rate, m), n * rate;
    var sReg := InitRegister(c, n, m, tail);
    var gArray := BuildTaps(g, rate, m);
    var i, at := 0, 0;
    while i < n
      invariant 0 <= i <= n && 0 <= at && x == c[..n]
      invariant Loaded(sReg[..], x, tail, i) && HoldsTaps(gArray, taps)
      invariant Encoded(d[..], x, tail, taps, m, i, at)
      invariant forall p :: total <= p < d.Length ==> d[p] == old(d[p])
    {
      EncodeBit(sReg, c[i], gArray, rate, d, at, x, tail, taps, i);
      i, at := i + 1, at + rate;
    }
    nd := n * rate;
  }
}
