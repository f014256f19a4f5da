/**
The remainder that modrep_osld/gen_crc/src/crc.c computes, characterised by
multiplication: it is what is missing to a multiple of the generator.
*/
module CrcDivision {
  import opened Crc

  /** The product of the polynomial with coefficients `q`, highest first, and x^16 + g. */
  function Times(q: seq<bool>, g: Reg): (p: seq<bool>)
    ensures |p| == |q| + 16
  {
    if q == [] then Zeros(16)
    else Xor(if q[0] then [true] + g + Zeros(|q| - 1) else Zeros(|q| + 16), [false] + Times(q[1..], g))
  }

  /** q times the divisor, plus `r`. */
  function Composed(g: Reg, q: seq<bool>, r: Reg): (m: seq<bool>)
    ensures |m| == |q| + 16
  {
    Xor(Times(q, g), Zeros(|q|) + r)
  }

  lemma ShiftedDivisor(b: bool, g: Reg, n: nat, i: nat)
    requires i < n + 17
    ensures (if b then [true] + g + Zeros(n) else Zeros(n + 17))[i] == (b && if i == 0 then true else if i < 17 then g[i - 1] else false)
  {
  }

  lemma TimesAt(q: seq<bool>, g: Reg, i: nat)
    requires q != [] && i < |q| + 16
    ensures Times(q, g)[i] == if i == 0 then q[0] else if i < 17 then (q[0] && g[i - 1]) != Times(q[1..], g)[i - 1] else Times(q[1..], g)[i - 1]
  {
    ShiftedDivisor(q[0], g, |q| - 1, i);
  }

  lemma ComposedAt(g: Reg, q: seq<bool>, r: Reg, i: nat)
    requires q != [] && i < |q| + 16
    ensures Composed(g, q, r)[i]
      == if i == 0 then q[0] else if i < 17 then (q[0] && g[i - 1]) != Composed(g, q[1..], r)[i - 1] else Composed(g, q[1..], r)[i - 1]
  {
    TimesAt(q, g, i);
    assert i > 0 ==> (Zeros(|q|) + r)[i] == (Zeros(|q| - 1) + r)[i - 1];
  }

  lemma ReduceAt(m: seq<bool>, g: Reg, i: nat)
    requires |m| > 16 && i < |m| - 1
    ensures Reduce(m, g)[i] == if i < 16 then (m[0] && g[i]) != m[i + 1] else m[i + 1]
  {
  }

  lemma ReduceComposedAt(g: Reg, q: seq<bool>, r: Reg, i: nat)
    requires q != [] && i < |q| + 15
    ensures Reduce(Composed(g, q, r), g)[i] == Composed(g, q[1..], r)[i]
  {
    ReduceAt(Composed(g, q, r), g, i);
    ComposedAt(g, q, r, 0);
    ComposedAt(g, q, r, i + 1);
  }

  lemma ReduceComposed(g: Reg, q: seq<bool>, r: Reg)
    requires q != []
    ensures Composed(g, q, r)[0] == q[0] && Reduce(Composed(g, q, r), g) == Composed(g, q[1..], r)
  {
    ComposedAt(g, q, r, 0);
    forall i: nat | i < |q| + 15 ensures Reduce(Composed(g, q, r), g)[i] == Composed(g, q[1..], r)[i] {
      ReduceComposedAt(g, q, r, i);
    }
  }

  lemma ReduceOneToOne(m: seq<bool>, m': seq<bool>, g: Reg)
    requires |m| == |m'| > 16 && m[0] == m'[0] && Reduce(m, g) == Reduce(m', g)
    ensures m == m'
  {
    forall i: nat | 0 < i < |m| ensures m[i] == m'[i] {
      ReduceAt(m, g, i - 1);
      ReduceAt(m', g, i - 1);
    }
  }

  /** Every remainder of the right width comes out. */
  lemma {:induction false} RemainderOfComposed(g: Reg, q: seq<bool>, r: Reg)
    ensures Remainder(Composed(g, q, r), g) == r
  {
    if q == [] {
      assert Composed(g, q, r) == r;
    } else {
      ReduceComposed(g, q, r);
      RemainderOfComposed(g, q[1..], r);
    }
  }

  lemma {:induction false} Quotient(m: seq<bool>, g: Reg) returns (q: seq<bool>, r: Reg)
    requires |m| >= 16
    ensures m == Composed(g, q, r)
    decreases |m|
  {
    if |m| == 16 {
      q, r := [], m;
    } else {
      var rest;
      rest, r := Quotient(Reduce(m, g), g);
      q := [m[0]] + rest;
      assert q[1..] == rest;
      ReduceComposed(g, q, r);
      ReduceOneToOne(m, Composed(g, q, r), g);
    }
  }

  /** The remainder is `r` exactly if the dividend is a multiple of x^16 + g, plus `r`. */
  lemma RemainderIff(m: seq<bool>, g: Reg, r: Reg)
    requires |m| >= 16
    ensures Remainder(m, g) == r <==> exists q :: m == Composed(g, q, r)
  {
    var q, r' := Quotient(m, g);
    RemainderOfComposed(g, q, r');
    if q' :| m == Composed(g, q', r) {
      RemainderOfComposed(g, q', r);
    }
  }

  lemma CodewordComposed(msg: seq<bool>, g: Reg, q: seq<bool>, r: Reg)
    requires msg + Zeros(16) == Composed(g, q, r)
    ensures msg + r == Composed(g, q, Zeros(16))
  {
    assert |q| == |msg|;
    forall i | 0 <= i < |msg| + 16 ensures (msg + r)[i] == Composed(g, q, Zeros(16))[i] {
      assert (msg + Zeros(16))[i] == Composed(g, q, r)[i];
    }
  }

  /** A message followed by its CRC is a multiple of x^16 + g, and no other sixteen bits make it one. */
  lemma CodewordIff(msg: seq<bool>, g: Reg, r: Reg)
    ensures r == Process(Zeros(16), msg, g) <==> exists q :: msg + r == Composed(g, q, Zeros(16))
  {
    SerialIsRemainder(msg, g);
    RemainderIff(msg + Zeros(16), g, r);
    if q :| msg + Zeros(16) == Composed(g, q, r) {
      CodewordComposed(msg, g, q, r);
    }
    if q :| msg + r == Composed(g, q, Zeros(16)) {
      CodewordBack(msg, g, q, r);
    }
  }

  lemma CodewordBack(msg: seq<bool>, g: Reg, q: seq<bool>, r: Reg)
    requires msg + r == Composed(g, q, Zeros(16))
    ensures msg + Zeros(16) == Composed(g, q, r)
  {
    assert |q| == |msg|;
    forall i | 0 <= i < |msg| + 16 ensures (msg + Zeros(16))[i] == Composed(g, q, r)[i] {
      assert (msg + r)[i] == Composed(g, q, Zeros(16))[i];
    }
  }

  /** Starting from another register is the same as adding it to the first sixteen bits. */
  lemma InitialRegister(init: Reg, msg: seq<bool>, g: Reg)
    requires |msg| >= 16
    ensures Process(init, msg, g) == Process(Zeros(16), Xor(init, msg[..16]) + msg[16..], g)
  {
    var first, rest := msg[..16], msg[16..];
    assert msg == first + rest;
    ProcessConcat(init, first, rest, g);
    ProcessConcat(Zeros(16), Xor(init, first), rest, g);
    FirstSixteen(init, first, g);
  }

  lemma FirstSixteen(init: Reg, first: Reg, g: Reg)
    ensures Process(init, first, g) == Process(Zeros(16), Xor(init, first), g)
  {
    Chunk(init, first, g);
    Chunk(Zeros(16), Xor(init, first), g);
    assert Xor(init, Align(first)) == Xor(Zeros(16), Align(Xor(init, first)));
  }
}
