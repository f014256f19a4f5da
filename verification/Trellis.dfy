/**
The trellis that the Viterbi decoder of
modrep_osld/gen_viterbi/src/viterbi_decoder.c walks through, against the
shift register of the convolutional encoder. A state is the register without
its newest bit, read as a number with the newest remembered bit in front.
*/
module Trellis {
  import Arith
  import opened ConvCode

  /** Constraint length and taps. */
  datatype Code = Code(m: nat, taps: seq<seq<int>>) {
    predicate Valid() {
      m >= 2 && IsTaps(taps, m)
    }

    function Half(): (h: nat)
      requires Valid()
      ensures h > 0
    {
      Pow2(m - 2)
    }

    function States(): (n: nat)
      requires Valid()
      ensures n == 2 * Half()
    {
      Pow2(m - 1)
    }
  }

  /** The state after bit `b`. */
  function Next(code: Code, s: nat, b: int): (r: nat)
    requires code.Valid() && s < code.States() && (b == 0 || b == 1)
    ensures r < code.States()
  {
    b * code.Half() + s / 2
  }

  /** The bit that leads into `s`. */
  function InBit(code: Code, s: nat): (b: int)
    requires code.Valid() && s < code.States()
    ensures b == 0 || b == 1
  {
    if s < code.Half() then 0 else 1
  }

  /** The two states before `s`. */
  function Prev(code: Code, s: nat, j: nat): (r: nat)
    requires code.Valid() && s < code.States() && j < 2
    ensures r < code.States()
  {
    if s < code.Half() then 2 * s + j else 2 * s + j - code.States()
  }

  /** The decoder computes the predecessors modulo the number of states. */
  lemma PrevIsModulo(code: Code, s: nat, j: nat)
    requires code.Valid() && s < code.States() && j < 2
    ensures (2 * s + j) % code.States() == Prev(code, s, j)
  {
    var q := if s < code.Half() then 0 else 1;
    Arith.Unique(2 * s + j, q, 2 * s + j - q * code.States(), code.States());
  }

  /** Going back and forth: the predecessors of a state are exactly the states that reach it. */
  lemma PrevThenNext(code: Code, s: nat, j: nat)
    requires code.Valid() && s < code.States() && j < 2
    ensures Next(code, Prev(code, s, j), InBit(code, s)) == s && Prev(code, s, j) % 2 == j
  {
  }

  lemma NextThenPrev(code: Code, s: nat, b: int)
    requires code.Valid() && s < code.States() && (b == 0 || b == 1)
    ensures InBit(code, Next(code, s, b)) == b && Prev(code, Next(code, s, b), s % 2) == s
  {
  }

  // ------------------------------------------------------------------ registers

  /** The number written by `bits`, most significant first. */
  function Value(bits: seq<int>): (v: nat)
    requires IsBits(bits)
    ensures v < Pow2(|bits|)
  {
    if bits == [] then 0 else 2 * Value(bits[..|bits| - 1]) + bits[|bits| - 1]
  }

  lemma {:induction false} ValueThenBits(bits: seq<int>)
    requires IsBits(bits)
    ensures Bits(Value(bits), |bits|) == bits
  {
    if bits != [] {
      ValueThenBits(bits[..|bits| - 1]);
    }
  }

  lemma {:induction false} BitsThenValue(v: nat, m: nat)
    requires v < Pow2(m)
    ensures Value(Bits(v, m)) == v
  {
    if m > 0 {
      BitsThenValue(v / 2, m - 1);
      assert Bits(v, m)[..m - 1] == Bits(v / 2, m - 1);
    }
  }

  lemma {:induction false} ValueFront(b: int, bits: seq<int>)
    requires IsBits(bits) && (b == 0 || b == 1)
    ensures IsBits([b] + bits) && Value([b] + bits) == b * Pow2(|bits|) + Value(bits)
  {
    if bits == [] {
      assert [b] + bits == [b] && [b][..0] == [];
    } else {
      ValueFront(b, bits[..|bits| - 1]);
      assert ([b] + bits)[..|bits|] == [b] + bits[..|bits| - 1];
    }
  }

  /** Shifting a bit into the register is a step of the trellis. */
  lemma ShiftIsNext(code: Code, bits: seq<int>, b: int)
    requires code.Valid() && |bits| == code.m - 1 && IsBits(bits) && (b == 0 || b == 1)
    ensures Value(bits) < code.States()
    ensures IsBits([b] + bits[..|bits| - 1]) && Value([b] + bits[..|bits| - 1]) == Next(code, Value(bits), b)
  {
    ValueFront(b, bits[..|bits| - 1]);
  }

  /** The encoder's output number `o` for bit `b` in state `s`. */
  function Output(code: Code, s: nat, b: int, o: nat): int
    requires code.Valid() && o < |code.taps|
  {
    Parity([b] + Bits(s, code.m - 1), code.taps[o])
  }

  /** The decoder's table entry for branch `j` into state `s`. */
  function TableEntry(code: Code, s: nat, j: nat, o: nat): int
    requires code.Valid() && s < code.States() && j < 2 && o < |code.taps|
  {
    Output(code, Prev(code, s, j), InBit(code, s), o)
  }

  /** The table entry of the branch that the encoder takes is what the encoder outputs. */
  lemma TableMatchesEncoder(code: Code, s: nat, b: int, o: nat)
    requires code.Valid() && s < code.States() && (b == 0 || b == 1) && o < |code.taps|
    ensures TableEntry(code, Next(code, s, b), s % 2, o) == Output(code, s, b, o)
  {
    NextThenPrev(code, s, b);
  }

  // ---------------------------------------------------------- the encoder's states

  /** The register without its newest place before bit `i` enters. */
  function Memory(x: seq<int>, tail: bool, i: nat, m: nat): (r: seq<int>)
    requires i <= |x| && (tail ==> m <= |x|) && IsBits(x)
    ensures |r| == m && IsBits(r)
  {
    seq(m, k requires 0 <= k < m => if k < i then x[i - k - 1] else if tail then x[i - k - 1 + |x|] else 0)
  }

  /** The state of the encoder before bit `i`. */
  function EncoderState(code: Code, x: seq<int>, tail: bool, i: nat): (s: nat)
    requires code.Valid() && i <= |x| && (tail ==> code.m <= |x|) && IsBits(x)
    ensures s < code.States()
  {
    Value(Memory(x, tail, i, code.m - 1))
  }

  lemma EncoderStep(code: Code, x: seq<int>, tail: bool, i: nat)
    requires code.Valid() && i < |x| && (tail ==> code.m <= |x|) && IsBits(x)
    ensures EncoderState(code, x, tail, i + 1) == Next(code, EncoderState(code, x, tail, i), x[i])
  {
    var mem := Memory(x, tail, i, code.m - 1);
    ShiftIsNext(code, mem, x[i]);
    assert Memory(x, tail, i + 1, code.m - 1) == [x[i]] + mem[..|mem| - 1];
  }

  /** Tail-biting: the encoder ends in the state it started from. */
  lemma TailBites(code: Code, x: seq<int>)
    requires code.Valid() && code.m <= |x| && IsBits(x)
    ensures EncoderState(code, x, true, |x|) == EncoderState(code, x, true, 0)
  {
    assert Memory(x, true, |x|, code.m - 1) == Memory(x, true, 0, code.m - 1);
  }

  lemma WindowIsMemory(x: seq<int>, tail: bool, i: nat, m: nat)
    requires m > 0 && i < |x| && (tail ==> m <= |x|) && IsBits(x)
    ensures Window(x, tail, i, m) == [x[i]] + Memory(x, tail, i, m - 1)
  {
  }

  lemma StateBits(code: Code, x: seq<int>, tail: bool, i: nat)
    requires code.Valid() && i <= |x| && (tail ==> code.m <= |x|) && IsBits(x)
    ensures Bits(EncoderState(code, x, tail, i), code.m - 1) == Memory(x, tail, i, code.m - 1)
  {
    ValueThenBits(Memory(x, tail, i, code.m - 1));
  }

  /** The code word is the trail of outputs along the encoder's states. */
  lemma EncoderOutput(code: Code, x: seq<int>, tail: bool, i: nat, o: nat)
    requires code.Valid() && i < |x| && (tail ==> code.m <= |x|) && IsBits(x) && o < |code.taps|
    ensures Arith.Position(i, o, |code.taps|) < |x| * |code.taps|
    ensures Codeword(x, tail, code.taps, code.m)[Arith.Position(i, o, |code.taps|)] == Output(code, EncoderState(code, x, tail, i), x[i], o)
  {
    CodewordAt(x, tail, code.taps, code.m, i, o);
    StateBits(code, x, tail, i);
    WindowIsMemory(x, tail, i, code.m);
  }
}
