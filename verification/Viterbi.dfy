/**
The decoder of modrep_osld/gen_viterbi/src/viterbi_decoder.c: branch and path
metrics, the search for the start of the traceback, the traceback and the
read-out. Metrics are exact numbers.
*/
module Viterbi {
  import Arith
  import opened ConvCode
  import opened Trellis

  // ---------------------------------------------------------------------- metrics

  /** The hard decision on a soft bit. */
  function Hard(y: real): (b: int)
    ensures b == 0 || b == 1
  {
    if y <= 0.0 then 0 else 1
  }

  function Abs(y: real): (r: real)
    ensures r >= 0.0 && (r == y || r == -y)
  {
    if y < 0.0 then -y else y
  }

  /** How many of the first `n` soft bits of a group disagree with branch `j` into state `s`. */
  function Mismatches(code: Code, group: seq<real>, s: nat, j: nat, n: nat): (r: nat)
    requires code.Valid() && s < code.States() && j < 2 && n <= |code.taps| == |group|
  {
    if n == 0 then 0 else Mismatches(code, group, s, j, n - 1) + (TableEntry(code, s, j, n - 1) + Hard(group[n - 1])) % 2
  }

  /** The weight of the first `n` soft bits of a group. */
  function Weight(group: seq<real>, n: nat): (r: real)
    requires n <= |group|
    ensures r >= 0.0
  {
    if n == 0 then 0.0 else Weight(group, n - 1) + Abs(group[n - 1])
  }

  /** The new metric of state `s`, given its two predecessors' metrics and branch metrics. */
  function Select(p0: real, p1: real, b0: real, b1: real, w: real): real {
    if b0 + p0 > b1 + p1 then p1 + w * b1 else p0 + w * b0
  }

  predicate IsMetric(code: Code, pm: seq<real>) {
    code.Valid() && |pm| == code.States() && forall s :: 0 <= s < |pm| ==> pm[s] >= 0.0
  }

  function Update(code: Code, group: seq<real>, pm: seq<real>, s: nat): real
    requires code.Valid() && |pm| == code.States() && s < code.States() && |group| == |code.taps|
  {
    var rate := |code.taps|;
    Select(pm[Prev(code, s, 0)], pm[Prev(code, s, 1)],
           Mismatches(code, group, s, 0, rate) as real, Mismatches(code, group, s, 1, rate) as real, Weight(group, rate))
  }

  lemma SelectNonNegative(p0: real, p1: real, b0: real, b1: real, w: real)
    requires p0 >= 0.0 && p1 >= 0.0 && b0 >= 0.0 && b1 >= 0.0 && w >= 0.0
    ensures Select(p0, p1, b0, b1, w) >= 0.0
  {
    assert w * b0 >= 0.0 && w * b1 >= 0.0;
  }

  /** A branch without mismatch out of a state of metric zero wins, or ties with another such. */
  lemma SelectZero(p0: real, p1: real, b0: real, b1: real, w: real)
    requires p0 >= 0.0 && p1 >= 0.0 && b0 >= 0.0 && b1 >= 0.0 && w >= 0.0
    requires (p0 == 0.0 && b0 == 0.0) || (p1 == 0.0 && b1 == 0.0)
    ensures Select(p0, p1, b0, b1, w) == 0.0
  {
  }

  /** A metric of zero comes from a predecessor of metric zero. */
  lemma ZeroFromZero(p0: real, p1: real, b0: real, b1: real, w: real)
    requires p0 >= 0.0 && p1 >= 0.0 && b0 >= 0.0 && b1 >= 0.0 && w >= 0.0
    requires Select(p0, p1, b0, b1, w) == 0.0
    ensures p0 == 0.0 || p1 == 0.0
  {
    assert w * b0 >= 0.0 && w * b1 >= 0.0;
  }

  lemma GroupRoom(t: nat, steps: nat, rate: nat)
    requires t < steps
    ensures (t + 1) * rate <= steps * rate && t * rate <= steps * rate && t * rate + rate == (t + 1) * rate
  {
    Arith.MulMonotone(t + 1, steps, rate);
    Arith.MulMonotone(t, steps, rate);
  }

  /** The path metrics of all states after `t` steps. */
  function Metrics(code: Code, y: seq<real>, t: nat): (pm: seq<real>)
    requires code.Valid() && t * |code.taps| <= |y|
    ensures |pm| == code.States()
  {
    if t == 0 then
      seq(code.States(), s => 0.0)
    else
      GroupRoom(t - 1, t, |code.taps|);
      seq(code.States(), s requires 0 <= s < code.States() => Update(code, Arith.Group(y, t - 1, |code.taps|), Metrics(code, y, t - 1), s))
  }

  /** No metric is ever negative. */
  lemma {:induction false} MetricsNonNegative(code: Code, y: seq<real>, t: nat)
    requires code.Valid() && t * |code.taps| <= |y|
    ensures IsMetric(code, Metrics(code, y, t))
  {
    if t > 0 {
      GroupRoom(t - 1, t, |code.taps|);
      MetricsNonNegative(code, y, t - 1);
      var group, pm, rate := Arith.Group(y, t - 1, |code.taps|), Metrics(code, y, t - 1), |code.taps|;
      forall s: nat | s < code.States() ensures Update(code, group, pm, s) >= 0.0 {
        SelectNonNegative(pm[Prev(code, s, 0)], pm[Prev(code, s, 1)],
          Mismatches(code, group, s, 0, rate) as real, Mismatches(code, group, s, 1, rate) as real, Weight(group, rate));
      }
    }
  }

  // ------------------------------------------------------- sign-correct soft input

  /** The signs of a group are those of the encoder's output for bit `b` in state `s`. */
  predicate SignCorrect(code: Code, group: seq<real>, s: nat, b: int)
    requires code.Valid() && |group| == |code.taps|
  {
    forall o :: 0 <= o < |group| ==> Hard(group[o]) == Output(code, s, b, o)
  }

  lemma {:induction false} NoMismatch(code: Code, group: seq<real>, s: nat, j: nat, n: nat)
    requires code.Valid() && s < code.States() && j < 2 && n <= |code.taps| == |group|
    requires forall o :: 0 <= o < |group| ==> Hard(group[o]) == TableEntry(code, s, j, o)
    ensures Mismatches(code, group, s, j, n) == 0
  {
    if n > 0 {
      NoMismatch(code, group, s, j, n - 1);
      assert Hard(group[n - 1]) == TableEntry(code, s, j, n - 1);
    }
  }

  lemma SignCorrectBranch(code: Code, group: seq<real>, s: nat, b: int)
    requires code.Valid() && s < code.States() && (b == 0 || b == 1) && |group| == |code.taps|
    requires SignCorrect(code, group, s, b)
    ensures Mismatches(code, group, Next(code, s, b), s % 2, |group|) == 0
  {
    forall o | 0 <= o < |group| ensures Hard(group[o]) == TableEntry(code, Next(code, s, b), s % 2, o) {
      TableMatchesEncoder(code, s, b, o);
    }
    NoMismatch(code, group, Next(code, s, b), s % 2, |group|);
  }

  lemma UpdateZero(code: Code, group: seq<real>, pm: seq<real>, s: nat, b: int)
    requires IsMetric(code, pm) && s < code.States() && (b == 0 || b == 1) && |group| == |code.taps|
    requires SignCorrect(code, group, s, b) && pm[s] == 0.0
    ensures Update(code, group, pm, Next(code, s, b)) == 0.0
  {
    var s', rate := Next(code, s, b), |code.taps|;
    SignCorrectBranch(code, group, s, b);
    NextThenPrev(code, s, b);
    SelectZero(pm[Prev(code, s', 0)], pm[Prev(code, s', 1)],
      Mismatches(code, group, s', 0, rate) as real, Mismatches(code, group, s', 1, rate) as real, Weight(group, rate));
  }

  lemma FreeStep(code: Code, y: seq<real>, t: nat, s: nat, b: int)
    requires code.Valid() && (t + 1) * |code.taps| <= |y| && s < code.States() && (b == 0 || b == 1)
    requires SignCorrect(code, Arith.Group(y, t, |code.taps|), s, b)
    requires t * |code.taps| <= |y| && Metrics(code, y, t)[s] == 0.0
    ensures Metrics(code, y, t + 1)[Next(code, s, b)] == 0.0
  {
    MetricsNonNegative(code, y, t);
    UpdateZero(code, Arith.Group(y, t, |code.taps|), Metrics(code, y, t), s, b);
  }

  /** The soft input agrees in sign with the code word of `x`. */
  predicate Faithful(code: Code, y: seq<real>, x: seq<int>, tail: bool)
    requires code.Valid() && (tail ==> code.m <= |x|)
  {
    |y| == |x| * |code.taps| && forall p :: 0 <= p < |y| ==> Hard(y[p]) == Codeword(x, tail, code.taps, code.m)[p]
  }

  lemma FaithfulGroup(code: Code, y: seq<real>, x: seq<int>, tail: bool, t: nat)
    requires code.Valid() && (tail ==> code.m <= |x|) && IsBits(x) && Faithful(code, y, x, tail) && t < |x|
    ensures (t + 1) * |code.taps| <= |y|
    ensures SignCorrect(code, Arith.Group(y, t, |code.taps|), EncoderState(code, x, tail, t), x[t])
  {
    GroupRoom(t, |x|, |code.taps|);
    var group := Arith.Group(y, t, |code.taps|);
    forall o: nat | o < |group| ensures Hard(group[o]) == Output(code, EncoderState(code, x, tail, t), x[t], o) {
      EncoderOutput(code, x, tail, t, o);
      Arith.GroupAt(y, t, |code.taps|, o);
    }
  }

  /** The states that the encoder visits on `u`. */
  predicate IsPath(code: Code, states: seq<nat>, u: seq<int>)
    requires code.Valid()
  {
    && |states| == |u| + 1 && IsBits(u)
    && (forall i :: 0 <= i < |states| ==> states[i] < code.States())
    && forall i: nat :: i < |u| ==> Moves(code, states, u, i)
  }

  predicate Moves(code: Code, states: seq<nat>, u: seq<int>, i: nat)
    requires code.Valid() && |states| == |u| + 1 && IsBits(u) && i < |u|
    requires forall k :: 0 <= k < |states| ==> states[k] < code.States()
  {
    states[i + 1] == Next(code, states[i], u[i])
  }

  /** The soft bits of step `i` have the signs of the path's outputs. */
  ghost predicate StepFaithful(code: Code, y: seq<real>, states: seq<nat>, u: seq<int>, i: nat)
    requires code.Valid() && i < |states| && i < |u|
  {
    (i + 1) * |code.taps| <= |y| && SignCorrect(code, Arith.Group(y, i, |code.taps|), states[i], u[i])
  }

  ghost predicate PathFaithful(code: Code, y: seq<real>, states: seq<nat>, u: seq<int>)
    requires code.Valid() && |states| == |u| + 1
  {
    forall i: nat :: i < |u| ==> StepFaithful(code, y, states, u, i)
  }

  /** After `t` steps the metric of the path's state is zero. */
  ghost predicate FreeAt(code: Code, y: seq<real>, states: seq<nat>, t: nat) {
    && code.Valid() && t < |states| && states[t] < code.States() && t * |code.taps| <= |y|
    && Metrics(code, y, t)[states[t]] == 0.0
  }

  lemma PathStep(code: Code, y: seq<real>, states: seq<nat>, u: seq<int>, t: nat)
    requires code.Valid() && IsPath(code, states, u) && PathFaithful(code, y, states, u) && t < |u| && FreeAt(code, y, states, t)
    ensures FreeAt(code, y, states, t + 1)
  {
    assert Moves(code, states, u, t);
    assert StepFaithful(code, y, states, u, t);
    FreeStep(code, y, t, states[t], u[t]);
  }

  lemma PathStart(code: Code, y: seq<real>, states: seq<nat>)
    requires code.Valid() && states != [] && states[0] < code.States()
    ensures FreeAt(code, y, states, 0)
  {
  }

  /** Sign-correct input keeps the metric at zero along any path of the encoder, whatever state it started from. */
  lemma {:induction false} PathIsFree(code: Code, y: seq<real>, states: seq<nat>, u: seq<int>, t: nat)
    requires code.Valid() && IsPath(code, states, u) && PathFaithful(code, y, states, u) && t <= |u|
    ensures FreeAt(code, y, states, t)
  {
    if t > 0 {
      PathIsFree(code, y, states, u, t - 1);
      PathStep(code, y, states, u, t - 1);
    } else {
      PathStart(code, y, states);
    }
  }

  function EncoderStates(code: Code, x: seq<int>, tail: bool): (states: seq<nat>)
    requires code.Valid() && (tail ==> code.m <= |x|) && IsBits(x)
    ensures |states| == |x| + 1
  {
    seq(|x| + 1, i requires 0 <= i <= |x| => EncoderState(code, x, tail, i))
  }

  lemma EncoderPath(code: Code, x: seq<int>, tail: bool)
    requires code.Valid() && (tail ==> code.m <= |x|) && IsBits(x)
    ensures IsPath(code, EncoderStates(code, x, tail), x)
  {
    var states := EncoderStates(code, x, tail);
    forall i: nat | i < |x| ensures Moves(code, states, x, i) {
      EncoderStep(code, x, tail, i);
    }
  }

  lemma FaithfulStep(code: Code, y: seq<real>, x: seq<int>, tail: bool, s: nat, i: nat)
    requires code.Valid() && (tail ==> code.m <= |x|) && IsBits(x) && Faithful(code, y, x, tail) && i < |x|
    requires s == EncoderStates(code, x, tail)[i]
    ensures (i + 1) * |code.taps| <= |y| && SignCorrect(code, Arith.Group(y, i, |code.taps|), s, x[i])
  {
    FaithfulGroup(code, y, x, tail, i);
  }

  lemma EncoderPathFaithful(code: Code, y: seq<real>, x: seq<int>, tail: bool, states: seq<nat>)
    requires code.Valid() && (tail ==> code.m <= |x|) && IsBits(x) && Faithful(code, y, x, tail)
    requires IsPath(code, states, x) && states == EncoderStates(code, x, tail)
    ensures PathFaithful(code, y, states, x)
  {
    forall i: nat | i < |x| ensures StepFaithful(code, y, states, x, i) {
      FaithfulStep(code, y, x, tail, states[i], i);
    }
  }

  /** Sign-correct input for the encoder's code word keeps the metric at zero along the encoder's states. */
  lemma EncoderPathIsFree(code: Code, y: seq<real>, x: seq<int>, tail: bool, t: nat)
    requires code.Valid() && (tail ==> code.m <= |x|) && IsBits(x) && Faithful(code, y, x, tail) && t <= |x|
    ensures t * |code.taps| <= |y| && Metrics(code, y, t)[EncoderState(code, x, tail, t)] == 0.0
  {
    var states := EncoderStates(code, x, tail);
    EncoderPath(code, x, tail);
    EncoderPathFaithful(code, y, x, tail, states);
    PathIsFree(code, y, states, x, t);
  }

  // -------------------------------------------------------------------- traceback

  /** The predecessor of `s` with the smaller metric. */
  function BestPrev(code: Code, pm: seq<real>, s: nat): (r: nat)
    requires code.Valid() && |pm| == code.States() && s < code.States()
    ensures r < code.States()
  {
    if pm[Prev(code, s, 0)] > pm[Prev(code, s, 1)] then Prev(code, s, 1) else Prev(code, s, 0)
  }

  /** The bit that the read-out assigns to a transition. */
  function ReadBit(older: nat, newer: nat): (b: int)
    ensures b == 0 || b == 1
  {
    if newer < older then 0 else if newer > older then 1 else if newer == 0 then 0 else 1
  }

  /** The read-out finds the bit that leads into the newer state. */
  lemma ReadBitIsInBit(code: Code, s: nat, j: nat)
    requires code.Valid() && s < code.States() && j < 2
    ensures ReadBit(Prev(code, s, j), s) == InBit(code, s)
  {
  }

  /** One step of the traceback, read out and encoded again, leads back. */
  lemma TraceStep(code: Code, pm: seq<real>, s: nat)
    requires code.Valid() && |pm| == code.States() && s < code.States()
    ensures Next(code, BestPrev(code, pm, s), ReadBit(BestPrev(code, pm, s), s)) == s
  {
    ReadBitIsInBit(code, s, 0);
    ReadBitIsInBit(code, s, 1);
    PrevThenNext(code, s, 0);
    PrevThenNext(code, s, 1);
  }

  /** One metric per state at every time. */
  predicate IsColumns(code: Code, cols: seq<seq<real>>) {
    code.Valid() && cols != [] && forall t :: 0 <= t < |cols| ==> |cols[t]| == code.States()
  }

  /** The path metrics of all states from time 0 to `steps`. */
  function AllMetrics(code: Code, y: seq<real>, steps: nat): (cols: seq<seq<real>>)
    requires code.Valid() && steps * |code.taps| <= |y|
    ensures |cols| == steps + 1 && IsColumns(code, cols)
  {
    seq(steps + 1, t requires 0 <= t <= steps =>
      Arith.MulMonotone(t, steps, |code.taps|);
      Metrics(code, y, t))
  }

  /** The traced states in the order of time: each is the better predecessor of the next. */
  ghost predicate IsTrace(code: Code, cols: seq<seq<real>>, path: seq<nat>)
    requires IsColumns(code, cols)
  {
    && |path| == |cols|
    && (forall t :: 0 <= t < |path| ==> path[t] < code.States())
    && forall t: nat :: t < |path| - 1 ==> Traces(code, cols, path, t)
  }

  predicate Traces(code: Code, cols: seq<seq<real>>, path: seq<nat>, t: nat)
    requires IsColumns(code, cols) && t < |path| - 1 && |path| == |cols| && path[t + 1] < code.States()
  {
    path[t] == BestPrev(code, cols[t], path[t + 1])
  }

  /** The bits read out along a path. */
  function ReadBits(path: seq<nat>): (u: seq<int>)
    requires path != []
    ensures |u| == |path| - 1
  {
    seq(|path| - 1, t requires 0 <= t < |path| - 1 => ReadBit(path[t], path[t + 1]))
  }

  /** Encoding the decoded bits from the oldest traced state visits exactly the traced states. */
  lemma TraceIsPath(code: Code, cols: seq<seq<real>>, path: seq<nat>)
    requires IsColumns(code, cols) && IsTrace(code, cols, path)
    ensures IsPath(code, path, ReadBits(path))
  {
    var u := ReadBits(path);
    forall t: nat | t < |u| ensures Moves(code, path, u, t) {
      assert Traces(code, cols, path, t);
      TraceStep(code, cols[t], path[t + 1]);
    }
  }

  lemma ZeroBack(code: Code, y: seq<real>, t: nat, s: nat)
    requires code.Valid() && t * |code.taps| <= |y| && (t + 1) * |code.taps| <= |y| && s < code.States()
    requires Metrics(code, y, t + 1)[s] == 0.0
    ensures Metrics(code, y, t)[BestPrev(code, Metrics(code, y, t), s)] == 0.0
  {
    MetricsNonNegative(code, y, t);
    var group, pm, rate := Arith.Group(y, t, |code.taps|), Metrics(code, y, t), |code.taps|;
    assert Update(code, group, pm, s) == 0.0;
    ZeroFromZero(pm[Prev(code, s, 0)], pm[Prev(code, s, 1)],
      Mismatches(code, group, s, 0, rate) as real, Mismatches(code, group, s, 1, rate) as real, Weight(group, rate));
  }

  lemma ColumnBack(code: Code, y: seq<real>, steps: nat, t: nat, s: nat)
    requires code.Valid() && steps * |code.taps| <= |y| && t < steps && s < code.States()
    requires AllMetrics(code, y, steps)[t + 1][s] == 0.0
    ensures var col := AllMetrics(code, y, steps)[t]; col[BestPrev(code, col, s)] == 0.0
  {
    GroupRoom(t, steps, |code.taps|);
    ZeroBack(code, y, t, s);
  }

  /** A traceback that starts at metric zero stays at metric zero. */
  lemma {:induction false} TraceStaysFree(code: Code, y: seq<real>, steps: nat, cols: seq<seq<real>>, path: seq<nat>, t: nat)
    requires code.Valid() && steps * |code.taps| <= |y| && cols == AllMetrics(code, y, steps)
    requires IsTrace(code, cols, path) && t <= steps && cols[steps][path[steps]] == 0.0
    ensures cols[t][path[t]] == 0.0
    decreases steps - t
  {
    if t < steps {
      TraceStaysFree(code, y, steps, cols, path, t + 1);
      assert Traces(code, cols, path, t);
      ColumnBack(code, y, steps, t, path[t + 1]);
    }
  }

  /** `s` is the first state with the smallest metric. */
  predicate IsBest(pm: seq<real>, s: nat) {
    && s < |pm|
    && (forall i :: 0 <= i < |pm| ==> pm[s] <= pm[i])
    && forall i :: 0 <= i < s ==> pm[s] < pm[i]
  }

  /** On sign-correct input the best final metric is zero. */
  lemma FaithfulBest(code: Code, y: seq<real>, x: seq<int>, tail: bool, s: nat)
    requires code.Valid() && (tail ==> code.m <= |x|) && IsBits(x) && Faithful(code, y, x, tail)
    requires IsBest(AllMetrics(code, y, |x|)[|x|], s)
    ensures AllMetrics(code, y, |x|)[|x|][s] == 0.0
  {
    EncoderPathIsFree(code, y, x, tail, |x|);
    MetricsNonNegative(code, y, |x|);
    var col, e := Metrics(code, y, |x|), EncoderState(code, x, tail, |x|);
    assert col[s] <= col[e];
  }

  /** On sign-correct input the traceback passes through states of metric zero only. */
  lemma FaithfulTrace(code: Code, y: seq<real>, x: seq<int>, tail: bool, path: seq<nat>, t: nat)
    requires code.Valid() && (tail ==> code.m <= |x|) && IsBits(x) && Faithful(code, y, x, tail)
    requires var cols := AllMetrics(code, y, |x|); IsTrace(code, cols, path) && IsBest(cols[|x|], path[|x|]) && t <= |x|
    ensures AllMetrics(code, y, |x|)[t][path[t]] == 0.0
  {
    FaithfulBest(code, y, x, tail, path[|x|]);
    TraceStaysFree(code, y, |x|, AllMetrics(code, y, |x|), path, t);
  }
}
