/**
What the Viterbi decoder chooses at every step, told with the transitions of the
encoder: which of two transitions into a state it keeps and at what cost, and
which of two states the traceback goes back to.
*/
module ViterbiRules {
  import Arith
  import opened ConvCode
  import opened Trellis
  import opened Viterbi

  /** The soft bits of a group whose sign is not the encoder's output for bit `b` in state `p`. */
  ghost function Disagree(code: Code, group: seq<real>, p: nat, b: int): set<nat>
    requires code.Valid() && |group| == |code.taps|
  {
    set o: nat | o < |group| && (group[o] > 0.0) != (Output(code, p, b, o) == 1)
  }

  /** How many they are. */
  ghost function Cost(code: Code, group: seq<real>, p: nat, b: int): (r: real)
    requires code.Valid() && |group| == |code.taps|
  {
    |Disagree(code, group, p, b)| as real
  }

  /** The sum of the magnitudes. */
  function Magnitude(group: seq<real>): (r: real) {
    if group == [] then 0.0 else (if group[0] > 0.0 then group[0] else 0.0 - group[0]) + Magnitude(group[1..])
  }

  lemma {:induction false} MagnitudeLast(group: seq<real>, y: real)
    ensures Magnitude(group + [y]) == Magnitude(group) + (if y > 0.0 then y else 0.0 - y)
  {
    if group == [] {
      assert (group + [y])[1..] == [];
    } else {
      assert (group + [y])[1..] == group[1..] + [y];
      MagnitudeLast(group[1..], y);
    }
  }

  lemma {:induction false} WeightIsMagnitude(group: seq<real>, n: nat)
    requires n <= |group|
    ensures Weight(group, n) == Magnitude(group[..n])
  {
    if n > 0 {
      WeightIsMagnitude(group, n - 1);
      assert group[..n] == group[..n - 1] + [group[n - 1]];
      MagnitudeLast(group[..n - 1], group[n - 1]);
    }
  }

  /** The soft bits among the first `n` that disagree. */
  ghost function DisagreeBelow(code: Code, group: seq<real>, p: nat, b: int, n: nat): set<nat>
    requires code.Valid() && |group| == |code.taps|
  {
    set o: nat | o < n && o < |group| && (group[o] > 0.0) != (Output(code, p, b, o) == 1)
  }

  lemma OneMore(code: Code, group: seq<real>, p: nat, b: int, n: nat)
    requires code.Valid() && n < |group| == |code.taps|
    ensures |DisagreeBelow(code, group, p, b, n + 1)|
      == |DisagreeBelow(code, group, p, b, n)| + if (group[n] > 0.0) != (Output(code, p, b, n) == 1) then 1 else 0
  {
    var below, more := DisagreeBelow(code, group, p, b, n), if (group[n] > 0.0) != (Output(code, p, b, n) == 1) then {n} else {};
    assert DisagreeBelow(code, group, p, b, n + 1) == below + more;
  }

  lemma OneMismatch(out: int, y: real)
    requires 0 <= out < 2
    ensures (out + Hard(y)) % 2 == if (y > 0.0) != (out == 1) then 1 else 0
  {
  }

  lemma BranchMismatch(code: Code, group: seq<real>, p: nat, b: int, s: nat, n: nat)
    requires code.Valid() && p < code.States() && (b == 0 || b == 1) && s == Next(code, p, b) && n < |group| == |code.taps|
    ensures Mismatches(code, group, s, p % 2, n + 1)
      == Mismatches(code, group, s, p % 2, n) + if (group[n] > 0.0) != (Output(code, p, b, n) == 1) then 1 else 0
  {
    TableMatchesEncoder(code, p, b, n);
    OneMismatch(TableEntry(code, s, p % 2, n), group[n]);
  }

  lemma {:induction false} MismatchesCount(code: Code, group: seq<real>, p: nat, b: int, s: nat, n: nat)
    requires code.Valid() && p < code.States() && (b == 0 || b == 1) && s == Next(code, p, b) && n <= |group| == |code.taps|
    ensures Mismatches(code, group, s, p % 2, n) == |DisagreeBelow(code, group, p, b, n)|
  {
    if n > 0 {
      MismatchesCount(code, group, p, b, s, n - 1);
      OneMore(code, group, p, b, n - 1);
      BranchMismatch(code, group, p, b, s, n - 1);
    } else {
      assert DisagreeBelow(code, group, p, b, 0) == {};
    }
  }

  lemma MismatchesAreCost(code: Code, group: seq<real>, p: nat, b: int)
    requires code.Valid() && p < code.States() && (b == 0 || b == 1) && |group| == |code.taps|
    ensures Mismatches(code, group, Next(code, p, b), p % 2, |group|) as real == Cost(code, group, p, b)
  {
    MismatchesCount(code, group, p, b, Next(code, p, b), |group|);
    assert DisagreeBelow(code, group, p, b, |group|) == Disagree(code, group, p, b);
  }

  /** Two states that lead to the same one differ in the bit that is forgotten. */
  lemma Siblings(code: Code, p0: nat, p1: nat, b: int)
    requires code.Valid() && p0 < p1 < code.States() && (b == 0 || b == 1) && Next(code, p0, b) == Next(code, p1, b)
    ensures p0 % 2 == 0 && p1 == p0 + 1
    ensures InBit(code, Next(code, p0, b)) == b && Prev(code, Next(code, p0, b), 0) == p0 && Prev(code, Next(code, p0, b), 1) == p1
  {
    NextThenPrev(code, p0, b);
    NextThenPrev(code, p1, b);
  }

  /** The metric kept of two transitions: that of the smaller sum, the first if they are equal. */
  function Kept(m0: real, c0: real, m1: real, c1: real, loud: real): real {
    if m0 + c0 <= m1 + c1 then m0 + c0 * loud else m1 + c1 * loud
  }

  lemma SelectKeeps(m0: real, c0: real, m1: real, c1: real, loud: real)
    ensures Select(m0, m1, c0, c1, loud) == Kept(m0, c0, m1, c1, loud)
  {
    assert c0 * loud == loud * c0 && c1 * loud == loud * c1;
  }

  lemma UpdateKeeps(code: Code, group: seq<real>, pm: seq<real>, p0: nat, p1: nat, b: int, s: nat, c0: real, c1: real)
    requires code.Valid() && |pm| == code.States() && |group| == |code.taps|
    requires p0 < p1 < code.States() && (b == 0 || b == 1) && s == Next(code, p0, b) == Next(code, p1, b)
    requires c0 == Cost(code, group, p0, b) && c1 == Cost(code, group, p1, b)
    ensures Update(code, group, pm, s) == Kept(pm[p0], c0, pm[p1], c1, Magnitude(group))
  {
    Siblings(code, p0, p1, b);
    MismatchesAreCost(code, group, p0, b);
    MismatchesAreCost(code, group, p1, b);
    WeightIsMagnitude(group, |group|);
    assert group[..|group|] == group;
    SelectKeeps(pm[p0], c0, pm[p1], c1, Magnitude(group));
  }

  lemma MetricStart(code: Code, y: seq<real>, s: nat)
    requires code.Valid() && s < code.States()
    ensures Metrics(code, y, 0)[s] == 0.0
  {
  }

  /**
  The recurrence of the path metrics. Of the two transitions into a state, the
  one with the smaller sum of metric and disagreeing soft bits is kept, and its
  disagreeing soft bits are charged the magnitude of the whole group.
  */
  lemma MetricStep(code: Code, y: seq<real>, t: nat, p0: nat, p1: nat, b: int)
    requires code.Valid() && (t + 1) * |code.taps| <= |y|
    requires p0 < p1 < code.States() && (b == 0 || b == 1) && Next(code, p0, b) == Next(code, p1, b)
    ensures t * |code.taps| <= |y|
    ensures var pm, group := Metrics(code, y, t), Arith.Group(y, t, |code.taps|);
      Metrics(code, y, t + 1)[Next(code, p0, b)]
      == Kept(pm[p0], Cost(code, group, p0, b), pm[p1], Cost(code, group, p1, b), Magnitude(group))
  {
    GroupRoom(t, t + 1, |code.taps|);
    var group := Arith.Group(y, t, |code.taps|);
    UpdateKeeps(code, group, Metrics(code, y, t), p0, p1, b, Next(code, p0, b), Cost(code, group, p0, b), Cost(code, group, p1, b));
  }

  /** The traceback goes back to the state of smaller metric, to the lower one if they are equal. */
  lemma TraceRule(code: Code, cols: seq<seq<real>>, path: seq<nat>, t: nat, p0: nat, p1: nat, b: int)
    requires IsColumns(code, cols) && IsTrace(code, cols, path) && t + 1 < |path|
    requires p0 < p1 < code.States() && (b == 0 || b == 1) && Next(code, p0, b) == Next(code, p1, b) == path[t + 1]
    ensures path[t] == if cols[t][p0] <= cols[t][p1] then p0 else p1
  {
    Siblings(code, p0, p1, b);
    assert Traces(code, cols, path, t);
  }

  // ------------------------------------------------------------------ a small code

  /** Constraint length 2 with generators 3 and 1: the outputs are the sum of the new bit and the old one, and the old one. */
  predicate Small(code: Code, n: nat) {
    n == 2 && code == Code(n, [[1, 1], [0, 1]])
  }

  lemma SmallTaps(n: nat)
    requires n == 2
    ensures Taps([3, 1], n, n) == [[1, 1], [0, 1]]
  {
    assert Bits(1, n - 1) == Bits(0, n - 2) + [1];
    assert Bits(0, n - 1) == Bits(0, n - 2) + [0];
    assert Bits(3, n) == [1, 1] && Bits(1, n) == [0, 1];
  }

  lemma SmallOutput(code: Code, p: nat, b: int, n: nat)
    requires Small(code, n) && p < 2 && (b == 0 || b == 1)
    ensures code.Valid() && Output(code, p, b, 0) == (b + p) % 2 && Output(code, p, b, 1) == p
  {
    assert Bits(p, n - 1) == Bits(p / 2, n - 2) + [p % 2];
    var reg := [b, p];
    assert reg == [b] + Bits(p, n - 1);
    forall taps: seq<int> | |taps| == n ensures Dot(reg, taps, n) == b * taps[0] + p * taps[1] {
      assert Dot(reg, taps, n - 2) == 0;
      assert Dot(reg, taps, n - 1) == b * taps[0];
    }
  }

  lemma SmallStates(code: Code, n: nat)
    requires Small(code, n)
    ensures code.Valid() && code.States() == n && forall p: nat, b: int :: p < n && 0 <= b < 2 ==> Next(code, p, b) == b
  {
    assert Pow2(n - 2) == 1 && Pow2(n - 1) == 2;
  }

  lemma SmallCost(code: Code, group: seq<real>, p: nat, b: int, n: nat)
    requires Small(code, n) && code.Valid() && |group| == n && p < n && (b == 0 || b == 1)
    ensures Cost(code, group, p, b) ==
      (if (group[0] > 0.0) != (b != p) then 1.0 else 0.0) + (if (group[1] > 0.0) != (p == 1) then 1.0 else 0.0)
  {
    SmallOutput(code, p, b, n);
    OneMore(code, group, p, b, 0);
    OneMore(code, group, p, b, 1);
    assert DisagreeBelow(code, group, p, b, 0) == {};
    assert DisagreeBelow(code, group, p, b, 2) == Disagree(code, group, p, b);
  }

  lemma SmallStep(code: Code, y: seq<real>, t: nat, b: int, n: nat, group: seq<real>, loud: real)
    requires Small(code, n) && code.Valid() && code.States() == n && (t + 1) * n <= |y| && t * n <= |y| && (b == 0 || b == 1)
    requires group == Arith.Group(y, t, n) && loud == Magnitude(group)
    ensures Metrics(code, y, t + 1)[b]
      == Kept(Metrics(code, y, t)[0], Cost(code, group, 0, b), Metrics(code, y, t)[1], Cost(code, group, 1, b), loud)
  {
    SmallStates(code, n);
    MetricStep(code, y, t, 0, 1, b);
  }

  lemma PairMagnitude(a: real, b: real)
    ensures Magnitude([a, b]) == (if a > 0.0 then a else 0.0 - a) + (if b > 0.0 then b else 0.0 - b)
  {
    MagnitudeLast([a], b);
    MagnitudeLast([], a);
    assert [] + [a] == [a] && [a] + [b] == [a, b];
  }

  lemma SmallFirst(code: Code, y: seq<real>, n: nat)
    requires Small(code, n) && code.Valid() && code.States() == n && y == [-1.0, 3.0, -2.0, -3.0]
    ensures Metrics(code, y, 1) == [4.0, 0.0]
  {
    var group := Arith.Group(y, 0, n);
    assert group == [-1.0, 3.0];
    PairMagnitude(-1.0, 3.0);
    forall b: int, p: nat | 0 <= b < 2 && p < n ensures Cost(code, group, p, b) == if b == 0 then 1.0 else if p == 0 then 2.0 else 0.0 {
      SmallCost(code, group, p, b, n);
    }
    SmallStep(code, y, 0, 0, n, group, 4.0);
    SmallStep(code, y, 0, 1, n, group, 4.0);
  }

  lemma SmallSecond(code: Code, y: seq<real>, n: nat)
    requires Small(code, n) && code.Valid() && code.States() == n && y == [-1.0, 3.0, -2.0, -3.0]
    ensures Metrics(code, y, n) == [10.0, 5.0]
  {
    var group := Arith.Group(y, 1, n);
    assert group == [-2.0, -3.0];
    PairMagnitude(-2.0, -3.0);
    forall b: int, p: nat | 0 <= b < 2 && p < n ensures Cost(code, group, p, b) == if b == 1 then 1.0 else if p == 0 then 0.0 else 2.0 {
      SmallCost(code, group, p, b, n);
    }
    SmallFirst(code, y, n);
    SmallStep(code, y, 1, 0, n, group, 5.0);
    SmallStep(code, y, 1, 1, n, group, 5.0);
  }

  lemma SmallPath(code: Code, cols: seq<seq<real>>, path: seq<nat>, u: seq<int>, n: nat)
    requires Small(code, n) && code.Valid() && code.States() == n && IsColumns(code, cols) && |cols| == n + 1
    requires cols[0] == [0.0, 0.0] && cols[1] == [4.0, 0.0] && cols[n] == [10.0, 5.0]
    requires IsTrace(code, cols, path) && IsBest(cols[n], path[n]) && IsPath(code, path, u)
    ensures path == [0, 1, 1] && u == [1, 1]
  {
    SmallStates(code, n);
    assert cols[n][path[n]] <= cols[n][1];
    TraceRule(code, cols, path, 1, 0, 1, 1);
    TraceRule(code, cols, path, 0, 0, 1, 1);
    assert Moves(code, path, u, 0) && Moves(code, path, u, 1);
  }

  /**
  The soft bits -1, 3, -2, -3 lead to the final metrics 10 and 5 and to the bits
  1, 1. In the second step the branch with the smaller sum is not the one with
  the smaller weighted sum. The 2 is a parameter so that it is not unrolled.
  */
  lemma SmallDecoded(code: Code, y: seq<real>, path: seq<nat>, u: seq<int>, n: nat)
    requires n == 2 && code == Code(n, Taps([3, 1], n, n)) && y == [-1.0, 3.0, -2.0, -3.0]
    requires code.Valid() && n * |code.taps| <= |y|
    requires var cols := AllMetrics(code, y, n); IsTrace(code, cols, path) && IsBest(cols[n], path[n]) && IsPath(code, path, u)
    ensures AllMetrics(code, y, n)[n] == [10.0, 5.0] && path == [0, 1, 1] && u == [1, 1]
  {
    SmallTaps(n);
    SmallStates(code, n);
    SmallFirst(code, y, n);
    SmallSecond(code, y, n);
    var cols := AllMetrics(code, y, n);
    assert cols[1] == Metrics(code, y, 1) && cols[n] == Metrics(code, y, n);
    assert cols[0] == [0.0, 0.0];
    SmallPath(code, cols, path, u, n);
  }
}
