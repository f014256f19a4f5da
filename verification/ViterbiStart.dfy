/**
When the traceback of modrep_osld/gen_viterbi/src/viterbi_decoder.c has a state
to start from, and how many states its search records.
*/
module ViterbiStart {
  import Arith
  import opened ConvCode
  import opened Trellis
  import opened Viterbi

  /** Some final metric is below the bound that the search for the smallest one starts from. */
  ghost predicate HasStart(col: seq<real>) {
    exists s :: 0 <= s < |col| && col[s] < 1000000.0
  }

  /** The smallest of the first `n` metrics, or the bound. */
  function RunningMin(col: seq<real>, n: nat): (r: real)
    requires n <= |col|
    ensures r <= 1000000.0
  {
    if n == 0 then 1000000.0 else
      var least := RunningMin(col, n - 1);
      if col[n - 1] < least then col[n - 1] else least
  }

  /** How many of the first `n` metrics are smaller than all before them and than the bound. */
  function Records(col: seq<real>, n: nat): (r: nat)
    requires n <= |col|
    ensures r <= n
  {
    if n == 0 then 0 else Records(col, n - 1) + if col[n - 1] < RunningMin(col, n - 1) then 1 else 0
  }

  lemma {:induction false} BelowRunningMin(col: seq<real>, n: nat, x: real)
    requires n <= |col|
    ensures x < RunningMin(col, n) <==> x < 1000000.0 && forall i :: 0 <= i < n ==> x < col[i]
  {
    if n > 0 {
      BelowRunningMin(col, n - 1, x);
    }
  }

  /** The metric of `s` is smaller than the bound and than that of every state before it. */
  ghost predicate IsRecord(col: seq<real>, s: nat) {
    s < |col| && col[s] < 1000000.0 && forall i :: 0 <= i < s ==> col[s] < col[i]
  }

  ghost function RecordStates(col: seq<real>, n: nat): set<nat> {
    set s: nat | s < n && IsRecord(col, s)
  }

  lemma RecordStatesStep(col: seq<real>, n: nat)
    requires n < |col|
    ensures |RecordStates(col, n + 1)| == |RecordStates(col, n)| + if IsRecord(col, n) then 1 else 0
  {
    var more: set<nat> := if IsRecord(col, n) then {n} else {};
    assert RecordStates(col, n + 1) == RecordStates(col, n) + more;
  }

  /** The search records exactly those states. */
  lemma {:induction false} RecordsCount(col: seq<real>, n: nat)
    requires n <= |col|
    ensures Records(col, n) == |RecordStates(col, n)|
  {
    if n == 0 {
      assert RecordStates(col, 0) == {};
    } else {
      RecordsCount(col, n - 1);
      BelowRunningMin(col, n - 1, col[n - 1]);
      RecordStatesStep(col, n - 1);
    }
  }

  /** `s` is the first state below the bound, and no later one is smaller. */
  predicate IsFirstAndBest(col: seq<real>, n: nat, s: nat)
    requires n <= |col|
  {
    && s < n && col[s] < 1000000.0
    && (forall i :: 0 <= i < s ==> col[i] >= 1000000.0)
    && forall i :: s < i < n ==> col[i] >= col[s]
  }

  lemma {:induction false} NoRecord(col: seq<real>, n: nat)
    requires n <= |col|
    ensures Records(col, n) == 0 <==> forall i :: 0 <= i < n ==> col[i] >= 1000000.0
    ensures Records(col, n) == 0 ==> RunningMin(col, n) == 1000000.0
  {
    if n > 0 {
      NoRecord(col, n - 1);
    }
  }

  lemma {:induction false} OneRecord(col: seq<real>, n: nat, s: nat)
    requires s < n <= |col| && IsFirstAndBest(col, n, s)
    ensures Records(col, n) == 1 && RunningMin(col, n) == col[s]
  {
    NoRecord(col, n - 1);
    if s < n - 1 {
      OneRecord(col, n - 1, s);
    }
  }

  lemma {:induction false} RecordHolder(col: seq<real>, n: nat) returns (s: nat)
    requires n <= |col| && Records(col, n) == 1
    ensures IsFirstAndBest(col, n, s) && RunningMin(col, n) == col[s]
  {
    NoRecord(col, n - 1);
    if Records(col, n - 1) == 0 {
      s := n - 1;
    } else {
      s := RecordHolder(col, n - 1);
    }
  }

  /** Exactly one minimum is recorded exactly if the first state below the bound has the smallest metric. */
  lemma SingleRecordIff(col: seq<real>)
    ensures Records(col, |col|) == 1 <==> exists s: nat :: IsFirstAndBest(col, |col|, s)
  {
    if Records(col, |col|) == 1 {
      var s := RecordHolder(col, |col|);
    } else if s: nat :| IsFirstAndBest(col, |col|, s) {
      OneRecord(col, |col|, s);
    }
  }

  lemma {:induction false} WeightBehind(y: seq<real>, at: nat, group: seq<real>, n: nat)
    requires at + |group| <= |y| && group == y[at..at + |group|] && n <= |group|
    ensures Weight(y, at + n) == Weight(y, at) + Weight(group, n)
  {
    if n > 0 {
      WeightBehind(y, at, group, n - 1);
      assert group[n - 1] == y[at + n - 1];
    }
  }

  lemma {:induction false} MismatchesBound(code: Code, group: seq<real>, s: nat, j: nat, n: nat)
    requires code.Valid() && s < code.States() && j < 2 && n <= |code.taps| == |group|
    ensures Mismatches(code, group, s, j, n) <= n
  {
    if n > 0 {
      MismatchesBound(code, group, s, j, n - 1);
    }
  }

  lemma ProductBound(w: real, b: real, rate: real)
    requires w >= 0.0 && 0.0 <= b <= rate
    ensures w * b <= w * rate
  {
    assert w * (rate - b) >= 0.0;
    assert w * (rate - b) == w * rate - w * b;
  }

  /** The most that one step can add to a metric. */
  function Charge(w: real, rate: nat): real {
    w * rate as real
  }

  lemma SelectBound(p0: real, p1: real, b0: nat, b1: nat, w: real, bound: real, rate: nat)
    requires p0 <= bound && p1 <= bound && b0 <= rate && b1 <= rate && w >= 0.0
    ensures Select(p0, p1, b0 as real, b1 as real, w) <= bound + Charge(w, rate)
  {
    ProductBound(w, b0 as real, rate as real);
    ProductBound(w, b1 as real, rate as real);
  }

  /** The rate times the magnitudes of the first `t` groups of soft bits. */
  function Budget(y: seq<real>, rate: nat, t: nat): real
    requires t * rate <= |y|
  {
    if t == 0 then 0.0 else
      GroupRoom(t - 1, t, rate);
      Budget(y, rate, t - 1) + Charge(Weight(Arith.Group(y, t - 1, rate), rate), rate)
  }

  lemma ChargeSum(a: real, w: real, rate: nat)
    ensures Charge(a + w, rate) == Charge(a, rate) + Charge(w, rate)
  {
    var r := rate as real;
    assert (a + w) * r == a * r + w * r;
  }

  lemma GroupMagnitude(y: seq<real>, rate: nat, t: nat)
    requires t * rate <= |y| && (t + 1) * rate <= |y|
    ensures Weight(y, (t + 1) * rate) == Weight(y, t * rate) + Weight(Arith.Group(y, t, rate), rate)
  {
    assert (t + 1) * rate == t * rate + rate;
    WeightBehind(y, t * rate, Arith.Group(y, t, rate), rate);
  }

  /** The budget is the rate times the sum of the magnitudes. */
  lemma {:induction false} BudgetIsSum(y: seq<real>, rate: nat, t: nat)
    requires t * rate <= |y|
    ensures Budget(y, rate, t) == Charge(Weight(y, t * rate), rate)
  {
    if t > 0 {
      GroupRoom(t - 1, t, rate);
      BudgetIsSum(y, rate, t - 1);
      GroupMagnitude(y, rate, t - 1);
      ChargeSum(Weight(y, (t - 1) * rate), Weight(Arith.Group(y, t - 1, rate), rate), rate);
    }
  }

  ghost predicate AllBelow(pm: seq<real>, bound: real) {
    forall i :: 0 <= i < |pm| ==> pm[i] <= bound
  }

  lemma UpdateBound(code: Code, group: seq<real>, pm: seq<real>, s: nat, bound: real, rate: nat)
    requires code.Valid() && |pm| == code.States() && s < code.States() && |group| == |code.taps| == rate && AllBelow(pm, bound)
    ensures Update(code, group, pm, s) <= bound + Charge(Weight(group, rate), rate)
  {
    MismatchesBound(code, group, s, 0, rate);
    MismatchesBound(code, group, s, 1, rate);
    SelectBound(pm[Prev(code, s, 0)], pm[Prev(code, s, 1)],
      Mismatches(code, group, s, 0, rate), Mismatches(code, group, s, 1, rate), Weight(group, rate), bound, rate);
  }

  lemma StepBound(code: Code, y: seq<real>, t: nat, s: nat, bound: real)
    requires code.Valid() && t * |code.taps| <= |y| && (t + 1) * |code.taps| <= |y| && s < code.States()
    requires AllBelow(Metrics(code, y, t), bound)
    ensures Metrics(code, y, t + 1)[s] <= bound + Charge(Weight(Arith.Group(y, t, |code.taps|), |code.taps|), |code.taps|)
  {
    UpdateBound(code, Arith.Group(y, t, |code.taps|), Metrics(code, y, t), s, bound, |code.taps|);
  }

  lemma ColumnBound(code: Code, y: seq<real>, t: nat, bound: real)
    requires code.Valid() && t * |code.taps| <= |y| && (t + 1) * |code.taps| <= |y| && AllBelow(Metrics(code, y, t), bound)
    ensures AllBelow(Metrics(code, y, t + 1), bound + Charge(Weight(Arith.Group(y, t, |code.taps|), |code.taps|), |code.taps|))
  {
    var next, more := Metrics(code, y, t + 1), bound + Charge(Weight(Arith.Group(y, t, |code.taps|), |code.taps|), |code.taps|);
    forall s: nat | s < |next| ensures next[s] <= more {
      StepBound(code, y, t, s, bound);
    }
  }

  /** No metric exceeds the budget. */
  lemma {:induction false} MetricsWithinBudget(code: Code, y: seq<real>, t: nat)
    requires code.Valid() && t * |code.taps| <= |y|
    ensures AllBelow(Metrics(code, y, t), Budget(y, |code.taps|, t))
  {
    if t > 0 {
      GroupRoom(t - 1, t, |code.taps|);
      MetricsWithinBudget(code, y, t - 1);
      ColumnBound(code, y, t - 1, Budget(y, |code.taps|, t - 1));
    }
  }

  lemma BelowStarts(col: seq<real>, bound: real)
    requires |col| > 0 && AllBelow(col, bound) && bound < 1000000.0
    ensures HasStart(col)
  {
    assert col[0] < 1000000.0;
  }

  lemma LastColumn(code: Code, y: seq<real>, steps: nat)
    requires code.Valid() && steps * |code.taps| <= |y|
    ensures AllMetrics(code, y, steps)[steps] == Metrics(code, y, steps)
  {
  }

  /** A traceback starts if the sum of the soft bits' magnitudes, times the rate, is below the bound. */
  lemma ModerateInputStarts(code: Code, y: seq<real>, steps: nat)
    requires code.Valid() && steps * |code.taps| <= |y| && Charge(Weight(y, steps * |code.taps|), |code.taps|) < 1000000.0
    ensures HasStart(AllMetrics(code, y, steps)[steps])
  {
    BudgetIsSum(y, |code.taps|, steps);
    MetricsWithinBudget(code, y, steps);
    LastColumn(code, y, steps);
    BelowStarts(Metrics(code, y, steps), Budget(y, |code.taps|, steps));
  }

  /** A traceback always starts on sign-correct input, whatever its magnitudes. */
  lemma FaithfulStarts(code: Code, y: seq<real>, x: seq<int>, tail: bool)
    requires code.Valid() && (tail ==> code.m <= |x|) && IsBits(x) && Faithful(code, y, x, tail)
    ensures HasStart(AllMetrics(code, y, |x|)[|x|])
  {
    EncoderPathIsFree(code, y, x, tail, |x|);
    assert Metrics(code, y, |x|)[EncoderState(code, x, tail, |x|)] < 1000000.0;
  }

  /** A code whose two outputs are equal: hard bits 1 and 0 mismatch once on every branch. */
  lemma EqualOutputsMismatch(code: Code, group: seq<real>, s: nat, j: nat, n: nat)
    requires code.Valid() && |code.taps| == n == 2 && code.taps[0] == code.taps[1] && s < code.States() && j < 2
    requires |group| == n && group[0] > 0.0 && group[1] <= 0.0
    ensures Mismatches(code, group, s, j, n) == 1
  {
    assert TableEntry(code, s, j, n - 1) == TableEntry(code, s, j, n - 2);
    assert Mismatches(code, group, s, j, n - 2) == 0;
    assert Mismatches(code, group, s, j, n - 1) == (TableEntry(code, s, j, 0) + 1) % 2;
  }

  /**
  With generators 3 and 3 at constraint length 2, the soft bits 999999 and -1
  leave no state to start from. The 2 is a parameter so that it is not unrolled.
  */
  lemma NoStart(code: Code, y: seq<real>, n: nat)
    requires n == 2 && code == Code(n, Taps([3, 3], n, n)) && y == [999999.0, -1.0]
    ensures 1 * |code.taps| <= |y| && !HasStart(AllMetrics(code, y, 1)[1])
  {
    var group, pm := Arith.Group(y, 0, n), Metrics(code, y, 0);
    assert group == y;
    assert Weight(group, n - 1) == 999999.0 && Weight(group, n) == 1000000.0;
    forall s: nat | s < code.States() ensures Metrics(code, y, 1)[s] >= 1000000.0 {
      EqualOutputsMismatch(code, group, s, 0, n);
      EqualOutputsMismatch(code, group, s, 1, n);
      assert pm[Prev(code, s, 0)] == 0.0 && pm[Prev(code, s, 1)] == 0.0;
      assert Metrics(code, y, 1)[s] == Update(code, group, pm, s);
    }
  }

  lemma BitPairs(n: nat)
    requires n == 2
    ensures Bits(2, n) == [1, 0]
  {
    assert Bits(1, n - 1) == Bits(0, n - 2) + [1];
  }

  /** With the one generator 2 at constraint length 2, the output is the input bit. */
  lemma PlainOutput(code: Code, s: nat, b: int, n: nat)
    requires n == 2 && code == Code(n, [[1, 0]]) && (b == 0 || b == 1)
    ensures code.Valid() && Output(code, s, b, 0) == b
  {
    var reg, taps := [b] + Bits(s, n - 1), [1, 0];
    assert Dot(reg, taps, n - 2) == 0;
    assert Dot(reg, taps, n - 1) == b;
    assert Dot(reg, taps, n) == b;
  }

  lemma PlainMismatch(code: Code, group: seq<real>, s: nat, j: nat, n: nat)
    requires n == 2 && code == Code(n, [[1, 0]]) && code.Valid() && s < code.States() && j < 2 && group == [1.0]
    ensures Mismatches(code, group, s, j, n - 1) == 1 - InBit(code, s)
  {
    PlainOutput(code, Prev(code, s, j), InBit(code, s), n);
    assert Mismatches(code, group, s, j, n - 2) == 0;
  }

  lemma PlainMetric(code: Code, y: seq<real>, s: nat, n: nat)
    requires n == 2 && code == Code(n, [[1, 0]]) && y == [1.0] && code.Valid() && s < code.States()
    ensures 1 * |code.taps| <= |y| && Metrics(code, y, 1)[s] == 1.0 - InBit(code, s) as real
  {
    var group, pm := Arith.Group(y, 0, n - 1), Metrics(code, y, 0);
    assert group == y;
    assert Weight(group, n - 2) == 0.0 && Weight(group, n - 1) == 1.0;
    PlainMismatch(code, group, s, 0, n);
    PlainMismatch(code, group, s, 1, n);
    assert pm[Prev(code, s, 0)] == 0.0 && pm[Prev(code, s, 1)] == 0.0;
    assert Metrics(code, y, 1)[s] == Update(code, group, pm, s);
  }

  /** One step with the soft bit 1 and the generator 2 records two states, so two bits are given out. */
  lemma SurplusBit(code: Code, y: seq<real>, n: nat)
    requires n == 2 && code == Code(n, Taps([2], 1, n)) && y == [1.0]
    ensures 1 * |code.taps| <= |y| && Records(AllMetrics(code, y, 1)[1], n) == n
  {
    BitPairs(n);
    assert code.taps == [[1, 0]];
    PlainMetric(code, y, 0, n);
    PlainMetric(code, y, 1, n);
    var col := AllMetrics(code, y, 1)[1];
    assert col[0] == 1.0 && col[1] == 0.0;
    assert RunningMin(col, n - 2) == 1000000.0;
    assert Records(col, n - 1) == 1 && RunningMin(col, n - 1) == 1.0;
  }
}
