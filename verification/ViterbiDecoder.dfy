/** The loops of `viterbi_decode`, proved against module Viterbi. */
module ViterbiDecoder {
  import Arith
  import opened ConvCode
  import opened Trellis
  import opened Viterbi
  import opened ViterbiStart

  // -------------------------------------------------------- the transition table

  lemma TopBitClear(v: nat, m: nat, k: nat)
    requires 0 < k < m
    ensures Bits(v, m)[k] == Bits(v, m - 1)[k - 1]
  {
    BitsAt(v, m, k);
    BitsAt(v, m - 1, k - 1);
  }

  /** The register that goes with a branch. */
  method BranchRegister(prev: nat, inPath: int, m: nat) returns (sReg: array<int>)
    requires m >= 1
    ensures fresh(sReg) && sReg[..] == [inPath] + Bits(prev, m - 1)
  {
    sReg := new int[m];
    var k := 0;
    while k < m
      invariant 0 <= k <= m
      invariant forall i :: 0 <= i < k ==> sReg[i] == Bits(prev, m)[i]
    {
      BitsAt(prev, m, k);
      sReg[k] := (prev / Pow2(m - k - 1)) % 2;
      k := k + 1;
    }
    sReg[0] := inPath;
    forall i | 0 < i < m ensures sReg[i] == ([inPath] + Bits(prev, m - 1))[i] {
      TopBitClear(prev, m, i);
    }
  }

  method BranchOutput(sReg: array<int>, gArray: array2<int>, k: nat, ghost taps: seq<seq<int>>) returns (b: int)
    requires k < gArray.Length0 && gArray.Length1 == sReg.Length && HoldsTaps(gArray, taps)
    ensures b == Parity(sReg[..], taps[k])
  {
    b := 0;
    var o := 0;
    while o < sReg.Length
      invariant 0 <= o <= sReg.Length
      invariant b == Dot(sReg[..], taps[k], o)
    {
      b := b + sReg[o] * gArray[k, o];
      o := o + 1;
    }
    b := b % 2;
  }

  /** The table rows below `n` are filled. */
  ghost predicate HoldsTable(table: array3<int>, code: Code, n: nat)
    reads table
  {
    && code.Valid() && table.Length0 == code.States() && table.Length1 == 2 && table.Length2 == |code.taps| && n <= code.States()
    && forall s: nat, j: nat, o: nat :: s < n && j < 2 && o < |code.taps| ==> table[s, j, o] == TableEntry(code, s, j, o)
  }

  /** The entries of one branch. */
  method FillBranch(table: array3<int>, gArray: array2<int>, code: Code, i: nat, j: nat)
    requires code.Valid() && i < code.States() && j < 2 && HoldsTaps(gArray, code.taps) && gArray.Length1 == code.m
    requires table.Length0 == code.States() && table.Length1 == 2 && table.Length2 == |code.taps|
    modifies table
    ensures forall o: nat :: o < |code.taps| ==> table[i, j, o] == TableEntry(code, i, j, o)
    ensures forall s: nat, l: nat, o: nat :: s < table.Length0 && l < 2 && o < table.Length2 && (s != i || l != j) ==> table[s, l, o] == old(table[s, l, o])
  {
    var ns, rate := code.States(), |code.taps|;
    var inPath := if i < ns / 2 then 0 else 1;
    PrevIsModulo(code, i, j);
    var prev := (2 * i + j) % ns;
    var sReg := BranchRegister(prev, inPath, code.m);
    var k := 0;
    while k < rate
      invariant 0 <= k <= rate && sReg[..] == [inPath] + Bits(prev, code.m - 1) && HoldsTaps(gArray, code.taps)
      invariant forall o: nat :: o < k ==> table[i, j, o] == TableEntry(code, i, j, o)
      invariant forall s: nat, l: nat, o: nat :: s < table.Length0 && l < 2 && o < table.Length2 && (s != i || l != j) ==> table[s, l, o] == old(table[s, l, o])
    {
      var b := BranchOutput(sReg, gArray, k, code.taps);
      table[i, j, k] := b;
      k := k + 1;
    }
  }

  method BuildTable(gArray: array2<int>, code: Code) returns (table: array3<int>)
    requires code.Valid() && HoldsTaps(gArray, code.taps) && gArray.Length1 == code.m
    ensures fresh(table) && HoldsTable(table, code, code.States())
  {
    var ns := code.States();
    table := new int[ns, 2, |code.taps|];
    var i := 0;
    while i < ns
      invariant 0 <= i <= ns && HoldsTable(table, code, i)
    {
      FillBranch(table, gArray, code, i, 0);
      FillBranch(table, gArray, code, i, 1);
      i := i + 1;
    }
  }

  // ----------------------------------------------------------------- path metrics

  /** Branch and weight metrics of one branch. */
  method BranchMetrics(table: array3<int>, y: array<real>, code: Code, t: nat, s: nat, k: nat, ghost group: seq<real>)
    returns (br: nat, w: real)
    requires code.Valid() && HoldsTable(table, code, code.States()) && s < code.States() && k < 2 && (t + 1) * |code.taps| <= y.Length
    requires group == Arith.Group(y[..], t, |code.taps|)
    ensures br == Mismatches(code, group, s, k, |code.taps|) && w == Weight(group, |code.taps|)
  {
    var rate := |code.taps|;
    br, w := 0, 0.0;
    var o := 0;
    while o < rate
      invariant 0 <= o <= rate
      invariant br == Mismatches(code, group, s, k, o) && w == Weight(group, o)
    {
      Arith.GroupAt(y[..], t, rate, o);
      var soft := y[t * rate + o];
      var inBit := if soft <= 0.0 then 0 else 1;
      br := br + (table[s, k, o] + inBit) % 2;
      w := w + Abs(soft);
      o := o + 1;
    }
  }

  /** Column `t` of the metric array holds `col`, for the states below `n`. */
  ghost predicate HoldsColumn(pm: array2<real>, t: nat, col: seq<real>, n: nat)
    requires n <= |col| == pm.Length0 && t < pm.Length1
    reads pm
  {
    forall s: nat :: s < n ==> pm[s, t] == col[s]
  }

  /** One of the two predecessors of a state, with the modulus of the source. */
  method PrevState(code: Code, s: nat, j: nat) returns (p: nat)
    requires code.Valid() && s < code.States() && j < 2
    ensures p == Prev(code, s, j)
  {
    PrevIsModulo(code, s, j);
    p := (2 * s + j) % code.States();
  }

  /** Keeps the branch with the smaller sum, and weights its metric. */
  method SelectMetric(p0: real, p1: real, b0: real, b1: real, w0: real, w1: real) returns (r: real)
    ensures w0 == w1 ==> r == Select(p0, p1, b0, b1, w0)
  {
    var tmp1, tmp2 := b0 + p0, b1 + p1;
    if tmp1 > tmp2 {
      r := p1 + w1 * b1;
    } else {
      r := p0 + w0 * b0;
    }
  }

  /** `col'` follows `col` in one step. */
  ghost predicate Follows(code: Code, group: seq<real>, col: seq<real>, col': seq<real>)
    requires code.Valid() && |col| == |col'| == code.States() && |group| == |code.taps|
  {
    forall s: nat {:trigger Update(code, group, col, s)} :: s < |col'| ==> col'[s] == Update(code, group, col, s)
  }

  /** The new metric of one state. */
  method StateMetric(table: array3<int>, y: array<real>, pm: array2<real>, code: Code, t: nat, s: nat,
                     ghost group: seq<real>, ghost col: seq<real>, ghost col': seq<real>)
    returns (r: real)
    requires code.Valid() && HoldsTable(table, code, code.States()) && s < code.States()
    requires |col| == |col'| == pm.Length0 == code.States() && t < pm.Length1 && HoldsColumn(pm, t, col, |col|)
    requires (t + 1) * |code.taps| <= y.Length && group == Arith.Group(y[..], t, |code.taps|) && Follows(code, group, col, col')
    ensures r == col'[s]
  {
    var prev0 := PrevState(code, s, 0);
    var prev1 := PrevState(code, s, 1);
    var b0, w0 := BranchMetrics(table, y, code, t, s, 0, group);
    var b1, w1 := BranchMetrics(table, y, code, t, s, 1, group);
    r := SelectMetric(pm[prev0, t], pm[prev1, t], b0 as real, b1 as real, w0, w1);
    assert pm[prev0, t] == col[Prev(code, s, 0)] && pm[prev1, t] == col[Prev(code, s, 1)];
    assert r == Update(code, group, col, s);
  }

  /** One step of all states. */
  method StepMetrics(table: array3<int>, y: array<real>, pm: array2<real>, code: Code, t: nat,
                     ghost group: seq<real>, ghost col: seq<real>, ghost col': seq<real>)
    requires code.Valid() && HoldsTable(table, code, code.States())
    requires |col| == |col'| == pm.Length0 == code.States() && t + 1 < pm.Length1 && HoldsColumn(pm, t, col, |col|)
    requires (t + 1) * |code.taps| <= y.Length && group == Arith.Group(y[..], t, |code.taps|) && Follows(code, group, col, col')
    modifies pm
    ensures HoldsColumn(pm, t + 1, col', |col'|)
    ensures forall s, t' :: 0 <= s < pm.Length0 && 0 <= t' <= t ==> pm[s, t'] == old(pm[s, t'])
  {
    var j := 0;
    while j < code.States()
      invariant 0 <= j <= code.States()
      invariant HoldsColumn(pm, t, col, |col|) && HoldsColumn(pm, t + 1, col', j)
      invariant forall s, t' :: 0 <= s < pm.Length0 && 0 <= t' <= t ==> pm[s, t'] == old(pm[s, t'])
    {
      var r := StateMetric(table, y, pm, code, t, j, group, col, col');
      pm[j, t + 1] := r;
      j := j + 1;
    }
  }

  lemma MetricsNext(code: Code, y: seq<real>, t: nat)
    requires code.Valid() && t * |code.taps| <= |y| && (t + 1) * |code.taps| <= |y|
    ensures Follows(code, Arith.Group(y, t, |code.taps|), Metrics(code, y, t), Metrics(code, y, t + 1))
  {
  }

  /** All columns up to `t` hold their metrics. */
  ghost predicate HoldsMetrics(pm: array2<real>, cols: seq<seq<real>>, t: nat)
    requires t < pm.Length1 && t < |cols| && forall i :: 0 <= i < |cols| ==> |cols[i]| == pm.Length0
    reads pm
  {
    forall i: nat :: i <= t ==> HoldsColumn(pm, i, cols[i], pm.Length0)
  }

  lemma ColumnsFollow(code: Code, y: seq<real>, steps: nat, t: nat)
    requires code.Valid() && steps * |code.taps| <= |y| && t < steps
    ensures (t + 1) * |code.taps| <= |y|
    ensures var cols := AllMetrics(code, y, steps); Follows(code, Arith.Group(y, t, |code.taps|), cols[t], cols[t + 1])
  {
    GroupRoom(t, steps, |code.taps|);
    MetricsNext(code, y, t);
    assert AllMetrics(code, y, steps)[t] == Metrics(code, y, t);
    assert AllMetrics(code, y, steps)[t + 1] == Metrics(code, y, t + 1);
  }

  lemma FirstColumn(code: Code, y: seq<real>, steps: nat)
    requires code.Valid() && steps * |code.taps| <= |y|
    ensures forall s :: 0 <= s < code.States() ==> AllMetrics(code, y, steps)[0][s] == 0.0
  {
  }

  method PathMetrics(table: array3<int>, y: array<real>, code: Code, steps: nat, ghost cols: seq<seq<real>>) returns (pm: array2<real>)
    requires code.Valid() && HoldsTable(table, code, code.States()) && steps * |code.taps| <= y.Length
    requires cols == AllMetrics(code, y[..], steps)
    ensures fresh(pm) && pm.Length0 == code.States() && pm.Length1 == steps + 1 && HoldsMetrics(pm, cols, steps)
  {
    pm := new real[code.States(), steps + 1] ((s, t) => 0.0);
    FirstColumn(code, y[..], steps);
    var i := 0;
    while i < steps
      invariant 0 <= i <= steps
      invariant HoldsMetrics(pm, cols, i)
    {
      ColumnsFollow(code, y[..], steps, i);
      StepMetrics(table, y, pm, code, i, Arith.Group(y[..], i, |code.taps|), cols[i], cols[i + 1]);
      i := i + 1;
    }
  }

  // ------------------------------------------------------- traceback and read-out

  /** The first `n` states of the traceback ascend. */
  predicate Ascending(tb: seq<nat>, n: nat)
    requires n <= |tb|
  {
    forall i, j :: 0 <= i < j < n ==> tb[i] < tb[j]
  }

  /** Looks for the smallest final metric; every new minimum is recorded. Nothing is found if all metrics reach the bound. */
  method FindStart(pm: array2<real>, steps: nat, tb: array<nat>, ghost col: seq<real>) returns (idx: nat)
    requires |col| == pm.Length0 && steps < pm.Length1 && HoldsColumn(pm, steps, col, |col|) && 0 < |col| <= tb.Length
    modifies tb
    ensures idx == Records(col, |col|) && (idx > 0 <==> HasStart(col))
    ensures idx > 0 ==> IsBest(col, tb[idx - 1])
    ensures idx <= tb.Length && Ascending(tb[..], idx)
  {
    var initMin := 1000000.0;
    idx := 0;
    tb[0] := 1000000;
    var i := 0;
    while i < pm.Length0
      invariant 0 <= i <= pm.Length0 && idx == Records(col, i) && initMin == RunningMin(col, i)
      invariant forall s :: 0 <= s < i ==> initMin <= col[s] && (idx > 0 && s < tb[idx - 1] ==> initMin < col[s])
      invariant Ascending(tb[..], idx) && forall r :: 0 <= r < idx ==> tb[r] < i
      invariant idx == 0 ==> initMin == 1000000.0
      invariant idx > 0 ==> tb[idx - 1] < i && initMin == col[tb[idx - 1]] < 1000000.0
    {
      if pm[i, steps] < initMin {
        initMin := pm[i, steps];
        tb[idx] := i;
        idx := idx + 1;
      }
      i := i + 1;
    }
  }

  /** Entry `i` of the traceback is the better predecessor, at its time, of the entry before it. */
  ghost predicate TracedTo(code: Code, cols: seq<seq<real>>, tb: seq<nat>, first: nat, idx: nat)
    requires IsColumns(code, cols)
  {
    && 0 < first <= idx < first + |cols| && idx <= |tb|
    && (forall i :: first - 1 <= i < idx ==> tb[i] < code.States())
    && forall i: nat :: first <= i < idx ==> Linked(code, cols, tb, first, i)
  }

  ghost predicate Linked(code: Code, cols: seq<seq<real>>, tb: seq<nat>, first: nat, i: nat)
    requires IsColumns(code, cols) && 0 < first <= i < |tb| && i < first + |cols| - 1 && tb[i - 1] < code.States()
  {
    tb[i] == BestPrev(code, cols[first + |cols| - 2 - i], tb[i - 1])
  }

  lemma TracedStep(code: Code, cols: seq<seq<real>>, tb: seq<nat>, first: nat, idx: nat, p: nat)
    requires IsColumns(code, cols) && TracedTo(code, cols, tb, first, idx) && idx < |tb| && idx + 1 < first + |cols|
    requires p == BestPrev(code, cols[first + |cols| - 2 - idx], tb[idx - 1])
    ensures TracedTo(code, cols, tb[idx := p], first, idx + 1)
  {
    var tb' := tb[idx := p];
    forall i: nat | first <= i < idx ensures Linked(code, cols, tb', first, i) {
      assert Linked(code, cols, tb, first, i);
    }
  }

  /** The last `steps + 1` entries of the traceback in the order of time. */
  function InTime(tb: seq<nat>, len: nat, steps: nat): (path: seq<nat>)
    requires steps < len <= |tb|
    ensures |path| == steps + 1
  {
    seq(steps + 1, t requires 0 <= t <= steps => tb[len - 1 - t])
  }

  lemma TracedInTime(code: Code, cols: seq<seq<real>>, tb: seq<nat>, first: nat, steps: nat)
    requires IsColumns(code, cols) && |cols| == steps + 1 && first + steps <= |tb|
    requires TracedTo(code, cols, tb, first, first + steps)
    ensures IsTrace(code, cols, InTime(tb, first + steps, steps))
  {
    var path, len := InTime(tb, first + steps, steps), first + steps;
    forall t: nat | t < steps ensures Traces(code, cols, path, t) {
      assert Linked(code, cols, tb, first, len - 1 - t);
    }
  }

  method BackStep(pm: array2<real>, code: Code, i: nat, s: nat, ghost col: seq<real>) returns (p: nat)
    requires code.Valid() && s < code.States() && |col| == pm.Length0 == code.States() && i < pm.Length1 && HoldsColumn(pm, i, col, |col|)
    ensures p == BestPrev(code, col, s)
  {
    var prev0 := PrevState(code, s, 0);
    var prev1 := PrevState(code, s, 1);
    if pm[prev0, i] > pm[prev1, i] {
      p := prev1;
    } else {
      p := prev0;
    }
  }

  method Traceback(pm: array2<real>, code: Code, ghost cols: seq<seq<real>>, steps: nat, tb: array<nat>, first: nat) returns (idx: nat)
    requires IsColumns(code, cols) && |cols| == steps + 1 == pm.Length1 && pm.Length0 == code.States()
    requires HoldsMetrics(pm, cols, steps)
    requires 0 < first && first + steps <= tb.Length && tb[first - 1] < code.States()
    modifies tb
    ensures idx == first + steps && tb[..first] == old(tb[..first])
    ensures IsTrace(code, cols, InTime(tb[..], idx, steps))
  {
    idx := first;
    var i := steps;
    while i > 0
      invariant 0 <= i <= steps && idx == first + steps - i && tb[..first] == old(tb[..first])
      invariant TracedTo(code, cols, tb[..], first, idx)
    {
      i := i - 1;
      var p := BackStep(pm, code, i, tb[idx - 1], cols[i]);
      ghost var before := tb[..];
      TracedStep(code, cols, before, first, idx, p);
      tb[idx] := p;
      assert tb[..] == before[idx := p];
      idx := idx + 1;
    }
    TracedInTime(code, cols, tb[..], first, steps);
  }

  /** The first `nc` bits of `c` are those of the transitions, oldest first. */
  ghost predicate ReadFrom(tb: seq<nat>, len: nat, c: seq<int>, nc: nat)
    requires nc < len <= |tb| && nc <= |c|
  {
    forall t :: 0 <= t < nc ==> c[t] == ReadBit(tb[len - 1 - t], tb[len - 2 - t])
  }

  /** Reads the bits along the traceback, oldest transition first. */
  method ReadOut(tb: array<nat>, len: nat, c: array<int>) returns (nc: nat)
    requires 0 < len <= tb.Length && len - 1 <= c.Length
    modifies c
    ensures nc == len - 1 && ReadFrom(tb[..], len, c[..], nc)
  {
    nc := 0;
    var i := len - 2;
    while i >= 0
      invariant -1 <= i <= len - 2 && nc == len - 2 - i
      invariant ReadFrom(tb[..], len, c[..], nc)
    {
      if tb[i] < tb[i + 1] {
        c[nc] := 0;
      } else if tb[i] > tb[i + 1] {
        c[nc] := 1;
      } else if tb[i] == 0 {
        c[nc] := 0;
      } else {
        c[nc] := 1;
      }
      nc := nc + 1;
      i := i - 1;
    }
  }

  lemma ReadInTime(tb: seq<nat>, len: nat, steps: nat, c: seq<int>)
    requires steps < len <= |tb| && len - 1 <= |c| && ReadFrom(tb, len, c, len - 1)
    ensures c[..steps] == ReadBits(InTime(tb, len, steps))
  {
  }

  /** Every bit beyond those of the steps is zero. */
  ghost predicate SurplusClear(c: seq<int>, steps: nat, nc: nat)
    requires nc <= |c|
  {
    forall t :: steps <= t < nc ==> c[t] == 0
  }

  lemma SurplusReadsZero(tb: seq<nat>, first: nat, steps: nat, c: seq<int>)
    requires 0 < first && first + steps <= |tb| && first + steps - 1 <= |c| && Ascending(tb, first)
    requires ReadFrom(tb, first + steps, c, first + steps - 1)
    ensures SurplusClear(c, steps, first + steps - 1)
  {
  }

  /** What the traceback and the read-out leave behind. */
  ghost predicate Decoded(code: Code, cols: seq<seq<real>>, path: seq<nat>, c: seq<int>)
    requires IsColumns(code, cols)
  {
    IsTrace(code, cols, path) && IsBest(cols[|cols| - 1], path[|cols| - 1]) && IsPath(code, path, c)
  }

  lemma PathRead(code: Code, cols: seq<seq<real>>, path: seq<nat>, u: seq<int>)
    requires IsColumns(code, cols) && IsTrace(code, cols, path) && u == ReadBits(path)
    requires IsBest(cols[|cols| - 1], path[|cols| - 1])
    ensures Decoded(code, cols, path, u)
  {
    TraceIsPath(code, cols, path);
  }

  lemma StillAscending(before: seq<nat>, after: seq<nat>, n: nat)
    requires |before| == n <= |after| && Ascending(before, n) && after[..n] == before
    ensures Ascending(after, n)
  {
    assert forall i :: 0 <= i < n ==> after[i] == before[i];
  }

  method TraceAndRead(pm: array2<real>, code: Code, ghost cols: seq<seq<real>>, steps: nat, tb: array<nat>,
                      first: nat, c: array<int>) returns (nc: nat)
    requires IsColumns(code, cols) && |cols| == steps + 1 == pm.Length1 && pm.Length0 == code.States()
    requires HoldsMetrics(pm, cols, steps)
    requires 0 < first && first + steps <= tb.Length <= c.Length && IsBest(cols[steps], tb[first - 1])
    requires Ascending(tb[..], first)
    modifies tb, c
    ensures nc == first + steps - 1 && SurplusClear(c[..], steps, nc)
    ensures Decoded(code, cols, InTime(tb[..], nc + 1, steps), c[..steps])
  {
    ghost var recorded := tb[..first];
    var len := Traceback(pm, code, cols, steps, tb, first);
    assert tb[first - 1] == recorded[first - 1];
    StillAscending(recorded, tb[..], first);
    nc := ReadOut(tb, len, c);
    ReadInTime(tb[..], len, steps, c[..]);
    PathRead(code, cols, InTime(tb[..], len, steps), c[..][..steps]);
    SurplusReadsZero(tb[..], first, steps, c[..]);
    assert c[..][..steps] == c[..steps];
  }

  /** The search for the start, the traceback and the read-out. */
  method ReadPath(pm: array2<real>, code: Code, ghost cols: seq<seq<real>>, steps: nat, tb: array<nat>, c: array<int>)
    returns (ok: bool, nc: nat)
    requires IsColumns(code, cols) && |cols| == steps + 1 == pm.Length1 && pm.Length0 == code.States()
    requires HoldsMetrics(pm, cols, steps) && code.States() + steps <= tb.Length <= c.Length
    modifies tb, c
    ensures ok <==> HasStart(cols[steps])
    ensures ok ==> nc == steps + Records(cols[steps], |cols[steps]|) - 1 && steps <= nc < tb.Length && SurplusClear(c[..], steps, nc)
    ensures ok ==> Decoded(code, cols, InTime(tb[..], nc + 1, steps), c[..steps])
  {
    var first := FindStart(pm, steps, tb, cols[steps]);
    ok := first > 0;
    nc := 0;
    if ok {
      nc := TraceAndRead(pm, code, cols, steps, tb, first, c);
    }
  }

  /** The decoder for a whole number of steps. */
  method DecodeSteps(y: array<real>, steps: nat, m: nat, rate: nat, g: seq<nat>, tb: array<nat>, c: array<int>, code: Code)
    returns (ok: bool, nc: nat)
    requires 2 <= m && 0 < rate <= |g| && steps * rate <= y.Length && code == Code(m, Taps(g, rate, m))
    requires code.States() + steps <= tb.Length <= c.Length
    modifies tb, c
    ensures var col := AllMetrics(code, y[..], steps)[steps];
      (ok <==> HasStart(col)) && (ok ==> nc == steps + Records(col, |col|) - 1)
    ensures ok ==> steps <= nc < tb.Length && SurplusClear(c[..], steps, nc)
    ensures ok ==> Decoded(code, AllMetrics(code, y[..], steps), InTime(tb[..], nc + 1, steps), c[..steps])
  {
    ghost var cols := AllMetrics(code, y[..], steps);
    var gArray := BuildTaps(g, rate, m);
    var table := BuildTable(gArray, code);
    var pm := PathMetrics(table, y, code, steps, cols);
    ok, nc := ReadPath(pm, code, cols, steps, tb, c);
  }

  /**
  `viterbi_decode`. It has a state to start the traceback from exactly if some
  final metric is below the bound of the search. The first `steps` decoded bits
  then drive the encoder along the traced states; one more bit, a zero, is given
  out for every further minimum that the search recorded.
  */
  method Decode(y: array<real>, nd: nat, m: nat, rate: nat, g: seq<nat>, tb: array<nat>, c: array<int>) returns (ok: bool, nc: nat)
    requires 2 <= m <= 8 && 0 < rate <= |g| && nd <= y.Length
    requires Pow2(m - 1) + nd / rate <= tb.Length && tb.Length <= c.Length
    modifies tb, c
    ensures (nd / rate) * rate <= nd
    ensures var col := AllMetrics(Code(m, Taps(g, rate, m)), y[..], nd / rate)[nd / rate];
      (ok <==> HasStart(col)) && (ok ==> nc == nd / rate + Records(col, |col|) - 1)
    ensures ok ==> nd / rate <= nc < tb.Length && SurplusClear(c[..], nd / rate, nc)
    ensures ok ==> var code := Code(m, Taps(g, rate, m));
      Decoded(code, AllMetrics(code, y[..], nd / rate), InTime(tb[..], nc + 1, nd / rate), c[..nd / rate])
  {
    Arith.DivMod(nd, rate);
    ok, nc := DecodeSteps(y, nd / rate, m, rate, g, tb, c, Code(m, Taps(g, rate, m)));
  }
}
