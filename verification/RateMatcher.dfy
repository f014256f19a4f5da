/**
The loops of the control rate matcher, transmitter and receiver, proved to
compute what module RateMatching says about them.
*/
module RateMatcher {
  import Arith
  import opened RateMatching

  // ------------------------------------------------------------ the transmitter

  /** Splits the input into its three interlaced streams. */
  method CharUnwrap(input: array<int>, out0: array<int>, out1: array<int>, out2: array<int>, inL: nat) returns (k: nat)
    requires inL <= input.Length
    requires inL / 3 <= out0.Length && inL / 3 <= out1.Length && inL / 3 <= out2.Length
    requires out0 != out1 && out0 != out2 && out1 != out2 && input != out0 && input != out1 && input != out2
    modifies out0, out1, out2
    ensures k == inL / 3
    ensures out0[..k] == Stream(input[..3 * k], k, 0)
    ensures out1[..k] == Stream(input[..3 * k], k, 1)
    ensures out2[..k] == Stream(input[..3 * k], k, 2)
  {
    k := inL / 3;
    var i := 0;
    while i < k
      invariant 0 <= i <= k
      invariant forall j :: 0 <= j < i ==> out0[j] == input[3 * j] && out1[j] == input[3 * j + 1] && out2[j] == input[3 * j + 2]
    {
      out0[i] := input[3 * i];
      out1[i] := input[3 * i + 1];
      out2[i] := input[3 * i + 2];
      i := i + 1;
    }
  }

  /** The content of matrix cell `c` before the columns are permuted. */
  function CellValue(x: seq<int>, c: nat): int
    requires |x| > 0 && c < 32 * Rows(|x|)
  {
    if c < Dummies(|x|) then DUMMYBIT else x[c - Dummies(|x|)]
  }

  /** Fills the matrix row by row, dummies first. */
  method FillRows(v: array<int>, m: array2<int>, k: nat)
    requires 0 < k <= v.Length && m.Length0 >= Rows(k) && m.Length1 == 32
    modifies m
    ensures forall i: nat, c: nat :: i < Rows(k) && c < 32 ==> m[i, c] == CellValue(v[..k], 32 * i + c)
  {
    var rows, dummies := Rows(k), Dummies(k);
    var i := 0;
    while i < dummies
      invariant 0 <= i <= dummies
      invariant forall c: nat :: c < i ==> m[0, c] == CellValue(v[..k], c)
    {
      m[0, i] := DUMMYBIT;
      i := i + 1;
    }
    while i < 32
      invariant dummies <= i <= 32
      invariant forall c: nat :: c < i ==> m[0, c] == CellValue(v[..k], c)
    {
      m[0, i] := v[i - dummies];
      i := i + 1;
    }
    i := 1;
    while i < rows
      invariant 1 <= i <= rows
      invariant forall r: nat, c: nat :: r < i && c < 32 ==> m[r, c] == CellValue(v[..k], 32 * r + c)
    {
      var j := 0;
      while j < 32
        invariant 0 <= j <= 32
        invariant forall r: nat, c: nat :: r < i && c < 32 ==> m[r, c] == CellValue(v[..k], 32 * r + c)
        invariant forall c: nat :: c < j ==> m[i, c] == CellValue(v[..k], 32 * i + c)
      {
        m[i, j] := v[32 * i + j - dummies];
        j := j + 1;
      }
      i := i + 1;
    }
  }

  /** Up to position `p`, the output holds the matrix read column by column in permuted order. */
  ghost predicate ColumnsRead<T>(t: Columns, v: array<T>, m: array2<T>, rows: nat, p: nat)
    requires Inverse(t) && 32 * rows <= v.Length && rows <= m.Length0 && m.Length1 == 32
    reads v, m
  {
    forall j: nat, i: nat {:trigger Arith.Position(j, i, rows)} :: j < 32 && i < rows && Arith.Position(j, i, rows) < p && p <= 32 * rows ==>
      v[Arith.Position(j, i, rows)] == m[i, t.perm[j]]
  }

  /** Reads the matrix column by column in permuted order. */
  method ReadColumns(t: Columns, v: array<int>, m: array2<int>, rows: nat)
    requires Inverse(t) && 0 < rows && 32 * rows <= v.Length && rows <= m.Length0 && m.Length1 == 32
    modifies v
    ensures ColumnsRead(t, v, m, rows, 32 * rows)
  {
    var j, p := 0, 0;
    while j < 32
      invariant 0 <= j <= 32 && p == j * rows
      invariant ColumnsRead(t, v, m, rows, p)
    {
      var i := 0;
      while i < rows
        invariant 0 <= i <= rows && p == j * rows + i
        invariant ColumnsRead(t, v, m, rows, p)
      {
        PositionRange(j, i, rows);
        v[p] := m[i, t.perm[j]];
        forall j': nat, i': nat | j' < 32 && i' < rows && Arith.Position(j', i', rows) == p ensures j' == j && i' == i {
          Arith.PositionInjective(j, i, j', i', rows);
        }
        i, p := i + 1, p + 1;
      }
      assert (j + 1) * rows == j * rows + rows;
      j := j + 1;
    }
  }

  lemma PositionOf(t: Columns, p: nat, rows: nat)
    requires Inverse(t) && rows > 0 && p < 32 * rows
    ensures Column(p, rows) < 32 && Arith.Position(Column(p, rows), Row(p, rows), rows) == p
    ensures Cell(t, p, rows) == 32 * Row(p, rows) + t.perm[Column(p, rows)] < 32 * rows
  {
    PositionSplit(p, rows);
    ColumnBound(p, rows);
  }

  /** `subblock_interleaver`: interleaves a stream in place, dummies included. */
  method SubblockInterleaver(t: Columns, v: array<int>, m: array2<int>, k: nat) returns (kp: nat)
    requires Inverse(t) && 0 < k && 32 * Rows(k) <= v.Length && Rows(k) <= m.Length0 && m.Length1 == 32
    modifies v, m
    ensures kp == 32 * Rows(k) && v[..kp] == Interleaved(t, old(v[..k]))
  {
    var rows := Rows(k);
    ghost var x := v[..k];
    FillRows(v, m, k);
    ReadColumns(t, v, m, rows);
    kp := rows * 32;
    forall p: nat | p < 32 * rows ensures v[p] == Interleaved(t, x)[p] {
      var j, i := Column(p, rows), Row(p, rows);
      PositionOf(t, p, rows);
      assert v[Arith.Position(j, i, rows)] == m[i, t.perm[j]] == CellValue(x, 32 * i + t.perm[j]);
    }
  }

  /** The symbols of `z`, repeated from the start as often as needed. */
  function Cyclic(z: seq<int>, n: nat): (r: seq<int>)
    requires n > 0 ==> z != []
    ensures |r| == n
  {
    seq(n, i requires 0 <= i < n => z[i % |z|])
  }

  lemma CyclicExtend(z: seq<int>, rounds: nat, r: nat)
    requires r <= |z| && z != []
    ensures Cyclic(z, rounds * |z| + r) == Cyclic(z, rounds * |z|) + z[..r]
  {
    var k := rounds * |z|;
    forall i | 0 <= i < k + r ensures Cyclic(z, k + r)[i] == (Cyclic(z, k) + z[..r])[i] {
      if i >= k {
        Arith.Unique(i, rounds, i - k, |z|);
      }
    }
  }

  lemma NonDummiesNext(s: seq<int>, i: nat)
    requires i < |s|
    ensures NonDummies(s[..i + 1]) == NonDummies(s[..i]) + if s[i] == DUMMYBIT then [] else [s[i]]
  {
    assert s[..i + 1][..i] == s[..i];
  }

  lemma NonDummiesPrefix(s: seq<int>, a: seq<int>, b: seq<int>)
    requires s == a + b
    ensures NonDummies(a) <= NonDummies(s)
  {
    NonDummiesConcat(a, b);
  }

  /** The symbols `z` have been written behind the first `k`, and nothing from `outL` on. */
  ghost predicate Selected(before: seq<int>, now: seq<int>, z: seq<int>, k: nat, k': nat, outL: nat) {
    && |now| == |before| && k' == k + |z| && k' <= outL <= |now|
    && now[..k'] == before[..k] + z && now[outL..] == before[outL..]
  }

  lemma SelectedNext(before: seq<int>, now: seq<int>, z: seq<int>, k: nat, k': nat, outL: nat, v: int)
    requires Selected(before, now, z, k, k', outL) && k' < outL
    ensures Selected(before, now[k' := v], z + [v], k, k' + 1, outL)
  {
    assert now[k' := v][..k' + 1] == now[..k'] + [v];
    assert now[k' := v][outL..] == now[outL..];
  }

  /** Symbol number `i` is written unless it is a dummy. */
  method SelectOne(output: array<int>, v: int, k': nat, ghost before: seq<int>, ghost s: seq<int>, ghost i: nat, ghost k: nat, ghost outL: nat)
    returns (next: nat)
    requires i < |s| && s[i] == v && k' < outL && Selected(before, output[..], NonDummies(s[..i]), k, k', outL)
    modifies output
    ensures Selected(before, output[..], NonDummies(s[..i + 1]), k, next, outL)
  {
    next := k';
    NonDummiesNext(s, i);
    if v != DUMMYBIT {
      ghost var now := output[..];
      SelectedNext(before, now, NonDummies(s[..i]), k, k', outL, v);
      output[k'] := v;
      assert output[..] == now[k' := v];
      next := k' + 1;
    }
  }

  /** One round of `bit_selection` over the input, stopped as soon as the output is full. */
  method SelectRound(input: array<int>, output: array<int>, inL: nat, outL: nat, k: nat) returns (k': nat)
    requires input != output && inL <= input.Length && k < outL <= output.Length
    modifies output
    ensures var z := NonDummies(input[..inL]); k' == if k + |z| < outL then k + |z| else outL
    ensures Selected(old(output[..]), output[..], NonDummies(input[..inL])[..k' - k], k, k', outL)
  {
    ghost var s, before := input[..inL], output[..];
    k' := k;
    var i := 0;
    while i < inL
      invariant 0 <= i <= inL && k' < outL && s == input[..inL]
      invariant Selected(before, output[..], NonDummies(s[..i]), k, k', outL)
    {
      k' := SelectOne(output, input[i], k', before, s, i, k, outL);
      if k' == outL {
        NonDummiesPrefix(s, s[..i + 1], s[i + 1..]);
        return;
      }
      i := i + 1;
    }
    assert s[..inL] == s;
  }

  /** `bit_selection`: goes round the input, skipping the dummies, until the output is full. */
  method BitSelection(input: array<int>, output: array<int>, inL: nat, outL: nat)
    requires input != output && inL <= input.Length && outL <= output.Length
    requires outL > 0 ==> NonDummies(input[..inL]) != []
    modifies output
    ensures output[..outL] == Cyclic(NonDummies(input[..inL]), outL)
    ensures output[outL..] == old(output[outL..])
  {
    ghost var z, rounds: nat := NonDummies(input[..inL]), 0;
    var k := 0;
    while k < outL
      invariant 0 <= k <= outL && (k < outL ==> k == rounds * |z|)
      invariant output[..k] == Cyclic(z, k) && output[outL..] == old(output[outL..])
      decreases outL - k
    {
      ghost var was, before := k, output[..];
      assert before[..k] == output[..k] && before[outL..] == output[outL..];
      k := SelectRound(input, output, inL, outL, k);
      CyclicExtend(z, rounds, k - was);
      assert (rounds + 1) * |z| == rounds * |z| + |z|;
      rounds := rounds + 1;
    }
  }

  /** Copies `n` symbols into `w` from position `at` on. */
  method CopyInto<T>(v: array<T>, w: array<T>, at: nat, n: nat)
    requires v != w && n <= v.Length && at + n <= w.Length
    modifies w
    ensures w[at..at + n] == v[..n] && w[..at] == old(w[..at]) && w[at + n..] == old(w[at + n..])
  {
    var i := 0;
    while i < n
      invariant 0 <= i <= n
      invariant w[at..at + i] == v[..i] && w[..at] == old(w[..at]) && w[at + n..] == old(w[at + n..])
    {
      w[at + i] := v[i];
      assert w[at..at + i + 1] == w[at..at + i] + [v[i]];
      i := i + 1;
    }
  }

  lemma MatchedIsCyclic(t: Columns, x: seq<int>, k: nat, e: nat)
    requires Inverse(t) && |x| == 3 * k && k > 0 && Clean(x)
    ensures |Sent(t, x, k)| == 3 * k
    ensures Cyclic(Sent(t, x, k), e) == Matched(t, x, k, e)
  {
    SentLength(t, x, k);
  }

  method InterleaveAll(t: Columns, v0: array<int>, v1: array<int>, v2: array<int>, k: nat)
    requires Inverse(t) && k > 0 && v0.Length == v1.Length == v2.Length == 32 * Rows(k)
    requires v0 != v1 && v0 != v2 && v1 != v2
    modifies v0, v1, v2
    ensures v0[..] == Interleaved(t, old(v0[..k]))
    ensures v1[..] == Interleaved(t, old(v1[..k]))
    ensures v2[..] == Interleaved(t, old(v2[..k]))
  {
    var m := new int[Rows(k), 32];
    var n := SubblockInterleaver(t, v0, m, k);
    assert v0[..n] == v0[..];
    n := SubblockInterleaver(t, v1, m, k);
    assert v1[..n] == v1[..];
    n := SubblockInterleaver(t, v2, m, k);
    assert v2[..n] == v2[..];
  }

  /** Bit collection. */
  method LineUp(v0: array<int>, v1: array<int>, v2: array<int>, w: array<int>, n: nat)
    requires v0 != w && v1 != w && v2 != w && v0.Length == v1.Length == v2.Length == n && w.Length == 3 * n
    modifies w
    ensures w[..] == v0[..] + v1[..] + v2[..]
  {
    CopyInto(v0, w, 0, n);
    CopyInto(v1, w, n, n);
    CopyInto(v2, w, 2 * n, n);
    assert v0[..n] == v0[..] && v1[..n] == v1[..] && v2[..n] == v2[..];
    assert w[..] == w[..2 * n] + w[2 * n..2 * n + n];
    assert w[..2 * n] == w[0..n] + w[n..n + n];
  }

  /** The three streams, interleaved and lined up. */
  method Collect(t: Columns, input: array<int>, w: array<int>, inL: nat)
    requires Inverse(t) && 3 <= inL <= input.Length && w != input && w.Length == 3 * (32 * Rows(inL / 3))
    modifies w
    ensures w[..] == Collection(t, input[..3 * (inL / 3)], inL / 3)
  {
    var kp := 32 * Rows(inL / 3);
    var v0, v1, v2 := new int[kp], new int[kp], new int[kp];
    var k := CharUnwrap(input, v0, v1, v2, inL);
    InterleaveAll(t, v0, v1, v2, k);
    LineUp(v0, v1, v2, w, kp);
  }

  /**
  `rate_matching`: from `inL` coded symbols to `e` transmitted ones. Something
  other than dummies must be there to send, or the source does not come to an end.
  */
  method RateMatch(t: Columns, input: array<int>, output: array<int>, inL: nat, e: nat)
    requires Inverse(t) && input != output && inL <= input.Length && e <= output.Length
    requires e > 0 ==> exists n :: 0 <= n < 3 * (inL / 3) && input[n] != DUMMYBIT
    modifies output
    ensures var k := inL / 3; k > 0 ==>
      && (e > 0 ==> Sent(t, input[..3 * k], k) != [])
      && output[..e] == Cyclic(Sent(t, input[..3 * k], k), e)
    ensures var k := inL / 3; k > 0 && Clean(input[..3 * k]) ==>
      && |Sent(t, input[..3 * k], k)| == 3 * k
      && output[..e] == Matched(t, input[..3 * k], k, e)
    ensures output[e..] == old(output[e..])
  {
    var k := inL / 3;
    if k > 0 {
      ghost var x := input[..3 * k];
      var kp := 32 * Rows(k);
      var w := new int[3 * kp];
      Collect(t, input, w, inL);
      assert w[..3 * kp] == w[..];
      if e > 0 {
        ghost var n :| 0 <= n < 3 * k && input[n] != DUMMYBIT;
        SomethingSent(t, x, k, n);
      }
      BitSelection(w, output, 3 * kp, e);
      if Clean(x) {
        MatchedIsCyclic(t, x, k, e);
      }
    }
  }

  // --------------------------------------------------------------- the receiver

  /** How many positions below `p` are not masked. */
  function Free(mask: seq<bool>, p: nat): (r: nat)
    requires p <= |mask|
    ensures r <= p
  {
    if p == 0 then 0 else Free(mask, p - 1) + if mask[p - 1] then 0 else 1
  }

  lemma {:induction false} FreeMonotone(mask: seq<bool>, p: nat, p': nat)
    requires p < p' <= |mask|
    ensures Free(mask, p) <= Free(mask, p')
    ensures !mask[p] ==> Free(mask, p) < Free(mask, p')
  {
    if p + 1 < p' {
      FreeMonotone(mask, p, p' - 1);
    }
  }

  lemma {:induction false} FreeWithoutMask(mask: seq<bool>, p: nat)
    requires p <= |mask| && forall i :: 0 <= i < |mask| ==> !mask[i]
    ensures Free(mask, p) == p
  {
    if p > 0 {
      FreeWithoutMask(mask, p - 1);
    }
  }

  /** The cells below `d`, as a mask over the positions. */
  ghost function Mask(t: Columns, rows: nat, d: nat): (r: seq<bool>)
    requires Inverse(t) && rows > 0
    ensures |r| == 32 * rows
  {
    seq(32 * rows, p requires 0 <= p < 32 * rows => Cell(t, p, rows) < d)
  }

  lemma {:induction false} FreeIsRank(t: Columns, k: nat, p: nat)
    requires Inverse(t) && k > 0 && p <= 32 * Rows(k)
    ensures Free(Mask(t, Rows(k), Dummies(k)), p) == Rank(t, p, k)
  {
    if p > 0 {
      FreeIsRank(t, k, p - 1);
    }
  }

  lemma MaskNext(t: Columns, rows: nat, d: nat)
    requires Inverse(t) && rows > 0 && d < 32
    ensures t.inv[d] * rows < 32 * rows
    ensures Mask(t, rows, d + 1) == Mask(t, rows, d)[t.inv[d] * rows := true]
  {
    var at := t.inv[d] * rows;
    assert at == Place(t, d, rows);
    PlaceThenCell(t, d, rows);
    var more, less := Mask(t, rows, d + 1), Mask(t, rows, d)[at := true];
    forall p: nat | p < 32 * rows ensures more[p] == less[p] {
      CellThenPlace(t, p, rows);
    }
  }

  /** From `from` on, the buffer holds a mark where masked and zero elsewhere. */
  ghost predicate Marked(vv: seq<real>, mask: seq<bool>, from: nat)
    requires |mask| <= |vv|
  {
    forall p: nat {:trigger vv[p]} :: from <= p < |mask| ==> vv[p] == if mask[p] then 2.0 else 0.0
  }

  method Clear(vv: array<real>, n: nat)
    requires n <= vv.Length
    modifies vv
    ensures forall p :: 0 <= p < n ==> vv[p] == 0.0
  {
    var i := 0;
    while i < n
      invariant 0 <= i <= n
      invariant forall p :: 0 <= p < i ==> vv[p] == 0.0
    {
      vv[i] := 0.0;
      i := i + 1;
    }
  }

  /** Clears the buffer and marks the places of the dummies. */
  method MarkDummies(t: Columns, vv: array<real>, rows: nat, dummies: nat)
    requires Inverse(t) && rows > 0 && 32 * rows <= vv.Length && dummies < 32
    modifies vv
    ensures Marked(vv[..], Mask(t, rows, dummies), 0)
  {
    Clear(vv, 32 * rows);
    ghost var mask := Mask(t, rows, 0);
    var i := 0;
    while i < dummies
      invariant 0 <= i <= dummies && mask == Mask(t, rows, i)
      invariant Marked(vv[..], mask, 0)
    {
      MaskNext(t, rows, i);
      vv[t.inv[i] * rows] := 2.0;
      mask := mask[t.inv[i] * rows := true];
      i := i + 1;
    }
  }

  /** Every unmasked position below `n` holds the next symbol of the received stream. */
  ghost predicate Spread(v: seq<real>, vv: seq<real>, mask: seq<bool>, n: nat)
    requires n <= |mask| <= |vv| && Free(mask, |mask|) <= |v|
  {
    forall p: nat {:trigger vv[p]} :: p < n && !mask[p] ==> Free(mask, p) < |v| && vv[p] == v[Free(mask, p)]
  }

  lemma SpreadStep(v: seq<real>, vv: seq<real>, mask: seq<bool>, j: nat, x: real)
    requires j < |mask| <= |vv| && Free(mask, |mask|) <= |v| && Spread(v, vv, mask, j)
    requires mask[j] || (Free(mask, j) < |v| && x == v[Free(mask, j)])
    ensures Spread(v, vv[j := x], mask, j + 1)
  {
    var after := vv[j := x];
    forall p: nat | p < j && !mask[p] ensures Free(mask, p) < |v| && after[p] == v[Free(mask, p)] {
      assert after[p] == vv[p];
    }
  }

  /** Distributes the received symbols over the positions that are not marked. */
  method SpreadSymbols(v: array<real>, vv: array<real>, n: nat, ghost mask: seq<bool>)
    requires n == |mask| <= vv.Length && Free(mask, n) <= v.Length && v != vv
    requires Marked(vv[..], mask, 0)
    modifies vv
    ensures Spread(v[..], vv[..], mask, n)
  {
    var j, idx := 0, 0;
    while j < n
      invariant 0 <= j <= n && idx + Free(mask, j) == j
      invariant Marked(vv[..], mask, j)
      invariant Spread(v[..], vv[..], mask, j)
    {
      FreeMonotone(mask, j, n);
      ghost var before := vv[..];
      if vv[j] == 0.0 {
        vv[j] := v[j - idx];
      } else {
        idx := idx + 1;
      }
      assert vv[..] == before[j := vv[j]];
      SpreadStep(v[..], before, mask, j, vv[j]);
      j := j + 1;
    }
  }

  lemma FreeTotal(t: Columns, k: nat)
    requires Inverse(t) && k > 0
    ensures Free(Mask(t, Rows(k), Dummies(k)), 32 * Rows(k)) == k
  {
    FreeIsRank(t, k, 32 * Rows(k));
    RankTotal(t, k);
  }

  lemma SpreadWhole(v: seq<real>, vv: seq<real>, mask: seq<bool>)
    requires |mask| == |v| <= |vv| && vv[..|v|] == v && forall i :: 0 <= i < |mask| ==> !mask[i]
    ensures Free(mask, |mask|) <= |v| && Spread(v, vv, mask, |mask|)
  {
    FreeWithoutMask(mask, |mask|);
    forall p: nat | p < |mask| ensures Free(mask, p) == p && vv[p] == v[p] {
      FreeWithoutMask(mask, p);
      assert vv[..|v|][p] == v[p];
    }
  }

  /** Opens gaps at the dummies. */
  method InsertDummies(t: Columns, v: array<real>, vv: array<real>, k: nat, ghost mask: seq<bool>)
    requires Inverse(t) && 0 < k == v.Length && 32 * Rows(k) <= vv.Length && v != vv
    requires mask == Mask(t, Rows(k), Dummies(k))
    modifies vv
    ensures Free(mask, |mask|) == k && Spread(v[..], vv[..], mask, |mask|)
  {
    FreeTotal(t, k);
    if Dummies(k) > 0 {
      MarkDummies(t, vv, Rows(k), Dummies(k));
      SpreadSymbols(v, vv, 32 * Rows(k), mask);
    } else {
      CopyInto(v, vv, 0, k);
      assert v[..k] == v[..] && vv[0..0 + k] == vv[..k];
      SpreadWhole(v[..], vv[..], mask);
    }
  }

  /** Fills the matrix column by column, undoing the permutation. */
  method FillColumns(t: Columns, vv: array<real>, m: array2<real>, rows: nat)
    requires Inverse(t) && 0 < rows && 32 * rows <= vv.Length && rows <= m.Length0 && m.Length1 == 32
    modifies m
    ensures ColumnsRead(t, vv, m, rows, 32 * rows)
  {
    var j, p := 0, 0;
    while j < 32
      invariant 0 <= j <= 32 && p == j * rows
      invariant ColumnsRead(t, vv, m, rows, p)
    {
      var i := 0;
      while i < rows
        invariant 0 <= i <= rows && p == j * rows + i
        invariant ColumnsRead(t, vv, m, rows, p)
      {
        PositionRange(j, i, rows);
        m[i, t.perm[j]] := vv[p];
        forall j': nat, i': nat | j' < 32 && i' < rows && Arith.Position(j', i', rows) == p ensures j' == j && i' == i {
          Arith.PositionInjective(j, i, j', i', rows);
        }
        i, p := i + 1, p + 1;
      }
      assert (j + 1) * rows == j * rows + rows;
      j := j + 1;
    }
  }

  method ReadRows(vv: array<real>, m: array2<real>, rows: nat)
    requires 0 < rows && 32 * rows <= vv.Length && rows <= m.Length0 && m.Length1 == 32
    modifies vv
    ensures forall c: nat :: c < 32 * rows ==> vv[c] == m[c / 32, c % 32]
  {
    var i := 0;
    while i < rows
      invariant 0 <= i <= rows
      invariant forall c: nat :: c < 32 * i ==> vv[c] == m[c / 32, c % 32]
    {
      var j := 0;
      while j < 32
        invariant 0 <= j <= 32
        invariant forall c: nat :: c < 32 * i + j ==> vv[c] == m[c / 32, c % 32]
      {
        vv[32 * i + j] := m[i, j];
        j := j + 1;
      }
      i := i + 1;
    }
  }

  /** What was at a cell's place has come to the cell. */
  ghost predicate Transposed(t: Columns, before: seq<real>, after: seq<real>, rows: nat)
    requires Inverse(t) && 0 < rows && |before| == |after| == 32 * rows
  {
    forall c: nat {:trigger after[c]} :: c < 32 * rows ==> after[c] == before[Place(t, c, rows)]
  }

  lemma PlacePosition(t: Columns, c: nat, rows: nat)
    requires Inverse(t) && c < 32 * rows
    ensures Place(t, c, rows) == Arith.Position(t.inv[c % 32], c / 32, rows) && t.perm[t.inv[c % 32]] == c % 32
  {
  }

  /** Into the matrix by columns and out of it by rows. */
  method Transpose(t: Columns, vv: array<real>, rows: nat)
    requires Inverse(t) && 0 < rows && 32 * rows == vv.Length
    modifies vv
    ensures Transposed(t, old(vv[..]), vv[..], rows)
  {
    var m := new real[rows, 32];
    FillColumns(t, vv, m, rows);
    ghost var before := vv[..];
    forall c: nat | c < 32 * rows ensures before[Place(t, c, rows)] == m[c / 32, c % 32] {
      PlacePosition(t, c, rows);
    }
    ReadRows(vv, m, rows);
  }

  method CopyBack(vv: array<real>, v: array<real>, from: nat)
    requires v != vv && from + v.Length == vv.Length
    modifies v
    ensures v[..] == vv[from..]
  {
    var i := 0;
    while i < v.Length
      invariant 0 <= i <= v.Length
      invariant forall q :: 0 <= q < i ==> v[q] == vv[q + from]
    {
      v[i] := vv[i + from];
      i := i + 1;
    }
  }

  lemma SpreadAt(v: seq<real>, vv: seq<real>, mask: seq<bool>, p: nat)
    requires p < |mask| <= |vv| && Free(mask, |mask|) <= |v| && Spread(v, vv, mask, |mask|) && !mask[p]
    ensures Free(mask, p) < |v| && vv[p] == v[Free(mask, p)]
  {
  }

  lemma MaskAt(t: Columns, p: nat, k: nat)
    requires Inverse(t) && k > 0 && p < 32 * Rows(k)
    ensures Mask(t, Rows(k), Dummies(k))[p] == IsDummy(t, p, k)
  {
  }

  lemma ReadAtPlace(t: Columns, v: seq<real>, spread: seq<real>, k: nat, q: nat, mask: seq<bool>)
    requires Inverse(t) && q < k == |v| && mask == Mask(t, Rows(k), Dummies(k)) && |mask| <= |spread|
    requires Free(mask, |mask|) <= |v| && Spread(v, spread, mask, |mask|)
    ensures StreamIndex(t, q, k) < k && spread[SymbolPlace(t, q, k)] == v[StreamIndex(t, q, k)]
  {
    var p := SymbolPlace(t, q, k);
    SymbolPlaceCell(t, q, k);
    FreeIsRank(t, k, p);
    MaskAt(t, p, k);
    SpreadAt(v, spread, mask, p);
  }

  /** A block in stream order, put back into its own order. */
  ghost predicate Restored(t: Columns, stream: seq<real>, block: seq<real>, k: nat)
    requires Inverse(t) && |stream| == |block| == k
  {
    forall q: nat :: q < k ==> StreamIndex(t, q, k) < k && block[q] == stream[StreamIndex(t, q, k)]
  }

  lemma AllRestored(t: Columns, v: seq<real>, spread: seq<real>, cells: seq<real>, k: nat)
    requires Inverse(t) && 0 < k == |v| && |spread| == |cells| == 32 * Rows(k)
    requires var mask := Mask(t, Rows(k), Dummies(k)); Free(mask, |mask|) <= |v| && Spread(v, spread, mask, |mask|)
    requires Transposed(t, spread, cells, Rows(k))
    ensures Restored(t, v, cells[Dummies(k)..], k)
  {
    var block := cells[Dummies(k)..];
    forall q: nat | q < k ensures StreamIndex(t, q, k) < k && block[q] == v[StreamIndex(t, q, k)] {
      assert block[q] == cells[q + Dummies(k)];
      ReadAtPlace(t, v, spread, k, q, Mask(t, Rows(k), Dummies(k)));
    }
  }

  /** `subblock_deinterleaver` up to the final copy. */
  method Gather(t: Columns, v: array<real>, vv: array<real>, k: nat)
    requires Inverse(t) && 0 < k == v.Length && vv.Length == 32 * Rows(k) && v != vv
    modifies vv
    ensures Restored(t, v[..], vv[Dummies(k)..], k)
  {
    ghost var mask := Mask(t, Rows(k), Dummies(k));
    InsertDummies(t, v, vv, k, mask);
    ghost var spread := vv[..];
    Transpose(t, vv, Rows(k));
    AllRestored(t, v[..], spread, vv[..], k);
    assert vv[..][Dummies(k)..] == vv[Dummies(k)..];
  }

  /** `subblock_deinterleaver`: every symbol of the block is fetched from its stream index. */
  method SubblockDeinterleaver(t: Columns, v: array<real>, k: nat)
    requires Inverse(t) && 0 < k == v.Length
    modifies v
    ensures Restored(t, old(v[..]), v[..], k)
  {
    var vv := new real[32 * Rows(k)];
    Gather(t, v, vv, k);
    CopyBack(vv, v, Dummies(k));
  }

  // ---------------------------------------------------------------- round trip

  /** `float_wrap`: interlaces three streams. */
  method FloatWrap(in0: array<real>, in1: array<real>, in2: array<real>, output: array<real>, n: nat) returns (outL: nat)
    requires n <= in0.Length && n <= in1.Length && n <= in2.Length && 3 * n <= output.Length
    requires output != in0 && output != in1 && output != in2
    modifies output
    ensures outL == 3 * n
    ensures Stream(output[..3 * n], n, 0) == in0[..n]
    ensures Stream(output[..3 * n], n, 1) == in1[..n]
    ensures Stream(output[..3 * n], n, 2) == in2[..n]
    ensures output[3 * n..] == old(output[3 * n..])
  {
    var i := 0;
    while i < n
      invariant 0 <= i <= n
      invariant forall j :: 0 <= j < i ==> output[3 * j] == in0[j] && output[3 * j + 1] == in1[j] && output[3 * j + 2] == in2[j]
      invariant output[3 * n..] == old(output[3 * n..])
    {
      output[3 * i] := in0[i];
      output[3 * i + 1] := in1[i];
      output[3 * i + 2] := in2[i];
      i := i + 1;
    }
    outL := n * 3;
  }

  /** The received sequence as the receiver sees it: `n` symbols, zero where none arrived. */
  function Padded(e: seq<real>, n: nat): (r: seq<real>)
    ensures |r| == n
  {
    seq(n, i requires 0 <= i < n => if i < |e| then e[i] else 0.0)
  }

  /** Copies the received sequence and fills up with zeros. */
  method Pad(input: array<real>, inL: nat, w: array<real>, n: nat)
    requires inL <= input.Length && input != w && inL <= w.Length && n <= w.Length
    modifies w
    ensures w[..n] == Padded(input[..inL], n)
  {
    CopyInto(input, w, 0, inL);
    assert w[0..0 + inL] == w[..inL];
    var i := inL;
    while i < n
      invariant inL <= i && (i <= n || i == inL)
      invariant w[..inL] == input[..inL]
      invariant forall j :: inL <= j < i ==> w[j] == 0.0
    {
      w[i] := 0.0;
      i := i + 1;
    }
    forall j | 0 <= j < n ensures w[j] == Padded(input[..inL], n)[j] {
      if j < inL {
        assert w[..inL][j] == input[..inL][j];
      }
    }
  }

  /** Splits a sequence into three consecutive streams. */
  method SplitStreams(w: array<real>, v0: array<real>, v1: array<real>, v2: array<real>, k: nat)
    requires v0.Length == v1.Length == v2.Length == k && 3 * k <= w.Length
    requires w != v0 && w != v1 && w != v2 && v0 != v1 && v0 != v2 && v1 != v2
    modifies v0, v1, v2
    ensures v0[..] == w[..k] && v1[..] == w[k..2 * k] && v2[..] == w[2 * k..3 * k]
  {
    var i := 0;
    while i < k
      invariant 0 <= i <= k
      invariant forall j :: 0 <= j < i ==> v0[j] == w[j] && v1[j] == w[k + j] && v2[j] == w[2 * k + j]
    {
      v0[i] := w[i];
      v1[i] := w[k + i];
      v2[i] := w[2 * k + i];
      i := i + 1;
    }
  }

  /** `rate_unmatching` between the padding and the wrapping. */
  method RestoreAll(t: Columns, v0: array<real>, v1: array<real>, v2: array<real>, k: nat)
    requires Inverse(t) && v0.Length == v1.Length == v2.Length == k
    requires v0 != v1 && v0 != v2 && v1 != v2
    modifies v0, v1, v2
    ensures Restored(t, old(v0[..]), v0[..], k)
    ensures Restored(t, old(v1[..]), v1[..], k)
    ensures Restored(t, old(v2[..]), v2[..], k)
  {
    if k > 0 {
      SubblockDeinterleaver(t, v0, k);
      SubblockDeinterleaver(t, v1, k);
      SubblockDeinterleaver(t, v2, k);
    }
  }

  /** The `s`-th third of a sequence. */
  function Third(w: seq<real>, k: nat, s: nat): (r: seq<real>)
    requires |w| == 3 * k && s < 3
    ensures |r| == k
  {
    if s == 0 then w[..k] else if s == 1 then w[k..2 * k] else w[2 * k..]
  }

  lemma RestoredAt(t: Columns, e: seq<real>, block: seq<real>, k: nat, s: nat, q: nat)
    requires Inverse(t) && s < 3 && q < k && |block| == k
    requires Restored(t, Third(Padded(e, 3 * k), k, s), block, k)
    ensures var i := SentAt(t, q, s, k); block[q] == if i < |e| then e[i] else 0.0
  {
    var i := StreamIndex(t, q, k);
    assert i < k && block[q] == Third(Padded(e, 3 * k), k, s)[i];
  }

  lemma UnwrappedAt(t: Columns, e: seq<real>, y: seq<real>, k: nat, s: nat, q: nat)
    requires Inverse(t) && |y| == 3 * k && s < 3 && q < k
    requires Restored(t, Third(Padded(e, 3 * k), k, s), Stream(y, k, s), k)
    ensures y[3 * q + s] == Unmatched(t, e, k)[3 * q + s]
  {
    RestoredAt(t, e, Stream(y, k, s), k, s, q);
    UnmatchedAt(t, e, k, q, s, SentAt(t, q, s, k));
  }

  /** Stream `s` of the output is its third of the padded input, restored. */
  ghost predicate StreamRestored(t: Columns, e: seq<real>, y: seq<real>, k: nat, s: nat)
    requires Inverse(t) && |y| == 3 * k && s < 3
  {
    Restored(t, Third(Padded(e, 3 * k), k, s), Stream(y, k, s), k)
  }

  /** One stream of the output is what the specification has at its places. */
  ghost predicate StreamMatches(y: seq<real>, u: seq<real>, k: nat, s: nat)
    requires |y| == |u| == 3 * k && s < 3
  {
    forall q: nat {:trigger y[3 * q + s]} :: q < k ==> y[3 * q + s] == u[3 * q + s]
  }

  lemma StreamUnwrapped(t: Columns, e: seq<real>, y: seq<real>, k: nat, s: nat)
    requires Inverse(t) && |y| == 3 * k && s < 3 && StreamRestored(t, e, y, k, s)
    ensures StreamMatches(y, Unmatched(t, e, k), k, s)
  {
    var u := Unmatched(t, e, k);
    forall q: nat | q < k ensures y[3 * q + s] == u[3 * q + s] {
      UnwrappedAt(t, e, y, k, s, q);
    }
  }

  lemma StreamsMatch(y: seq<real>, u: seq<real>, k: nat)
    requires |y| == |u| == 3 * k && StreamMatches(y, u, k, 0) && StreamMatches(y, u, k, 1) && StreamMatches(y, u, k, 2)
    ensures y == u
  {
    forall n: nat | n < 3 * k ensures y[n] == u[n] {
      var q := n / 3;
      assert n % 3 == 0 ==> y[3 * q + 0] == u[3 * q + 0];
      assert n % 3 == 1 ==> y[3 * q + 1] == u[3 * q + 1];
      assert n % 3 == 2 ==> y[3 * q + 2] == u[3 * q + 2];
    }
  }

  lemma Unwrapped(t: Columns, e: seq<real>, y: seq<real>, k: nat)
    requires Inverse(t) && |y| == 3 * k
    requires StreamRestored(t, e, y, k, 0) && StreamRestored(t, e, y, k, 1) && StreamRestored(t, e, y, k, 2)
    ensures y == Unmatched(t, e, k)
  {
    StreamUnwrapped(t, e, y, k, 0);
    StreamUnwrapped(t, e, y, k, 1);
    StreamUnwrapped(t, e, y, k, 2);
    StreamsMatch(y, Unmatched(t, e, k), k);
  }

  /** `rate_unmatching` up to the wrapping. */
  method RestoreStreams(t: Columns, input: array<real>, inL: nat, v0: array<real>, v1: array<real>, v2: array<real>, k: nat)
    requires Inverse(t) && inL <= input.Length && v0.Length == v1.Length == v2.Length == k
    requires v0 != v1 && v0 != v2 && v1 != v2 && input != v0 && input != v1 && input != v2
    modifies v0, v1, v2
    ensures Restored(t, Third(Padded(input[..inL], 3 * k), k, 0), v0[..], k)
    ensures Restored(t, Third(Padded(input[..inL], 3 * k), k, 1), v1[..], k)
    ensures Restored(t, Third(Padded(input[..inL], 3 * k), k, 2), v2[..], k)
  {
    var w := new real[if inL > 3 * k then inL else 3 * k];
    Pad(input, inL, w, 3 * k);
    ghost var padded := w[..3 * k];
    SplitStreams(w, v0, v1, v2, k);
    assert v0[..] == Third(padded, k, 0);
    assert v1[..] == Third(padded, k, 1);
    assert v2[..] == Third(padded, k, 2);
    RestoreAll(t, v0, v1, v2, k);
  }

  /** `rate_unmatching`: from `inL` received symbols to the `s` that the decoder expects. */
  method RateUnmatch(t: Columns, input: array<real>, output: array<real>, inL: nat, s: nat) returns (outL: nat)
    requires Inverse(t) && input != output && inL <= input.Length && s <= output.Length
    modifies output
    ensures outL == 3 * (s / 3)
    ensures output[..outL] == Unmatched(t, input[..inL], s / 3)
    ensures output[outL..] == old(output[outL..])
  {
    var k := s / 3;
    var v0, v1, v2 := new real[k], new real[k], new real[k];
    RestoreStreams(t, input, inL, v0, v1, v2, k);
    outL := FloatWrap(v0, v1, v2, output, k);
    assert v0[..k] == v0[..] && v1[..k] == v1[..] && v2[..k] == v2[..];
    Unwrapped(t, input[..inL], output[..3 * k], k);
  }

  /** The ideal channel: the symbols arrive as they were sent. */
  method Transmit(sent: array<int>) returns (received: array<real>)
    ensures fresh(received) && received.Length == sent.Length && received[..] == ToReals(sent[..])
  {
    received := new real[sent.Length];
    var i := 0;
    while i < sent.Length
      invariant 0 <= i <= sent.Length
      invariant forall j :: 0 <= j < i ==> received[j] == sent[j] as real
    {
      received[i] := sent[i] as real;
      i := i + 1;
    }
  }

  /**
  Over an ideal channel that carries `e` symbols, the receiver gets the
  transmitter's input at the positions that arrive, min(e, n) of them, and zero
  elsewhere; so it gets all of it if at least as many are carried as there are.
  */
  method MatchThenUnmatch(t: Columns, input: array<int>, e: nat) returns (output: array<real>)
    requires Inverse(t) && 3 <= input.Length && input.Length % 3 == 0 && Clean(input[..])
    ensures var k := input.Length / 3;
      && output[..] == Delivered(t, input[..], k, e)
      && |Arriving(t, e, k)| == if e < input.Length then e else input.Length
    ensures e >= input.Length ==> output[..] == ToReals(input[..])
  {
    var n := input.Length;
    ghost var x := input[..];
    assert input[..3 * (n / 3)] == x && input[0] != DUMMYBIT;
    var sent := new int[e];
    RateMatch(t, input, sent, n, e);
    var received := Transmit(sent);
    output := new real[n];
    var outL := RateUnmatch(t, received, output, e, n);
    assert sent[..e] == sent[..] && received[..e] == received[..] && output[..outL] == output[..];
    ChannelDelivers(t, x, n / 3, e);
    ArrivingTotal(t, e, n / 3);
    if e >= n {
      RoundTrip(t, x, n / 3, e);
    }
  }
}
