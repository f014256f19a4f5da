/**
Rate matching for the LTE control channels (section 5.1.4.2 of 3GPP TS 36.212):
the transmitter of modrep_osld/lte_ctrl_ratematching/src/ctrl_ratematching_tx.c
and the receiver of ctrl_ratematching_rx.c, with the permutation of
ctrl_ratematching.h.
*/
module RateMatching {
  import Arith

  const DUMMYBIT := 2

  /** The transmitter's column permutation. */
  const PERM: seq<nat> := [
    1, 17, 9, 25, 5, 21, 13, 29, 3, 19, 11, 27, 7, 23, 15, 31,
    0, 16, 8, 24, 4, 20, 12, 28, 2, 18, 10, 26, 6, 22, 14, 30]

  /** The receiver's dummy insertion pattern. */
  const PD: seq<nat> := [
    16, 0, 24, 8, 20, 4, 28, 12, 18, 2, 26, 10, 22, 6, 30, 14,
    17, 1, 25, 9, 21, 5, 29, 13, 19, 3, 27, 11, 23, 7, 31, 15]

  /** A column permutation and its inverse. */
  datatype Columns = Columns(perm: seq<nat>, inv: seq<nat>)

  predicate Inverse(t: Columns) {
    && |t.perm| == |t.inv| == 32
    && forall j :: 0 <= j < 32 ==> t.perm[j] < 32 && t.inv[j] < 32 && t.inv[t.perm[j]] == j && t.perm[t.inv[j]] == j
  }

  lemma TablesInverseAt(j: nat)
    requires j < 32
    ensures PERM[j] < 32 && PD[j] < 32 && PD[PERM[j]] == j && PERM[PD[j]] == j
  {
  }

  /** The receiver's table undoes the transmitter's. */
  lemma TablesInverse()
    ensures Inverse(Columns(PERM, PD))
  {
    forall j: nat | j < 32 ensures PERM[j] < 32 && PD[j] < 32 && PD[PERM[j]] == j && PERM[PD[j]] == j {
      TablesInverseAt(j);
    }
  }

  // ------------------------------------------------------ positions of one subblock

  /** Rows of the interleaver matrix for a subblock of `k` symbols. */
  function Rows(k: nat): (r: nat)
    requires k > 0
    ensures r > 0 && k <= 32 * r < k + 32
  {
    (k - 1) / 32 + 1
  }

  /** How many dummies pad the matrix at its beginning. */
  function Dummies(k: nat): (d: nat)
    requires k > 0
    ensures d < 32
  {
    32 * Rows(k) - k
  }

  /** The matrix column that column-wise position `p` falls into. */
  function Column(p: nat, rows: nat): nat
    requires rows > 0
  {
    if p < rows then 0 else 1 + Column(p - rows, rows)
  }

  /** The matrix row that column-wise position `p` falls into. */
  function Row(p: nat, rows: nat): (i: nat)
    requires rows > 0
    ensures i < rows
  {
    if p < rows then p else Row(p - rows, rows)
  }

  lemma {:induction false} ColumnRow(j: nat, i: nat, rows: nat)
    requires i < rows
    ensures Column(j * rows + i, rows) == j && Row(j * rows + i, rows) == i
  {
    if j > 0 {
      assert j * rows + i - rows == (j - 1) * rows + i;
      Arith.MulSign(j, rows);
      ColumnRow(j - 1, i, rows);
    }
  }

  lemma PositionRange(j: nat, i: nat, rows: nat)
    requires j < 32 && i < rows
    ensures Arith.Position(j, i, rows) < 32 * rows
  {
    Arith.MulMonotone(j, 31, rows);
  }

  lemma {:induction false} PositionSplit(p: nat, rows: nat)
    requires rows > 0
    ensures p == Column(p, rows) * rows + Row(p, rows)
  {
    if p >= rows {
      PositionSplit(p - rows, rows);
      var j := Column(p - rows, rows);
      assert (1 + j) * rows == rows + j * rows;
    }
  }

  lemma ColumnBound(p: nat, rows: nat)
    requires rows > 0 && p < 32 * rows
    ensures Column(p, rows) < 32
  {
    PositionSplit(p, rows);
    var j := Column(p, rows);
    Arith.MulSign(j - 31, rows);
    assert (j - 31) * rows == j * rows - 31 * rows;
  }

  /** The matrix cell, counted row by row, that is read out at column-wise position `p`. */
  function Cell(t: Columns, p: nat, rows: nat): nat
    requires Inverse(t)
    requires rows > 0 && p < 32 * rows
  {
    ColumnBound(p, rows);
    32 * Row(p, rows) + t.perm[Column(p, rows)]
  }

  /** The position at which cell `c` is read out. */
  function Place(t: Columns, c: nat, rows: nat): (p: nat)
    requires Inverse(t)
    requires c < 32 * rows
    ensures p < 32 * rows
  {
    Arith.MulMonotone(t.inv[c % 32], 31, rows);
    t.inv[c % 32] * rows + c / 32
  }

  lemma CellAt(t: Columns, j: nat, i: nat, rows: nat)
    requires Inverse(t)
    requires j < 32 && i < rows
    ensures j * rows + i < 32 * rows && Cell(t, j * rows + i, rows) == 32 * i + t.perm[j]
  {
    Arith.MulMonotone(j, 31, rows);
    ColumnRow(j, i, rows);
  }

  lemma PlaceThenCell(t: Columns, c: nat, rows: nat)
    requires Inverse(t)
    requires c < 32 * rows
    ensures Cell(t, Place(t, c, rows), rows) == c
  {
    CellAt(t, t.inv[c % 32], c / 32, rows);
  }

  lemma CellParts(c: nat, i: nat, col: nat, rows: nat)
    requires i < rows && col < 32 && c == 32 * i + col
    ensures c < 32 * rows && c / 32 == i && c % 32 == col
  {
  }

  lemma CellThenPlace(t: Columns, p: nat, rows: nat)
    requires Inverse(t)
    requires rows > 0 && p < 32 * rows
    ensures Cell(t, p, rows) < 32 * rows && Place(t, Cell(t, p, rows), rows) == p
  {
    var j, i := Column(p, rows), Row(p, rows);
    PositionSplit(p, rows);
    ColumnBound(p, rows);
    CellParts(Cell(t, p, rows), i, t.perm[j], rows);
  }

  predicate IsDummy(t: Columns, p: nat, k: nat)
    requires Inverse(t)
    requires k > 0 && p < 32 * Rows(k)
  {
    Cell(t, p, Rows(k)) < Dummies(k)
  }

  /** How many non-dummies are read out before position `p`: the index of its symbol in the stream. */
  function Rank(t: Columns, p: nat, k: nat): (r: nat)
    requires Inverse(t)
    requires k > 0 && p <= 32 * Rows(k)
    ensures r <= p
  {
    if p == 0 then 0 else Rank(t, p - 1, k) + if IsDummy(t, p - 1, k) then 0 else 1
  }

  lemma {:induction false} RankMonotone(t: Columns, p: nat, p': nat, k: nat)
    requires Inverse(t)
    requires k > 0 && p < p' <= 32 * Rows(k)
    ensures Rank(t, p, k) <= Rank(t, p', k)
    ensures !IsDummy(t, p, k) ==> Rank(t, p, k) < Rank(t, p', k)
    decreases p'
  {
    if p < p' - 1 {
      RankMonotone(t, p, p' - 1, k);
    }
  }

  /** The non-dummy positions before `p`. */
  ghost function Carriers(t: Columns, p: nat, k: nat): set<nat>
    requires Inverse(t)
    requires k > 0 && p <= 32 * Rows(k)
  {
    set i: nat | i < p && !IsDummy(t, i, k)
  }

  lemma {:induction false} RankCounts(t: Columns, p: nat, k: nat)
    requires Inverse(t)
    requires k > 0 && p <= 32 * Rows(k)
    ensures |Carriers(t, p, k)| == Rank(t, p, k)
  {
    if p == 0 {
      assert Carriers(t, p, k) == {};
    } else {
      RankCounts(t, p - 1, k);
      if IsDummy(t, p - 1, k) {
        assert Carriers(t, p, k) == Carriers(t, p - 1, k);
      } else {
        assert Carriers(t, p, k) == Carriers(t, p - 1, k) + {p - 1};
      }
    }
  }

  /** The position at which symbol `q` of a subblock is read out. */
  function SymbolPlace(t: Columns, q: nat, k: nat): (p: nat)
    requires Inverse(t)
    requires q < k
    ensures p < 32 * Rows(k)
  {
    Place(t, q + Dummies(k), Rows(k))
  }

  lemma SymbolPlaceCell(t: Columns, q: nat, k: nat)
    requires Inverse(t)
    requires q < k
    ensures Cell(t, SymbolPlace(t, q, k), Rows(k)) == q + Dummies(k) && !IsDummy(t, SymbolPlace(t, q, k), k)
  {
    PlaceThenCell(t, q + Dummies(k), Rows(k));
  }

  lemma CarrierSymbol(t: Columns, p: nat, k: nat) returns (q: nat)
    requires Inverse(t)
    requires k > 0 && p < 32 * Rows(k) && !IsDummy(t, p, k)
    ensures q < k && SymbolPlace(t, q, k) == p && Cell(t, p, Rows(k)) == q + Dummies(k)
  {
    CellThenPlace(t, p, Rows(k));
    q := Cell(t, p, Rows(k)) - Dummies(k);
  }

  lemma SymbolPlaceInjective(t: Columns, q: nat, q': nat, k: nat)
    requires Inverse(t)
    requires q < k && q' < k && SymbolPlace(t, q, k) == SymbolPlace(t, q', k)
    ensures q == q'
  {
    SymbolPlaceCell(t, q, k);
    SymbolPlaceCell(t, q', k);
  }

  ghost function PlaceMap(t: Columns, k: nat): nat -> nat
    requires Inverse(t)
  {
    (q: nat) => if q < k then SymbolPlace(t, q, k) else 0
  }

  lemma PlaceMapInjective(t: Columns, k: nat)
    requires Inverse(t)
    ensures Arith.InjectiveBelow(PlaceMap(t, k), k)
  {
    forall q: nat, q': nat | q < k && q' < k && PlaceMap(t, k)(q) == PlaceMap(t, k)(q') ensures q == q' {
      SymbolPlaceInjective(t, q, q', k);
    }
  }

  lemma CarrierInImage(t: Columns, p: nat, k: nat)
    requires Inverse(t)
    requires k > 0
    ensures p in Carriers(t, 32 * Rows(k), k) <==> p in Arith.Image(PlaceMap(t, k), k)
  {
    if p in Carriers(t, 32 * Rows(k), k) {
      var q := CarrierSymbol(t, p, k);
      assert PlaceMap(t, k)(q) == p;
    } else if p in Arith.Image(PlaceMap(t, k), k) {
      var q: nat :| q < k && PlaceMap(t, k)(q) == p;
      SymbolPlaceCell(t, q, k);
    }
  }

  /** Exactly `k` positions carry a symbol. */
  lemma RankTotal(t: Columns, k: nat)
    requires Inverse(t)
    requires k > 0
    ensures Rank(t, 32 * Rows(k), k) == k
  {
    var carriers, image := Carriers(t, 32 * Rows(k), k), Arith.Image(PlaceMap(t, k), k);
    PlaceMapInjective(t, k);
    Arith.ImageCount(PlaceMap(t, k), k);
    RankCounts(t, 32 * Rows(k), k);
    forall p: nat ensures p in carriers <==> p in image {
      CarrierInImage(t, p, k);
    }
    assert carriers == image;
  }

  /** Where in the transmitted stream symbol `q` of a subblock travels. */
  function StreamIndex(t: Columns, q: nat, k: nat): nat
    requires Inverse(t)
    requires q < k
  {
    Rank(t, SymbolPlace(t, q, k), k)
  }

  lemma StreamIndexRange(t: Columns, q: nat, k: nat)
    requires Inverse(t)
    requires q < k
    ensures StreamIndex(t, q, k) < k
  {
    SymbolPlaceCell(t, q, k);
    RankMonotone(t, SymbolPlace(t, q, k), 32 * Rows(k), k);
    RankTotal(t, k);
  }

  lemma RankInjective(t: Columns, p: nat, p': nat, k: nat)
    requires Inverse(t)
    requires k > 0 && p < 32 * Rows(k) && p' < 32 * Rows(k) && !IsDummy(t, p, k) && !IsDummy(t, p', k)
    requires Rank(t, p, k) == Rank(t, p', k)
    ensures p == p'
  {
    if p < p' {
      RankMonotone(t, p, p', k);
    } else if p' < p {
      RankMonotone(t, p', p, k);
    }
  }

  lemma StreamIndexInjective(t: Columns, q: nat, q': nat, k: nat)
    requires Inverse(t)
    requires q < k && q' < k && StreamIndex(t, q, k) == StreamIndex(t, q', k)
    ensures q == q'
  {
    SymbolPlaceCell(t, q, k);
    SymbolPlaceCell(t, q', k);
    RankInjective(t, SymbolPlace(t, q, k), SymbolPlace(t, q', k), k);
    SymbolPlaceInjective(t, q, q', k);
  }

  // -------------------------------------------------- what the two sides compute

  /** No symbol is mistaken for a dummy. */
  predicate Clean(x: seq<int>) {
    forall i :: 0 <= i < |x| ==> x[i] != DUMMYBIT
  }

  /** A subblock after interleaving, dummies included. */
  function Interleaved(t: Columns, x: seq<int>): (y: seq<int>)
    requires Inverse(t)
    requires |x| > 0
    ensures |y| == 32 * Rows(|x|)
  {
    seq(32 * Rows(|x|), p requires 0 <= p < 32 * Rows(|x|) =>
      CellThenPlace(t, p, Rows(|x|));
      if IsDummy(t, p, |x|) then DUMMYBIT else x[Cell(t, p, Rows(|x|)) - Dummies(|x|)])
  }

  /** The symbols without the dummies, in order. */
  function NonDummies(s: seq<int>): (r: seq<int>)
    ensures |r| <= |s|
    ensures Clean(r)
  {
    if s == [] then [] else NonDummies(s[..|s| - 1]) + if s[|s| - 1] == DUMMYBIT then [] else [s[|s| - 1]]
  }

  lemma {:induction false} NonDummiesConcat(a: seq<int>, b: seq<int>)
    ensures NonDummies(a + b) == NonDummies(a) + NonDummies(b)
    decreases |b|
  {
    if b == [] {
      assert a + b == a;
    } else {
      assert (a + b)[..|a + b| - 1] == a + b[..|b| - 1];
      NonDummiesConcat(a, b[..|b| - 1]);
    }
  }

  lemma FilterNext(y: seq<int>, p: nat)
    requires 0 < p <= |y|
    ensures |NonDummies(y[..p])| == |NonDummies(y[..p - 1])| + if y[p - 1] == DUMMYBIT then 0 else 1
  {
    assert y[..p][..p - 1] == y[..p - 1];
  }

  /** In a block without dummies of its own, the dummies are those of the padding. */
  lemma DummyPositions(t: Columns, x: seq<int>, p: nat)
    requires Inverse(t)
    requires |x| > 0 && Clean(x) && p < 32 * Rows(|x|)
    ensures Interleaved(t, x)[p] == DUMMYBIT <==> IsDummy(t, p, |x|)
  {
    CellThenPlace(t, p, Rows(|x|));
  }

  lemma {:induction false} FilteredRank(t: Columns, x: seq<int>, p: nat)
    requires Inverse(t)
    requires |x| > 0 && Clean(x) && p <= 32 * Rows(|x|)
    ensures |NonDummies(Interleaved(t, x)[..p])| == Rank(t, p, |x|)
  {
    if p > 0 {
      FilteredRank(t, x, p - 1);
      FilterNext(Interleaved(t, x), p);
      DummyPositions(t, x, p - 1);
    }
  }

  lemma FilterSplit(y: seq<int>, p: nat)
    requires p < |y| && y[p] != DUMMYBIT
    ensures |NonDummies(y[..p])| < |NonDummies(y)|
    ensures NonDummies(y)[|NonDummies(y[..p])|] == y[p]
  {
    assert y == y[..p] + [y[p]] + y[p + 1..];
    NonDummiesConcat(y[..p] + [y[p]], y[p + 1..]);
    NonDummiesConcat(y[..p], [y[p]]);
    assert [y[p]][..0] == [];
    assert NonDummies([y[p]]) == [y[p]];
  }

  lemma FilteredLength(t: Columns, x: seq<int>)
    requires Inverse(t)
    requires |x| > 0 && Clean(x)
    ensures |NonDummies(Interleaved(t, x))| == |x|
  {
    var y := Interleaved(t, x);
    FilteredRank(t, x, |y|);
    RankTotal(t, |x|);
    assert y[..|y|] == y;
  }

  lemma InterleavedAt(t: Columns, x: seq<int>, q: nat)
    requires Inverse(t)
    requires q < |x|
    ensures Interleaved(t, x)[SymbolPlace(t, q, |x|)] == x[q]
  {
    SymbolPlaceCell(t, q, |x|);
  }

  /** Interleaving sends symbol q to its stream index. */
  lemma InterleavedStream(t: Columns, x: seq<int>, q: nat)
    requires Inverse(t)
    requires Clean(x) && q < |x|
    ensures |NonDummies(Interleaved(t, x))| == |x| && StreamIndex(t, q, |x|) < |x|
    ensures NonDummies(Interleaved(t, x))[StreamIndex(t, q, |x|)] == x[q]
  {
    var y, p := Interleaved(t, x), SymbolPlace(t, q, |x|);
    InterleavedAt(t, x, q);
    FilteredLength(t, x);
    FilteredRank(t, x, p);
    FilterSplit(y, p);
  }

  /** One of the three interlaced streams of `k` symbols each. */
  function Stream<T>(x: seq<T>, k: nat, s: nat): (r: seq<T>)
    requires |x| == 3 * k && s < 3
    ensures |r| == k
  {
    seq(k, i requires 0 <= i < k => x[3 * i + s])
  }

  /** Bit collection: the three interleaved subblocks one after the other. */
  function Collection(t: Columns, x: seq<int>, k: nat): (w: seq<int>)
    requires Inverse(t)
    requires |x| == 3 * k && k > 0
    ensures |w| == 3 * (32 * Rows(k))
  {
    Interleaved(t, Stream(x, k, 0)) + Interleaved(t, Stream(x, k, 1)) + Interleaved(t, Stream(x, k, 2))
  }

  /** The index in the transmitted sequence at which symbol `q` of stream `s` first travels. */
  function SentAt(t: Columns, q: nat, s: nat, k: nat): nat
    requires Inverse(t)
    requires q < k && s < 3
  {
    StreamIndex(t, q, k) + if s == 0 then 0 else if s == 1 then k else 2 * k
  }

  /** The transmitted symbols, each once. */
  function Sent(t: Columns, x: seq<int>, k: nat): (z: seq<int>)
    requires Inverse(t)
    requires |x| == 3 * k && k > 0
  {
    NonDummies(Collection(t, x, k))
  }

  lemma SentParts(t: Columns, x: seq<int>, k: nat)
    requires Inverse(t)
    requires |x| == 3 * k && k > 0
    ensures Sent(t, x, k) == NonDummies(Interleaved(t, Stream(x, k, 0))) + NonDummies(Interleaved(t, Stream(x, k, 1))) + NonDummies(Interleaved(t, Stream(x, k, 2)))
  {
    var y0, y1, y2 := Interleaved(t, Stream(x, k, 0)), Interleaved(t, Stream(x, k, 1)), Interleaved(t, Stream(x, k, 2));
    NonDummiesConcat(y0 + y1, y2);
    NonDummiesConcat(y0, y1);
  }

  lemma StreamLength(t: Columns, x: seq<int>, k: nat, s: nat)
    requires Inverse(t)
    requires |x| == 3 * k && Clean(x) && k > 0 && s < 3
    ensures |NonDummies(Interleaved(t, Stream(x, k, s)))| == k
  {
    FilteredLength(t, Stream(x, k, s));
  }

  lemma SentLength(t: Columns, x: seq<int>, k: nat)
    requires Inverse(t)
    requires |x| == 3 * k && Clean(x) && k > 0
    ensures |Sent(t, x, k)| == 3 * k
  {
    SentParts(t, x, k);
    StreamLength(t, x, k, 0);
    StreamLength(t, x, k, 1);
    StreamLength(t, x, k, 2);
  }

  lemma PartAt(z0: seq<int>, z1: seq<int>, z2: seq<int>, k: nat, s: nat, i: nat)
    requires |z0| == |z1| == |z2| == k && i < k && s < 3
    ensures (z0 + z1 + z2)[i + if s == 0 then 0 else if s == 1 then k else 2 * k]
         == (if s == 0 then z0 else if s == 1 then z1 else z2)[i]
  {
  }

  lemma SentPart(t: Columns, x: seq<int>, k: nat, s: nat, i: nat)
    requires Inverse(t)
    requires |x| == 3 * k && Clean(x) && s < 3 && i < k
    ensures |Sent(t, x, k)| == 3 * k && |NonDummies(Interleaved(t, Stream(x, k, s)))| == k
    ensures Sent(t, x, k)[i + if s == 0 then 0 else if s == 1 then k else 2 * k] == NonDummies(Interleaved(t, Stream(x, k, s)))[i]
  {
    SentParts(t, x, k);
    StreamLength(t, x, k, 0);
    StreamLength(t, x, k, 1);
    StreamLength(t, x, k, 2);
    PartAt(NonDummies(Interleaved(t, Stream(x, k, 0))), NonDummies(Interleaved(t, Stream(x, k, 1))),
           NonDummies(Interleaved(t, Stream(x, k, 2))), k, s, i);
  }

  lemma StreamSymbol(t: Columns, x: seq<int>, k: nat, q: nat, s: nat)
    requires Inverse(t)
    requires |x| == 3 * k && Clean(x) && q < k && s < 3
    ensures |NonDummies(Interleaved(t, Stream(x, k, s)))| == k && StreamIndex(t, q, k) < k
    ensures NonDummies(Interleaved(t, Stream(x, k, s)))[StreamIndex(t, q, k)] == x[3 * q + s]
  {
    InterleavedStream(t, Stream(x, k, s), q);
  }

  /** Symbol `q` of stream `s` travels at its index. */
  lemma SentSymbol(t: Columns, x: seq<int>, k: nat, q: nat, s: nat)
    requires Inverse(t)
    requires |x| == 3 * k && Clean(x) && q < k && s < 3
    ensures |Sent(t, x, k)| == 3 * k && SentAt(t, q, s, k) < 3 * k
    ensures Sent(t, x, k)[SentAt(t, q, s, k)] == x[3 * q + s]
  {
    StreamSymbol(t, x, k, q, s);
    SentPart(t, x, k, s, StreamIndex(t, q, k));
  }

  /** What the transmitter sends: the collected symbols, repeated or cut to `e` of them. */
  function Matched(t: Columns, x: seq<int>, k: nat, e: nat): (r: seq<int>)
    requires Inverse(t)
    requires |x| == 3 * k && k > 0 && |Sent(t, x, k)| == 3 * k
    ensures |r| == e
  {
    seq(e, i requires 0 <= i < e => Sent(t, x, k)[i % (3 * k)])
  }

  /** What the receiver makes of a received sequence: every symbol from where it first travels, or zero if it never arrived. */
  function Unmatched(t: Columns, e: seq<real>, k: nat): (r: seq<real>)
    requires Inverse(t)
    ensures |r| == 3 * k
  {
    seq(3 * k, n requires 0 <= n < 3 * k =>
      var i := SentAt(t, n / 3, n % 3, k);
      if i < |e| then e[i] else 0.0)
  }

  function ToReals(s: seq<int>): (r: seq<real>)
    ensures |r| == |s|
  {
    seq(|s|, i requires 0 <= i < |s| => s[i] as real)
  }

  // ---------------------------------------------------------------- main results

  lemma UnmatchedAt(t: Columns, e: seq<real>, k: nat, q: nat, s: nat, i: nat)
    requires Inverse(t)
    requires q < k && s < 3 && i == SentAt(t, q, s, k)
    ensures Unmatched(t, e, k)[3 * q + s] == if i < |e| then e[i] else 0.0
  {
    assert (3 * q + s) / 3 == q && (3 * q + s) % 3 == s;
  }

  lemma MatchedAt(t: Columns, x: seq<int>, k: nat, e: nat, i: nat)
    requires Inverse(t)
    requires |x| == 3 * k && k > 0 && |Sent(t, x, k)| == 3 * k && i < e && i < 3 * k
    ensures ToReals(Matched(t, x, k, e))[i] == Sent(t, x, k)[i] as real
  {
    Arith.Unique(i, 0, i, 3 * k);
  }

  /** An input symbol that was sent comes back, and one that was not is zero. */
  lemma ReceivedSymbol(t: Columns, x: seq<int>, k: nat, e: nat, q: nat, s: nat)
    requires Inverse(t)
    requires |x| == 3 * k && Clean(x) && q < k && s < 3
    ensures |Sent(t, x, k)| == 3 * k
    ensures Unmatched(t, ToReals(Matched(t, x, k, e)), k)[3 * q + s] == if SentAt(t, q, s, k) < e then x[3 * q + s] as real else 0.0
  {
    var i := SentAt(t, q, s, k);
    SentSymbol(t, x, k, q, s);
    UnmatchedAt(t, ToReals(Matched(t, x, k, e)), k, q, s, i);
    if i < e {
      MatchedAt(t, x, k, e, i);
    }
  }

  lemma ReturnedSymbol(t: Columns, x: seq<int>, k: nat, e: nat, q: nat, s: nat)
    requires Inverse(t)
    requires |x| == 3 * k && Clean(x) && q < k && s < 3 && e >= 3 * k
    ensures |Sent(t, x, k)| == 3 * k
    ensures Unmatched(t, ToReals(Matched(t, x, k, e)), k)[3 * q + s] == ToReals(x)[3 * q + s]
  {
    SentSymbol(t, x, k, q, s);
    ReceivedSymbol(t, x, k, e, q, s);
  }

  /** Receiving inverts sending: if at least as many symbols are sent as there are, every input comes back. */
  lemma RoundTrip(t: Columns, x: seq<int>, k: nat, e: nat)
    requires Inverse(t)
    requires |x| == 3 * k && k > 0 && Clean(x) && e >= 3 * k
    ensures |Sent(t, x, k)| == 3 * k
    ensures Unmatched(t, ToReals(Matched(t, x, k, e)), k) == ToReals(x)
  {
    SentLength(t, x, k);
    var back, forth := Unmatched(t, ToReals(Matched(t, x, k, e)), k), ToReals(x);
    forall n | 0 <= n < 3 * k ensures back[n] == forth[n] {
      var q, s := n / 3, n % 3;
      ReturnedSymbol(t, x, k, e, q, s);
      assert n == 3 * q + s;
    }
  }

  /** The index at which input symbol number `n` first travels. */
  function FirstSent(t: Columns, n: nat, k: nat): nat
    requires Inverse(t)
    requires n < 3 * k
  {
    SentAt(t, n / 3, n % 3, k)
  }

  lemma FirstSentInjective(t: Columns, n: nat, n': nat, k: nat)
    requires Inverse(t)
    requires n < 3 * k && n' < 3 * k && FirstSent(t, n, k) == FirstSent(t, n', k)
    ensures n == n'
  {
    StreamIndexRange(t, n / 3, k);
    StreamIndexRange(t, n' / 3, k);
    assert n % 3 == n' % 3;
    StreamIndexInjective(t, n / 3, n' / 3, k);
  }

  lemma FirstSentRange(t: Columns, n: nat, k: nat)
    requires Inverse(t)
    requires n < 3 * k
    ensures FirstSent(t, n, k) < 3 * k
  {
    StreamIndexRange(t, n / 3, k);
  }

  ghost function SentMap(t: Columns, k: nat): nat -> nat
    requires Inverse(t)
  {
    (n: nat) => if n < 3 * k then FirstSent(t, n, k) else 0
  }

  lemma SentMapInjective(t: Columns, k: nat)
    requires Inverse(t)
    ensures Arith.InjectiveBelow(SentMap(t, k), 3 * k)
  {
    forall n: nat, n': nat | n < 3 * k && n' < 3 * k && SentMap(t, k)(n) == SentMap(t, k)(n') ensures n == n' {
      FirstSentInjective(t, n, n', k);
    }
  }

  /** The input symbols that arrive when `e` symbols are sent. */
  ghost function Arriving(t: Columns, e: nat, k: nat): set<nat>
    requires Inverse(t)
  {
    set n: nat | n < 3 * k && FirstSent(t, n, k) < e
  }

  /** When fewer than all symbols are sent, exactly as many positions carry their original value as were sent. */
  lemma ArrivingCount(t: Columns, e: nat, k: nat)
    requires Inverse(t)
    requires e <= 3 * k
    ensures |Arriving(t, e, k)| == e
  {
    forall n: nat | n < 3 * k ensures SentMap(t, k)(n) < 3 * k {
      FirstSentRange(t, n, k);
    }
    SentMapInjective(t, k);
    Arith.PreimageCount(SentMap(t, k), 3 * k, e);
    assert Arriving(t, e, k) == Arith.Preimage(SentMap(t, k), 3 * k, e);
  }

  /** All that arrives: the symbols whose first place is among the `e` sent ones, and zero for the others. */
  function Delivered(t: Columns, x: seq<int>, k: nat, e: nat): (r: seq<real>)
    requires Inverse(t)
    requires |x| == 3 * k
    ensures |r| == 3 * k
  {
    seq(3 * k, n requires 0 <= n < 3 * k => if FirstSent(t, n, k) < e then x[n] as real else 0.0)
  }

  /** The receiver's output for any number of symbols sent. */
  lemma ChannelDelivers(t: Columns, x: seq<int>, k: nat, e: nat)
    requires Inverse(t)
    requires |x| == 3 * k && k > 0 && Clean(x)
    ensures |Sent(t, x, k)| == 3 * k
    ensures Unmatched(t, ToReals(Matched(t, x, k, e)), k) == Delivered(t, x, k, e)
  {
    SentLength(t, x, k);
    var back, forth := Unmatched(t, ToReals(Matched(t, x, k, e)), k), Delivered(t, x, k, e);
    forall n | 0 <= n < 3 * k ensures back[n] == forth[n] {
      var q, s := n / 3, n % 3;
      ReceivedSymbol(t, x, k, e, q, s);
      assert n == 3 * q + s;
    }
  }

  /** As many positions arrive as are sent, up to all of them. */
  lemma ArrivingTotal(t: Columns, e: nat, k: nat)
    requires Inverse(t)
    ensures |Arriving(t, e, k)| == if e < 3 * k then e else 3 * k
  {
    ArrivingCount(t, if e < 3 * k then e else 3 * k, k);
    if e >= 3 * k {
      forall n: nat | n < 3 * k ensures FirstSent(t, n, k) < 3 * k {
        FirstSentRange(t, n, k);
      }
      assert Arriving(t, e, k) == Arriving(t, 3 * k, k);
    }
  }

  lemma BlockSendsSomething(t: Columns, block: seq<int>, q: nat)
    requires Inverse(t)
    requires q < |block| && block[q] != DUMMYBIT
    ensures NonDummies(Interleaved(t, block)) != []
  {
    InterleavedAt(t, block, q);
    FilterSplit(Interleaved(t, block), SymbolPlace(t, q, |block|));
  }

  /** One symbol that is not a dummy is enough for something to be sent. */
  lemma SomethingSent(t: Columns, x: seq<int>, k: nat, n: nat)
    requires Inverse(t)
    requires |x| == 3 * k && n < 3 * k && x[n] != DUMMYBIT
    ensures Sent(t, x, k) != []
  {
    BlockSendsSomething(t, Stream(x, k, n % 3), n / 3);
    SentParts(t, x, k);
  }
}
