/**
The order in which the control rate matcher sends its symbols, told without the
matrix: by the column and row of each symbol and the bit-reversed order of the
columns. The operations of the repository, with the repository's own tables, are
stated in these terms.
*/
module RateOrder {
  import Arith
  import opened RateMatching
  import opened RateMatcher

  // ------------------------------------------------------------------- the tables

  /** A five-bit number by its bits, the most significant first. */
  function Number(a: bool, b: bool, c: bool, d: bool, e: bool): (v: nat)
    ensures v < 32
  {
    (if a then 16 else 0) + (if b then 8 else 0) + (if c then 4 else 0) + (if d then 2 else 0) + (if e then 1 else 0)
  }

  lemma HalfTurn(a: bool, b: bool, c: bool, d: bool, e: bool)
    ensures (Number(a, b, c, d, e) + 16) % 32 == Number(!a, b, c, d, e)
  {
  }

  lemma PermOfBits(a: bool, b: bool, c: bool, d: bool, e: bool)
    ensures PERM[Number(a, b, c, d, e)] == Number(e, d, c, b, !a)
  {
  }

  /** The columns are read in bit-reversed order, beginning in its middle. */
  lemma PermIsReversal(a: bool, b: bool, c: bool, d: bool, e: bool)
    ensures PERM[(Number(a, b, c, d, e) + 16) % 32] == Number(e, d, c, b, a)
  {
    HalfTurn(a, b, c, d, e);
    PermOfBits(!a, b, c, d, e);
  }

  /** Where a column stands in that order. */
  lemma PdIsReversal(a: bool, b: bool, c: bool, d: bool, e: bool)
    ensures PD[Number(e, d, c, b, a)] == (Number(a, b, c, d, e) + 16) % 32
  {
    PermIsReversal(a, b, c, d, e);
    TablesInverseAt((Number(a, b, c, d, e) + 16) % 32);
  }

  /** Every column has its five bits. */
  lemma NumberCovers(v: nat) returns (a: bool, b: bool, c: bool, d: bool, e: bool)
    requires v < 32
    ensures v == Number(a, b, c, d, e)
  {
    var rest := v;
    a := rest >= 16;
    rest := if a then rest - 16 else rest;
    b := rest >= 8;
    rest := if b then rest - 8 else rest;
    c := rest >= 4;
    rest := if c then rest - 4 else rest;
    d := rest >= 2;
    e := rest == 3 || rest == 1;
  }

  // -------------------------------------------------------------------- the order

  /** The padding that completes the last of the rows of 32. */
  function Padding(k: nat): (d: nat)
    ensures d < 32 && (k + d) % 32 == 0
  {
    (32 - k % 32) % 32
  }

  /** Symbol `q'` of a block is sent before symbol `q`: its column is read earlier, or it stands above it in the same column. */
  predicate Precedes(t: Columns, q': nat, q: nat, k: nat)
    requires Inverse(t)
  {
    var col', col := (q' + Padding(k)) % 32, (q + Padding(k)) % 32;
    t.inv[col'] < t.inv[col] || (col' == col && q' < q)
  }

  /** The symbols of a block that are sent before symbol `q`. */
  ghost function Ahead(t: Columns, q: nat, k: nat): set<nat>
    requires Inverse(t)
  {
    set q': nat | q' < k && Precedes(t, q', q, k)
  }

  lemma PlaceOrder(a: nat, i: nat, b: nat, j: nat, rows: nat)
    requires i < rows && j < rows
    ensures a * rows + i < b * rows + j <==> a < b || (a == b && i < j)
  {
    if a < b {
      Arith.MulMonotone(a + 1, b, rows);
      Arith.Distribute(a, 1, rows);
    } else if b < a {
      Arith.MulMonotone(b + 1, a, rows);
      Arith.Distribute(b, 1, rows);
    }
  }

  lemma PaddingIsDummies(k: nat)
    requires k > 0
    ensures Padding(k) == Dummies(k)
  {
  }

  lemma SymbolPlaceOrder(t: Columns, q': nat, q: nat, k: nat)
    requires Inverse(t) && q' < k && q < k
    ensures SymbolPlace(t, q', k) < SymbolPlace(t, q, k) <==> Precedes(t, q', q, k)
  {
    PaddingIsDummies(k);
    var c', c, rows := q' + Dummies(k), q + Dummies(k), Rows(k);
    PlaceOrder(t.inv[c' % 32], c' / 32, t.inv[c % 32], c / 32, rows);
    assert t.perm[t.inv[c' % 32]] == c' % 32 && t.perm[t.inv[c % 32]] == c % 32;
    assert c' % 32 == c % 32 ==> (c' / 32 < c / 32 <==> q' < q);
  }

  lemma IndexOrder(t: Columns, q': nat, q: nat, k: nat)
    requires Inverse(t) && q' < k && q < k
    ensures StreamIndex(t, q', k) < StreamIndex(t, q, k) <==> SymbolPlace(t, q', k) < SymbolPlace(t, q, k)
  {
    SymbolPlaceCell(t, q', k);
    SymbolPlaceCell(t, q, k);
    var p', p := SymbolPlace(t, q', k), SymbolPlace(t, q, k);
    if p' < p {
      RankMonotone(t, p', p, k);
    } else if p < p' {
      RankMonotone(t, p, p', k);
    }
  }

  ghost function IndexMap(t: Columns, k: nat): nat -> nat
    requires Inverse(t)
  {
    (q: nat) => if q < k then StreamIndex(t, q, k) else 0
  }

  lemma IndexMapOneToOne(t: Columns, k: nat)
    requires Inverse(t)
    ensures Arith.InjectiveBelow(IndexMap(t, k), k) && forall q: nat :: q < k ==> IndexMap(t, k)(q) < k
  {
    forall q: nat | q < k ensures IndexMap(t, k)(q) < k {
      StreamIndexRange(t, q, k);
    }
    forall q: nat, q': nat | q < k && q' < k && IndexMap(t, k)(q) == IndexMap(t, k)(q') ensures q == q' {
      StreamIndexInjective(t, q, q', k);
    }
  }

  /** A symbol travels at the place that the number of symbols before it says. */
  lemma StreamIndexIsAhead(t: Columns, q: nat, k: nat)
    requires Inverse(t) && q < k
    ensures StreamIndex(t, q, k) == |Ahead(t, q, k)|
  {
    var f, e := IndexMap(t, k), StreamIndex(t, q, k);
    IndexMapOneToOne(t, k);
    StreamIndexRange(t, q, k);
    Arith.PreimageCount(f, k, e);
    forall q': nat | q' < k ensures f(q') < e <==> Precedes(t, q', q, k) {
      IndexOrder(t, q', q, k);
      SymbolPlaceOrder(t, q', q, k);
    }
    assert Ahead(t, q, k) == Arith.Preimage(f, k, e);
  }

  /** Where input symbol `n` of 3k is first sent: its stream's turn, and the symbols before it there. */
  ghost function Turn(t: Columns, n: nat, k: nat): nat
    requires Inverse(t)
  {
    (if n % 3 == 0 then 0 else if n % 3 == 1 then k else 2 * k) + |Ahead(t, n / 3, k)|
  }

  lemma TurnIsFirstSent(t: Columns, n: nat, k: nat)
    requires Inverse(t) && n < 3 * k
    ensures Turn(t, n, k) == FirstSent(t, n, k) < 3 * k
  {
    StreamIndexIsAhead(t, n / 3, k);
    FirstSentRange(t, n, k);
  }

  /** The symbols, each at its turn. */
  lemma SentInTurn(t: Columns, x: seq<int>, k: nat, n: nat)
    requires Inverse(t) && |x| == 3 * k && Clean(x) && n < 3 * k
    ensures |Sent(t, x, k)| == 3 * k && Turn(t, n, k) < 3 * k && Sent(t, x, k)[Turn(t, n, k)] == x[n]
  {
    TurnIsFirstSent(t, n, k);
    SentSymbol(t, x, k, n / 3, n % 3);
    assert n == 3 * (n / 3) + n % 3;
  }

  // ------------------------------------------- the operations with the LTE tables

  /** The tables of the source. */
  function Lte(): (t: Columns)
    ensures t.perm == PERM && t.inv == PD && Inverse(t)
  {
    TablesInverse();
    Columns(PERM, PD)
  }

  /** What the transmitter owes: every input symbol in its turn, round after round. */
  ghost predicate InTurn(t: Columns, input: seq<int>, output: seq<int>, k: nat)
    requires Inverse(t) && |input| == 3 * k && k > 0
  {
    forall n: nat, i: nat {:trigger input[n], output[i]} ::
      n < |input| && i < |output| && i % (3 * k) == Turn(t, n, k) ==> output[i] == input[n]
  }

  lemma MatchedInTurn(t: Columns, x: seq<int>, k: nat, e: nat)
    requires Inverse(t) && |x| == 3 * k && k > 0 && Clean(x)
    ensures |Sent(t, x, k)| == 3 * k && InTurn(t, x, Matched(t, x, k, e), k)
  {
    SentLength(t, x, k);
    var m := Matched(t, x, k, e);
    forall n: nat, i: nat | n < |x| && i < |m| && i % (3 * k) == Turn(t, n, k) ensures m[i] == x[n] {
      SentInTurn(t, x, k, n);
    }
  }

  /** Every place of a round is the turn of one symbol. */
  lemma TurnOfPlace(t: Columns, k: nat, place: nat) returns (n: nat)
    requires Inverse(t) && place < 3 * k
    ensures n < 3 * k && Turn(t, n, k) == place
  {
    SentMapInjective(t, k);
    forall i: nat | i < 3 * k ensures SentMap(t, k)(i) < 3 * k {
      FirstSentRange(t, i, k);
    }
    n := Arith.InImage(SentMap(t, k), 3 * k, place);
    TurnIsFirstSent(t, n, k);
  }

  /** No symbol has the value that stands for a dummy. */
  predicate NoTwos(x: seq<int>) {
    forall i :: 0 <= i < |x| ==> x[i] != 2
  }

  /** `rate_matching`, with the column order of the source. */
  method RateMatchLte(input: array<int>, output: array<int>, inL: nat, e: nat)
    requires input != output && inL <= input.Length && e <= output.Length
    requires e > 0 ==> exists n :: 0 <= n < 3 * (inL / 3) && input[n] != 2
    modifies output
    ensures var k := inL / 3; k > 0 && NoTwos(input[..3 * k]) ==> InTurn(Lte(), input[..3 * k], output[..e], k)
    ensures output[e..] == old(output[e..])
  {
    RateMatch(Lte(), input, output, inL, e);
    ghost var k := inL / 3;
    if k > 0 && NoTwos(input[..3 * k]) {
      MatchedInTurn(Lte(), input[..3 * k], k, e);
    }
  }

  /** What the receiver owes: every symbol from its turn, or zero if that is not among the received ones. */
  ghost predicate FromTurn(t: Columns, input: seq<real>, output: seq<real>, k: nat)
    requires Inverse(t)
  {
    && |output| == 3 * k
    && forall n: nat {:trigger output[n]} :: n < |output| ==>
      output[n] == if Turn(t, n, k) < |input| then input[Turn(t, n, k)] else 0.0
  }

  lemma UnmatchedFromTurn(t: Columns, e: seq<real>, k: nat)
    requires Inverse(t)
    ensures FromTurn(t, e, Unmatched(t, e, k), k)
  {
    var u := Unmatched(t, e, k);
    forall n: nat | n < |u| ensures u[n] == if Turn(t, n, k) < |e| then e[Turn(t, n, k)] else 0.0 {
      TurnIsFirstSent(t, n, k);
    }
  }

  /** `rate_unmatching`, with the column order of the source. */
  method RateUnmatchLte(input: array<real>, output: array<real>, inL: nat, s: nat) returns (outL: nat)
    requires input != output && inL <= input.Length && s <= output.Length
    modifies output
    ensures outL == 3 * (s / 3) && FromTurn(Lte(), input[..inL], output[..outL], s / 3)
    ensures output[outL..] == old(output[outL..])
  {
    outL := RateUnmatch(Lte(), input, output, inL, s);
    UnmatchedFromTurn(Lte(), input[..inL], s / 3);
  }

  /** The two operations of the source, one after the other. */
  method MatchThenUnmatchLte(input: array<int>, e: nat) returns (output: array<real>)
    requires 3 <= input.Length && input.Length % 3 == 0 && NoTwos(input[..])
    ensures output.Length == input.Length
    ensures forall n: nat {:trigger output[n]} :: n < input.Length ==>
      output[n] == if Turn(Lte(), n, input.Length / 3) < e then input[n] as real else 0.0
  {
    output := MatchThenUnmatch(Lte(), input, e);
    var k := input.Length / 3;
    assert |output[..]| == |input[..]|;
    forall n: nat | n < input.Length ensures output[n] == if Turn(Lte(), n, k) < e then input[n] as real else 0.0 {
      TurnIsFirstSent(Lte(), n, k);
      assert output[n] == output[..][n] == Delivered(Lte(), input[..], k, e)[n];
    }
  }

  lemma FirstColumn(t: Columns, k: nat)
    requires Inverse(t) && t.inv[1] == 0 && k == 32
    ensures Turn(t, 3, k) == 0
  {
    assert Padding(k) == 0;
    forall q': nat | q' < k ensures !Precedes(t, q', 1, k) {
      assert t.perm[t.inv[q']] == q';
    }
    assert Ahead(t, 1, k) == {};
  }

  /** Of 96 symbols, number 3 is sent first. */
  lemma FirstOfMany(k: nat)
    requires k == 32
    ensures Turn(Lte(), 3, k) == 0
  {
    TablesInverseAt(0);
    FirstColumn(Lte(), k);
  }
}
