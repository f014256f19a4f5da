/** The tables of modrep_osld/gen_soft_demod/src/soft_demod_tables.c. */
module DemapperTables {
  import Arith
  import opened ConvCode
  import opened Demapper

  // ------------------------------------------------------------- symbols by their bits

  /** The index matrix lists, for every bit place and value, the symbols with that bit. */
  ghost predicate HoldsIndex(mod: Modulation, index: array3<nat>)
    reads index
  {
    && index.Length0 == 2 && index.Length1 == 6 && index.Length2 == 32
    && forall b: nat :: b < BitsPerSymbol(mod) ==> HoldsPlace(mod, index, b)
  }

  ghost predicate HoldsPlace(mod: Modulation, index: array3<nat>, b: nat)
    requires index.Length0 == 2 && index.Length1 == 6 && index.Length2 == 32 && b < BitsPerSymbol(mod)
    reads index
  {
    HoldsRow(index, b, Pow2(BitsPerSymbol(mod) - 1 - b), Pow2(BitsPerSymbol(mod) - 1))
  }

  /** The first `n` entries for bit place `b` have their bit at weight `w`. */
  ghost predicate HoldsRow(index: array3<nat>, b: nat, w: nat, n: nat)
    requires index.Length0 == 2 && index.Length1 == 6 && index.Length2 == 32 && b < 6
    reads index
  {
    w > 0 && n <= 32 && forall c: nat, k: nat :: c < 2 && k < n ==> index[c, b, k] == InsertBit(k, w, c)
  }

  lemma InsertBitIn(i: nat, j: nat, w: nat, c: nat)
    requires i < w
    ensures InsertBit(j * w + i, w, c) == i + c * w + 2 * (j * w)
  {
    Arith.Unique(j * w + i, j, i, w);
    Arith.Distribute(2 * j, c, w);
    assert (2 * j) * w == 2 * (j * w);
  }

  /** One run: `w` symbols without and with the bit, from entry `at` on. */
  method FillRun(index: array3<nat>, b: nat, w: nat, ghost j: nat, at: nat)
    requires index.Length0 == 2 && index.Length1 == 6 && index.Length2 == 32 && b < 6 && w > 0 && at + w <= 32
    requires at == j * w && HoldsRow(index, b, w, at)
    modifies index
    ensures HoldsRow(index, b, w, at + w)
    ensures forall c, b', k :: 0 <= c < 2 && 0 <= b' < 6 && 0 <= k < 32 && b' != b ==> index[c, b', k] == old(index[c, b', k])
  {
    var i := 0;
    while i < w
      invariant 0 <= i <= w
      invariant HoldsRow(index, b, w, at + i)
      invariant forall c, b', k :: 0 <= c < 2 && 0 <= b' < 6 && 0 <= k < 32 && b' != b ==> index[c, b', k] == old(index[c, b', k])
    {
      InsertBitIn(i, j, w, 0);
      InsertBitIn(i, j, w, 1);
      index[0, b, at + i] := i + 2 * at;
      index[1, b, at + i] := i + w + 2 * at;
      i := i + 1;
    }
  }

  /** Lists `groups` runs of `w` symbols without and with the bit. */
  method FillRow(index: array3<nat>, b: nat, w: nat, groups: nat)
    requires index.Length0 == 2 && index.Length1 == 6 && index.Length2 == 32 && b < 6 && w > 0 && groups * w <= 32
    modifies index
    ensures HoldsRow(index, b, w, groups * w)
    ensures forall b': nat, w': nat, n: nat :: b' < 6 && b' != b && old(HoldsRow(index, b', w', n)) ==> HoldsRow(index, b', w', n)
  {
    var j, at := 0, 0;
    while j < groups
      invariant 0 <= j <= groups && at == j * w
      invariant HoldsRow(index, b, w, at)
      invariant forall c, b', k :: 0 <= c < 2 && 0 <= b' < 6 && 0 <= k < 32 && b' != b ==> index[c, b', k] == old(index[c, b', k])
    {
      Arith.MulMonotone(j + 1, groups, w);
      Arith.Distribute(j, 1, w);
      FillRun(index, b, w, j, at);
      j, at := j + 1, at + w;
    }
  }

  lemma Powers()
    ensures Pow2(0) == 1 && Pow2(1) == 2 && Pow2(2) == 4 && Pow2(3) == 8 && Pow2(4) == 16 && Pow2(5) == 32 && Pow2(6) == 64
  {
  }

  method SetBpskIndex(index: array3<nat>)
    requires index.Length0 == 2 && index.Length1 == 6 && index.Length2 == 32
    modifies index
    ensures HoldsIndex(BPSK, index)
  {
    Powers();
    FillRow(index, 0, 1, 1);
    assert HoldsPlace(BPSK, index, 0);
  }

  method SetQpskIndex(index: array3<nat>)
    requires index.Length0 == 2 && index.Length1 == 6 && index.Length2 == 32
    modifies index
    ensures HoldsIndex(QPSK, index)
  {
    Powers();
    FillRow(index, 0, 2, 1);
    FillRow(index, 1, 1, 2);
    assert HoldsPlace(QPSK, index, 0) && HoldsPlace(QPSK, index, 1);
  }

  method SetQam16Index(index: array3<nat>)
    requires index.Length0 == 2 && index.Length1 == 6 && index.Length2 == 32
    modifies index
    ensures HoldsIndex(QAM16, index)
  {
    Powers();
    FillRow(index, 0, 8, 1);
    FillRow(index, 1, 4, 2);
    FillRow(index, 2, 2, 4);
    FillRow(index, 3, 1, 8);
    assert HoldsPlace(QAM16, index, 0) && HoldsPlace(QAM16, index, 1) && HoldsPlace(QAM16, index, 2) && HoldsPlace(QAM16, index, 3);
  }

  method SetQam64Index(index: array3<nat>)
    requires index.Length0 == 2 && index.Length1 == 6 && index.Length2 == 32
    modifies index
    ensures HoldsIndex(QAM64, index)
  {
    Powers();
    FillRow(index, 0, 32, 1);
    FillRow(index, 1, 16, 2);
    FillRow(index, 2, 8, 4);
    FillRow(index, 3, 4, 8);
    FillRow(index, 4, 2, 16);
    FillRow(index, 5, 1, 32);
    assert HoldsPlace(QAM64, index, 0) && HoldsPlace(QAM64, index, 1) && HoldsPlace(QAM64, index, 2);
    assert HoldsPlace(QAM64, index, 3) && HoldsPlace(QAM64, index, 4) && HoldsPlace(QAM64, index, 5);
  }

  // ------------------------------------------------------------------ constellations

  /** The first `n` entries are the points with the labels 0, 1, ... */
  ghost predicate HoldsPoints(mod: Modulation, u: real, table: seq<Complex>, n: nat) {
    n <= |table| && forall i: nat :: i < n ==> table[i] == Point(mod, u, Bits(i, BitsPerSymbol(mod)))
  }

  ghost predicate HoldsSymbols(mod: Modulation, u: real, table: seq<Complex>) {
    HoldsPoints(mod, u, table, Pow2(BitsPerSymbol(mod)))
  }

  method SetBpskTable(table: array<Complex>, u: real)
    requires table.Length == 2
    modifies table
    ensures HoldsSymbols(BPSK, u, table[..])
  {
    Powers();
    table[0] := Complex(u, u);
    table[1] := Complex(-u, -u);
  }

  /** Four consecutive entries: the in-phase level changes after two, the quadrature level after each. */
  method SetBlock(table: array<Complex>, base: nat, re0: real, re1: real, im0: real, im1: real)
    requires base + 4 <= table.Length
    modifies table
    ensures forall j: nat :: j < 4 ==> table[base + j] == Complex(if j < 2 then re0 else re1, if j % 2 == 0 then im0 else im1)
    ensures forall i: nat :: i < base ==> table[i] == old(table[i])
  {
    table[base] := Complex(re0, im0);
    table[base + 1] := Complex(re0, im1);
    table[base + 2] := Complex(re1, im0);
    table[base + 3] := Complex(re1, im1);
  }

  lemma LabelAppend(v: nat, m: nat, b: nat, w: nat)
    requires b < 2 && w == 2 * v + b
    ensures Bits(w, m + 1) == Bits(v, m) + [b]
  {
    assert w / 2 == v && w % 2 == b;
  }

  /** The last two bits of a label. */
  lemma LabelSplit(v: nat, b: nat, b': nat, m: nat, w: nat)
    requires b < 2 && b' < 2 && w == 4 * v + 2 * b + b'
    ensures Bits(w, m + 2) == Bits(v, m) + [b, b']
  {
    var half: nat := 2 * v + b;
    LabelAppend(v, m, b, half);
    LabelAppend(half, m + 1, b', w);
  }

  // The parameter `n` of the lemmas below is a fixed number of bits; as a
  // parameter it keeps `Bits` from being unrolled at that number.

  lemma Label2(b0: nat, b1: nat, n: nat, w: nat)
    requires b0 < 2 && b1 < 2 && n == 0 && w == 2 * b0 + b1
    ensures Bits(w, n + 2) == [b0, b1]
  {
    LabelSplit(0, b0, b1, n, w);
  }

  lemma Label4(v: nat, b0: nat, b1: nat, b2: nat, b3: nat, n: nat, w: nat)
    requires b0 < 2 && b1 < 2 && b2 < 2 && b3 < 2 && n == 2 && v == 2 * b0 + b1 && w == 4 * v + 2 * b2 + b3
    ensures Bits(w, n + 2) == [b0, b1] + [b2, b3]
  {
    Label2(b0, b1, n - 2, v);
    LabelSplit(v, b2, b3, n, w);
  }

  lemma Label6(v: nat, b0: nat, b1: nat, b2: nat, b3: nat, b4: nat, b5: nat, n: nat, w: nat)
    requires b0 < 2 && b1 < 2 && b2 < 2 && b3 < 2 && b4 < 2 && b5 < 2 && n == 4
    requires v == 4 * (2 * b0 + b1) + 2 * b2 + b3 && w == 4 * v + 2 * b4 + b5
    ensures Bits(w, n + 2) == [b0, b1] + [b2, b3] + [b4, b5]
  {
    Label4(2 * b0 + b1, b0, b1, b2, b3, n - 2, v);
    LabelSplit(v, b4, b5, n, w);
  }

  method SetQpskTable(table: array<Complex>, u: real)
    requires table.Length == 4
    modifies table
    ensures HoldsSymbols(QPSK, u, table[..])
  {
    Powers();
    SetBlock(table, 0, u, -u, u, -u);
    forall j: nat | j < 4 ensures table[j] == Point(QPSK, u, Bits(j, 2)) {
      Label2(j / 2, j % 2, 0, j);
      assert table[0 + j] == table[j];
    }
  }

  lemma Point16(u: real, b0: nat, b1: nat, b2: nat, b3: nat, n: nat, w: nat)
    requires b0 < 2 && b1 < 2 && b2 < 2 && b3 < 2 && n == 2 && w == 4 * (2 * b0 + b1) + 2 * b2 + b3
    ensures Point(QAM16, u, Bits(w, n + 2)) == Complex(Axis16(b0, b2, u), Axis16(b1, b3, u))
  {
    Label4(2 * b0 + b1, b0, b1, b2, b3, n, w);
  }

  /** The four 16QAM symbols whose labels begin with `b0`, `b1`. */
  method SetBlock16(table: array<Complex>, b0: nat, b1: nat, re0: real, re1: real, im0: real, im1: real, u: real)
    requires table.Length == 16 && b0 < 2 && b1 < 2
    requires re0 == Axis16(b0, 0, u) && re1 == Axis16(b0, 1, u) && im0 == Axis16(b1, 0, u) && im1 == Axis16(b1, 1, u)
    requires HoldsPoints(QAM16, u, table[..], 4 * (2 * b0 + b1))
    modifies table
    ensures HoldsPoints(QAM16, u, table[..], 4 * (2 * b0 + b1) + 4)
  {
    var v := 2 * b0 + b1;
    SetBlock(table, 4 * v, re0, re1, im0, im1);
    forall i: nat | 4 * v <= i < 4 * v + 4 ensures table[i] == Point(QAM16, u, Bits(i, 4)) {
      var j := i - 4 * v;
      Point16(u, b0, b1, j / 2, j % 2, 2, i);
      assert table[4 * v + j] == table[i];
    }
  }

  method SetQam16Table(table: array<Complex>, u: real)
    requires table.Length == 16
    modifies table
    ensures HoldsSymbols(QAM16, u, table[..])
  {
    Powers();
    var l1, l2 := u, 3.0 * u;
    SetBlock16(table, 0, 0, l1, l2, l1, l2, u);
    SetBlock16(table, 0, 1, l1, l2, -l1, -l2, u);
    SetBlock16(table, 1, 0, -l1, -l2, l1, l2, u);
    SetBlock16(table, 1, 1, -l1, -l2, -l1, -l2, u);
  }

  lemma Point64(u: real, b0: nat, b1: nat, b2: nat, b3: nat, b4: nat, b5: nat, n: nat, w: nat)
    requires b0 < 2 && b1 < 2 && b2 < 2 && b3 < 2 && b4 < 2 && b5 < 2 && n == 4
    requires w == 4 * (8 * b0 + 4 * b1 + 2 * b2 + b3) + 2 * b4 + b5
    ensures Point(QAM64, u, Bits(w, n + 2)) == Complex(Axis64(b0, b2, b4, u), Axis64(b1, b3, b5, u))
  {
    Label6(8 * b0 + 4 * b1 + 2 * b2 + b3, b0, b1, b2, b3, b4, b5, n, w);
  }

  /** The four 64QAM symbols whose labels begin with `b0`, `b1`, `b2`, `b3`. */
  method SetBlock64(table: array<Complex>, b0: nat, b1: nat, b2: nat, b3: nat, re0: real, re1: real, im0: real, im1: real, u: real)
    requires table.Length == 64 && b0 < 2 && b1 < 2 && b2 < 2 && b3 < 2
    requires re0 == Axis64(b0, b2, 0, u) && re1 == Axis64(b0, b2, 1, u) && im0 == Axis64(b1, b3, 0, u) && im1 == Axis64(b1, b3, 1, u)
    requires HoldsPoints(QAM64, u, table[..], 4 * (8 * b0 + 4 * b1 + 2 * b2 + b3))
    modifies table
    ensures HoldsPoints(QAM64, u, table[..], 4 * (8 * b0 + 4 * b1 + 2 * b2 + b3) + 4)
  {
    var v := 8 * b0 + 4 * b1 + 2 * b2 + b3;
    SetBlock(table, 4 * v, re0, re1, im0, im1);
    forall i: nat | 4 * v <= i < 4 * v + 4 ensures table[i] == Point(QAM64, u, Bits(i, 6)) {
      var j := i - 4 * v;
      Point64(u, b0, b1, b2, b3, j / 2, j % 2, 4, i);
      assert table[4 * v + j] == table[i];
    }
  }

  method SetQam64Table(table: array<Complex>, u: real)
    requires table.Length == 64
    modifies table
    ensures HoldsSymbols(QAM64, u, table[..])
  {
    Powers();
    var l1, l2, l3, l4 := u, 3.0 * u, 5.0 * u, 7.0 * u;
    SetBlock64(table, 0, 0, 0, 0, l2, l1, l2, l1, u);
    SetBlock64(table, 0, 0, 0, 1, l2, l1, l3, l4, u);
    SetBlock64(table, 0, 0, 1, 0, l3, l4, l2, l1, u);
    SetBlock64(table, 0, 0, 1, 1, l3, l4, l3, l4, u);
    SetBlock64(table, 0, 1, 0, 0, l2, l1, -l2, -l1, u);
    SetBlock64(table, 0, 1, 0, 1, l2, l1, -l3, -l4, u);
    SetBlock64(table, 0, 1, 1, 0, l3, l4, -l2, -l1, u);
    SetBlock64(table, 0, 1, 1, 1, l3, l4, -l3, -l4, u);
    SetBlock64(table, 1, 0, 0, 0, -l2, -l1, l2, l1, u);
    SetBlock64(table, 1, 0, 0, 1, -l2, -l1, l3, l4, u);
    SetBlock64(table, 1, 0, 1, 0, -l3, -l4, l2, l1, u);
    SetBlock64(table, 1, 0, 1, 1, -l3, -l4, l3, l4, u);
    SetBlock64(table, 1, 1, 0, 0, -l2, -l1, -l2, -l1, u);
    SetBlock64(table, 1, 1, 0, 1, -l2, -l1, -l3, -l4, u);
    SetBlock64(table, 1, 1, 1, 0, -l3, -l4, -l2, -l1, u);
    SetBlock64(table, 1, 1, 1, 1, -l3, -l4, -l3, -l4, u);
  }
}
