/**
The unaligned copy of volk/spu_lib/spu_memcpy_unaligned.c: a processor that can
only load and store whole aligned 16-byte quadwords copies an arbitrary byte
range by shuffling pairs of quadwords with computed masks. The local store
wraps around at its end, as the load and store instructions do.
*/
module SpuMemcpy {
  type Byte = b: int | 0 <= b < 256
  type Quad = q: seq<Byte> | |q| == 16 witness seq(16, _ => 0)

  // ------------------------------------------------------------- the intrinsics

  function Splats(b: Byte): Quad {
    seq(16, _ => b)
  }

  function CmpGt(a: Quad, b: Quad): Quad {
    seq(16, i requires 0 <= i < 16 => if a[i] > b[i] then 255 else 0)
  }

  function CmpEq(a: Quad, b: Quad): Quad {
    seq(16, i requires 0 <= i < 16 => if a[i] == b[i] then 255 else 0)
  }

  function Or(a: Quad, b: Quad): Quad {
    seq(16, i requires 0 <= i < 16 => (a[i] as bv8 | b[i] as bv8) as int)
  }

  function And(a: Quad, b: Quad): Quad {
    seq(16, i requires 0 <= i < 16 => (a[i] as bv8 & b[i] as bv8) as int)
  }

  /** The big-endian 32-bit word number `w`. */
  function Word(q: Quad, w: nat): nat
    requires w < 4
  {
    q[4 * w] as int * 0x1000000 + q[4 * w + 1] as int * 0x10000 + q[4 * w + 2] as int * 0x100 + q[4 * w + 3] as int
  }

  function WordByte(x: nat, i: nat): Byte
    requires i < 4
  {
    match i
    case 0 => x / 0x1000000 % 256
    case 1 => x / 0x10000 % 256
    case 2 => x / 0x100 % 256
    case 3 => x % 256
  }

  /** `spu_add` on four unsigned words, each sum modulo 2^32. */
  function AddWords(a: Quad, b: Quad): Quad {
    seq(16, i requires 0 <= i < 16 => WordByte((Word(a, i / 4) + Word(b, i / 4)) % 0x1_0000_0000, i % 4))
  }

  /** `spu_rlqwbyte`: rotate left by the low four bits of the count. */
  function RotateLeft(q: Quad, count: nat): Quad {
    seq(16, i requires 0 <= i < 16 => q[(i + count % 16) % 16])
  }

  /** One byte of `spu_shuffle`: the special patterns, or a byte of the two operands laid end to end. */
  function Select(a: Quad, b: Quad, c: Byte): Byte {
    if c >= 0xE0 then 0x80 else if c >= 0xC0 then 0xFF else if c >= 0x80 then 0
    else if c % 32 < 16 then a[c % 32] else b[c % 32 - 16]
  }

  function Shuffle(a: Quad, b: Quad, pattern: Quad): Quad {
    seq(16, i requires 0 <= i < 16 => Select(a, b, pattern[i]))
  }

  // -------------------------------------------------------------------- the masks

  function OneUp(): Quad {
    seq(16, i requires 0 <= i < 16 => i)
  }

  function SecondOneUp(): Quad {
    seq(16, i requires 0 <= i < 16 => 16 + i)
  }

  /** 16 in every byte whose index is `at` or more: the compare, or and mask steps. */
  function Phase(at: Byte): Quad {
    And(Splats(16), Or(CmpGt(OneUp(), Splats(at)), CmpEq(OneUp(), Splats(at))))
  }

  lemma PhaseBits(x: Byte)
    requires x == 0 || x == 255
    ensures (255 as bv8 | x as bv8) as int == 255 && (0 as bv8 | x as bv8) as int == x
    ensures (16 as bv8 & x as bv8) as int == if x == 255 then 16 else 0
  {
    if x == 0 {
      assert x as bv8 == 0;
    } else {
      assert x as bv8 == 255;
    }
  }

  lemma PhaseAt(at: Byte, i: nat)
    requires i < 16
    ensures Phase(at)[i] == if i < at then 0 else 16
  {
    var gt, eq := CmpGt(OneUp(), Splats(at)), CmpEq(OneUp(), Splats(at));
    PhaseBits(eq[i]);
    assert Or(gt, eq)[i] == if i < at then 0 else 255;
    PhaseBits(Or(gt, eq)[i]);
  }

  lemma WordBytes(s0: Byte, s1: Byte, s2: Byte, s3: Byte)
    ensures var x := s0 as int * 0x1000000 + s1 as int * 0x10000 + s2 as int * 0x100 + s3 as int;
            && x % 0x1_0000_0000 == x
            && WordByte(x, 0) == s0 && WordByte(x, 1) == s1 && WordByte(x, 2) == s2 && WordByte(x, 3) == s3
  {
    var x := s0 as int * 0x1000000 + s1 as int * 0x10000 + s2 as int * 0x100 + s3 as int;
    assert x / 0x1000000 == s0;
    assert x / 0x10000 == s0 as int * 0x100 + s1 as int;
    assert x / 0x100 == s0 as int * 0x10000 + s1 as int * 0x100 + s2 as int;
  }

  /** No carry leaves a byte when the sums of corresponding bytes fit. */
  lemma AddNoCarry(a: Quad, b: Quad, i: nat)
    requires i < 16
    requires forall k :: 0 <= k < 16 ==> a[k] as int + b[k] as int < 256
    ensures AddWords(a, b)[i] as int == a[i] as int + b[i] as int
  {
    var w := i / 4;
    WordBytes(a[4 * w] as int + b[4 * w] as int, a[4 * w + 1] as int + b[4 * w + 1] as int,
              a[4 * w + 2] as int + b[4 * w + 2] as int, a[4 * w + 3] as int + b[4 * w + 3] as int);
    assert i == 4 * w + i % 4;
  }

  /** First half of the first operand, second half of the second, break at `at`. */
  predicate IsBreak(mask: Quad, at: Byte) {
    forall i :: 0 <= i < 16 ==> mask[i] == if i < at then i else i + 16
  }

  /** `spu_add` of the phase to the identity pattern. */
  method BreakMask(at: Byte) returns (mask: Quad)
    requires at < 16
    ensures IsBreak(mask, at)
  {
    var phase, oneup := Phase(at), OneUp();
    mask := AddWords(phase, oneup);
    forall i | 0 <= i < 16 ensures phase[i] == if i < at then 0 else 16 {
      PhaseAt(at, i);
    }
    forall i | 0 <= i < 16 ensures mask[i] == if i < at then i else i + 16 {
      AddNoCarry(phase, oneup, i);
    }
  }

  /** A mask that joins the tail of the second operand, from `at` on, with the head of the first. */
  predicate IsJoin(mask: Quad, at: Byte) {
    forall i :: 0 <= i < 16 ==> mask[i] == if i + at < 16 then i + at + 16 else i + at - 16
  }

  /** A mask that keeps the first `t` bytes of the first operand and continues with the second. */
  predicate IsDelta(mask: Quad, t: Byte) {
    forall i :: 0 <= i < 16 ==> mask[i] == if i < t then i else i - t + 16
  }

  /** A mask that starts with the last `t` bytes of the second operand and continues with the first. */
  predicate IsEpsilon(mask: Quad, t: Byte) {
    forall i :: 0 <= i < 16 ==> mask[i] == if i < t then i - t + 32 else i
  }

  lemma RotatedBreak(mask: Quad, at: Byte)
    requires at < 16 && IsBreak(mask, at)
    ensures IsJoin(RotateLeft(mask, at), at)
  {
  }

  /** Rotating left by minus `t`, as a 32-bit count. */
  lemma RotatedSecond(t: Byte, i: nat)
    requires t < 16 && i < 16
    ensures RotateLeft(SecondOneUp(), (0x1_0000_0000 - t) % 0x1_0000_0000)[i] == if i < t then i - t + 32 else i - t + 16
  {
  }

  lemma DeltaEpsilon(alpha: Quad, second: Quad, t: Byte)
    requires t < 16 && IsBreak(alpha, t)
    requires forall i :: 0 <= i < 16 ==> second[i] == if i < t then i - t + 32 else i - t + 16
    ensures IsDelta(Shuffle(OneUp(), second, alpha), t)
    ensures IsEpsilon(Shuffle(second, OneUp(), alpha), t)
  {
  }

  /** The five masks that the copy uses, from the three alignments. */
  method BuildMasks(target: nat, src: nat, numBytes: nat)
    returns (gamma: Quad, delta: Quad, epsilon: Quad, zeta: Quad, beta: Quad)
    ensures IsJoin(gamma, src % 16) && IsJoin(zeta, target % 16) && IsBreak(beta, numBytes % 16)
    ensures IsDelta(delta, target % 16) && IsEpsilon(epsilon, target % 16)
  {
    var t: Byte := target % 16;
    var broken := BreakMask(src % 16);
    RotatedBreak(broken, src % 16);
    gamma := RotateLeft(broken, src % 16);
    var second := RotateLeft(SecondOneUp(), (0x1_0000_0000 - t) % 0x1_0000_0000);
    forall i: nat | i < 16 ensures second[i] == if i < t then i - t + 32 else i - t + 16 {
      RotatedSecond(t, i);
    }
    var alpha := BreakMask(t);
    DeltaEpsilon(alpha, second, t);
    delta := Shuffle(OneUp(), second, alpha);
    epsilon := Shuffle(second, OneUp(), alpha);
    RotatedBreak(alpha, t);
    zeta := RotateLeft(alpha, t);
    beta := BreakMask(numBytes % 16);
  }

  // ------------------------------------------------------------ the local store

  /** The local store is a row of quadwords, at least two; a byte address selects a quadword and a byte in it. */
  function ByteAt(m: seq<Quad>, address: nat): Byte
    requires address < 16 * |m|
  {
    m[address / 16][address % 16]
  }

  /** Addresses wrap around at the end of the local store; one wrap is all the copy can need. */
  function Wrap(quad: nat, length: nat): nat {
    if quad < length then quad else quad - length
  }

  lemma ByteInQuad(m: seq<Quad>, q: nat, j: nat)
    requires q < |m| && j < 16
    ensures ByteAt(m, 16 * q + j) == m[q][j]
  {
    assert (16 * q + j) / 16 == q && (16 * q + j) % 16 == j;
  }

  /** The copied bytes are not overwritten before they are read. */
  predicate CopyRanges(length: nat, target: nat, src: nat, n: nat) {
    && length >= 2
    && target + n <= 16 * length && src + n <= 16 * length
    && (target <= src || src + n <= target)
  }

  /** What byte `j` of quadword `q` holds once `d` bytes have been copied. */
  function CopiedByte(m0: seq<Quad>, target: nat, src: nat, d: nat, q: nat, j: nat): Byte
    requires target + d <= 16 * |m0| && src + d <= 16 * |m0| && q < |m0| && j < 16
  {
    if target <= 16 * q + j < target + d then ByteAt(m0, src + (16 * q + j - target)) else m0[q][j]
  }

  ghost predicate IsCopy(m0: seq<Quad>, m: seq<Quad>, target: nat, src: nat, d: nat)
    requires target + d <= 16 * |m0| && src + d <= 16 * |m0|
  {
    && |m| == |m0|
    && forall q: nat, j: nat {:trigger m[q][j]} :: q < |m0| && j < 16 ==> m[q][j] == CopiedByte(m0, target, src, d, q, j)
  }

  /** The bytes of source quadword `q` that lie in the part lo..hi of the source range are still the original ones. */
  ghost predicate FreshSource(v: Quad, m0: seq<Quad>, q: nat, lo: nat, hi: nat) {
    && hi <= 16 * |m0|
    && forall j: nat {:trigger v[j]} :: j < 16 && lo <= 16 * q + j < hi ==> v[j] == ByteAt(m0, 16 * q + j)
  }

  lemma LoadedSource(m0: seq<Quad>, m: seq<Quad>, target: nat, src: nat, n: nat, d: nat, q: nat)
    requires CopyRanges(|m0|, target, src, n) && d <= n && IsCopy(m0, m, target, src, d) && q < 2 * |m0|
    ensures FreshSource(m[Wrap(q, |m|)], m0, q, src + d, src + n)
  {
    forall j: nat | j < 16 && src + d <= 16 * q + j < src + n ensures m[Wrap(q, |m|)][j] == ByteAt(m0, 16 * q + j) {
      ByteInQuad(m0, q, j);
      assert m[q][j] == CopiedByte(m0, target, src, d, q, j);
    }
  }

  /** Joining two source quadwords gives the next source bytes in order. */
  lemma JoinedSource(present: Quad, past: Quad, gamma: Quad, m0: seq<Quad>, q: nat, s: Byte, hi: nat, i: nat)
    requires s < 16 && i < 16 && 16 * q + s + i < hi
    requires FreshSource(past, m0, q, 16 * q + s, hi) && FreshSource(present, m0, q + 1, 16 * q + s, hi)
    requires IsJoin(gamma, s)
    ensures Shuffle(present, past, gamma)[i] == ByteAt(m0, 16 * q + s + i)
  {
    if i + s < 16 {
      assert past[i + s] == ByteAt(m0, 16 * q + (i + s));
    } else {
      assert present[i + s - 16] == ByteAt(m0, 16 * (q + 1) + (i + s - 16));
    }
  }

  /** Byte `i` of the sixteen that start at byte `t` of one quadword and run into the next. */
  function PairByte(past: Quad, present: Quad, t: Byte, i: nat): Byte
    requires t < 16 && i < 16
  {
    if i + t < 16 then past[i + t] else present[i + t - 16]
  }

  /** The end of the target block, read back through the join mask. */
  lemma MeldedBlock(past: Quad, present: Quad, t: Byte, r: Byte, inTemp: Quad, zeta: Quad, beta: Quad, i: nat)
    requires t < 16 && r < 16 && i < 16 && IsJoin(zeta, t) && IsBreak(beta, r)
    ensures Shuffle(inTemp, Shuffle(present, past, zeta), beta)[i] == if i < r then inTemp[i] else PairByte(past, present, t, i)
  {
    assert Shuffle(present, past, zeta)[i] == PairByte(past, present, t, i);
  }

  /** The two quadwords that carry `block` and, around it, what they already held. */
  ghost predicate IsSplit(past: Quad, present: Quad, t: Byte, block: Quad, out0: Quad, out1: Quad) {
    && t < 16
    && (forall j: nat {:trigger out0[j]} :: j < 16 ==> out0[j] == if j < t then past[j] else block[j - t])
    && (forall j: nat {:trigger out1[j]} :: j < 16 ==> out1[j] == if j < t then block[j - t + 16] else present[j])
  }

  lemma ShufflesSplit(past: Quad, present: Quad, t: Byte, block: Quad, delta: Quad, epsilon: Quad)
    requires t < 16 && IsDelta(delta, t) && IsEpsilon(epsilon, t)
    ensures IsSplit(past, present, t, block, Shuffle(past, block, delta), Shuffle(present, block, epsilon))
  {
  }

  /** A block of `r` source bytes, continued with what the target already holds. */
  ghost predicate IsBlock(m0: seq<Quad>, past: Quad, present: Quad, t: Byte, from: nat, r: nat, block: Quad)
    requires t < 16 && from + r <= 16 * |m0|
  {
    forall i: nat {:trigger block[i]} :: i < 16 ==>
      block[i] == if i < r then ByteAt(m0, from + i) else PairByte(past, present, t, i)
  }

  lemma JoinedBlock(present: Quad, past: Quad, gamma: Quad, m0: seq<Quad>, q: nat, s: Byte, hi: nat,
                    tgtPast: Quad, tgtPresent: Quad, t: Byte)
    requires s < 16 && t < 16 && 16 * q + s + 16 <= hi
    requires FreshSource(past, m0, q, 16 * q + s, hi) && FreshSource(present, m0, q + 1, 16 * q + s, hi)
    requires IsJoin(gamma, s)
    ensures IsBlock(m0, tgtPast, tgtPresent, t, 16 * q + s, 16, Shuffle(present, past, gamma))
  {
    forall i: nat | i < 16 ensures Shuffle(present, past, gamma)[i] == ByteAt(m0, 16 * q + s + i) {
      JoinedSource(present, past, gamma, m0, q, s, hi, i);
    }
  }

  /** Storing the two quadwords advances the copy by `r` bytes and changes nothing else. */
  lemma CopyBlock(m0: seq<Quad>, m: seq<Quad>, target: nat, src: nat, n: nat, d: nat, r: nat,
                  q: nat, t: Byte, block: Quad, out0: Quad, out1: Quad)
    requires CopyRanges(|m0|, target, src, n) && d + r <= n && r <= 16 && IsCopy(m0, m, target, src, d)
    requires t < 16 && target + d == 16 * q + t
    requires IsBlock(m0, m[Wrap(q, |m|)], m[Wrap(q + 1, |m|)], t, src + d, r, block)
    requires IsSplit(m[Wrap(q, |m|)], m[Wrap(q + 1, |m|)], t, block, out0, out1)
    ensures IsCopy(m0, m[Wrap(q, |m|) := out0][Wrap(q + 1, |m|) := out1], target, src, d + r)
  {
    var b0, b1 := Wrap(q, |m|), Wrap(q + 1, |m|);
    var m' := m[b0 := out0][b1 := out1];
    forall p: nat, j: nat | p < |m0| && j < 16 ensures m'[p][j] == CopiedByte(m0, target, src, d + r, p, j) {
      assert m[p][j] == CopiedByte(m0, target, src, d, p, j);
      if p == b0 && j >= t {
        assert out0[j] == block[j - t];
      } else if p == b1 && j < t {
        assert out1[j] == block[j - t + 16];
      }
    }
  }

  // ---------------------------------------------------------------------- the copy

  /** Between two rounds of the main loop: `d` bytes copied, and the two carried quadwords those of the address counters. */
  ghost predicate LoopOk(m0: seq<Quad>, m: seq<Quad>, target: nat, src: nat, n: nat, d: nat, sq: nat, tq: nat,
                         s: Byte, t: Byte, srcPast: Quad, tgtPast: Quad)
  {
    && CopyRanges(|m0|, target, src, n)
    && d <= n && IsCopy(m0, m, target, src, d)
    && s < 16 && t < 16 && src + d == 16 * sq + s && target + d == 16 * tq + t
    && tgtPast == m[Wrap(tq, |m|)] && FreshSource(srcPast, m0, sq, src + d, src + n)
  }

  /** The body of the main loop: quadwords `sq` and `tq` are those of the two address counters. */
  method CopyFullBlock(mem: array<Quad>, ghost m0: seq<Quad>, target: nat, src: nat, n: nat, ghost d: nat, sq: nat, tq: nat,
                       srcPast: Quad, tgtPast: Quad, ghost s: Byte, ghost t: Byte, gamma: Quad, delta: Quad, epsilon: Quad)
    returns (srcPast': Quad, tgtPast': Quad)
    requires LoopOk(m0, mem[..], target, src, n, d, sq, tq, s, t, srcPast, tgtPast) && d + 16 <= n
    requires IsJoin(gamma, s) && IsDelta(delta, t) && IsEpsilon(epsilon, t)
    modifies mem
    ensures LoopOk(m0, mem[..], target, src, n, d + 16, sq + 1, tq + 1, s, t, srcPast', tgtPast')
  {
    ghost var m := mem[..];
    var srcPresent := mem[Wrap(sq + 1, mem.Length)];
    var tgtPresent := mem[Wrap(tq + 1, mem.Length)];
    LoadedSource(m0, m, target, src, n, d, sq + 1);
    var inTemp := Shuffle(srcPresent, srcPast, gamma);
    JoinedBlock(srcPresent, srcPast, gamma, m0, sq, s, src + n, tgtPast, tgtPresent, t);
    var out0 := Shuffle(tgtPast, inTemp, delta);
    var out1 := Shuffle(tgtPresent, inTemp, epsilon);
    ShufflesSplit(tgtPast, tgtPresent, t, inTemp, delta, epsilon);
    CopyBlock(m0, m, target, src, n, d, 16, tq, t, inTemp, out0, out1);
    mem[Wrap(tq, mem.Length)] := out0;
    mem[Wrap(tq + 1, mem.Length)] := out1;
    assert mem[..] == m[Wrap(tq, |m|) := out0][Wrap(tq + 1, |m|) := out1];
    return srcPresent, out1;
  }

  /** What follows the main loop: the last, possibly empty, part of a block. */
  method CopyTail(mem: array<Quad>, ghost m0: seq<Quad>, target: nat, src: nat, n: nat, ghost d: nat, sq: nat, tq: nat,
                  srcPast: Quad, tgtPast: Quad, ghost s: Byte, ghost t: Byte,
                  gamma: Quad, delta: Quad, epsilon: Quad, zeta: Quad, beta: Quad)
    requires LoopOk(m0, mem[..], target, src, n, d, sq, tq, s, t, srcPast, tgtPast) && n < d + 16
    requires IsJoin(gamma, s) && IsDelta(delta, t) && IsEpsilon(epsilon, t) && IsJoin(zeta, t) && IsBreak(beta, n - d)
    modifies mem
    ensures IsCopy(m0, mem[..], target, src, n)
  {
    ghost var m := mem[..];
    var srcPresent := mem[Wrap(sq + 1, mem.Length)];
    var tgtPresent := mem[Wrap(tq + 1, mem.Length)];
    LoadedSource(m0, m, target, src, n, d, sq + 1);
    var inTemp := Shuffle(srcPresent, srcPast, gamma);
    var targetTemp := Shuffle(tgtPresent, tgtPast, zeta);
    var meld := Shuffle(inTemp, targetTemp, beta);
    forall i: nat | i < 16
      ensures meld[i] == if i < n - d then ByteAt(m0, src + d + i) else PairByte(tgtPast, tgtPresent, t, i)
    {
      MeldedBlock(tgtPast, tgtPresent, t, n - d, inTemp, zeta, beta, i);
      if i < n - d {
        JoinedSource(srcPresent, srcPast, gamma, m0, sq, s, src + n, i);
      }
    }
    var out0 := Shuffle(tgtPast, meld, delta);
    var out1 := Shuffle(tgtPresent, meld, epsilon);
    ShufflesSplit(tgtPast, tgtPresent, t, meld, delta, epsilon);
    CopyBlock(m0, m, target, src, n, d, n - d, tq, t, meld, out0, out1);
    mem[Wrap(tq, mem.Length)] := out0;
    mem[Wrap(tq + 1, mem.Length)] := out1;
    assert mem[..] == m[Wrap(tq, |m|) := out0][Wrap(tq + 1, |m|) := out1];
  }

  /** The byte-wise specification: the target range holds what the source range held, every other byte is as before. */
  ghost predicate BytesCopied(m0: seq<Quad>, m: seq<Quad>, target: nat, src: nat, n: nat)
    requires target + n <= 16 * |m0| && src + n <= 16 * |m0|
  {
    && |m| == |m0|
    && forall k: nat {:trigger ByteAt(m, k)} :: k < 16 * |m0| ==>
         ByteAt(m, k) == if target <= k < target + n then ByteAt(m0, src + (k - target)) else ByteAt(m0, k)
  }

  lemma CopyBytes(m0: seq<Quad>, m: seq<Quad>, target: nat, src: nat, n: nat)
    requires target + n <= 16 * |m0| && src + n <= 16 * |m0| && IsCopy(m0, m, target, src, n)
    ensures BytesCopied(m0, m, target, src, n)
  {
    forall k: nat | k < 16 * |m0|
      ensures ByteAt(m, k) == if target <= k < target + n then ByteAt(m0, src + (k - target)) else ByteAt(m0, k)
    {
      assert m[k / 16][k % 16] == CopiedByte(m0, target, src, n, k / 16, k % 16);
    }
  }

  lemma LoopStart(m0: seq<Quad>, target: nat, src: nat, n: nat)
    requires CopyRanges(|m0|, target, src, n)
    ensures LoopOk(m0, m0, target, src, n, 0, src / 16, target / 16, src % 16, target % 16,
                   m0[Wrap(src / 16, |m0|)], m0[Wrap(target / 16, |m0|)])
  {
    assert IsCopy(m0, m0, target, src, 0);
    LoadedSource(m0, m0, target, src, n, 0, src / 16);
    assert src == 16 * (src / 16) + src % 16 && target == 16 * (target / 16) + target % 16;
  }

  /** The main loop. */
  method CopyFullBlocks(mem: array<Quad>, ghost m0: seq<Quad>, target: nat, src: nat, n: nat, blocks: nat, sq0: nat, tq0: nat,
                        srcFirst: Quad, tgtFirst: Quad, ghost s: Byte, ghost t: Byte, gamma: Quad, delta: Quad, epsilon: Quad)
    returns (sq: nat, tq: nat, srcPast: Quad, tgtPast: Quad)
    requires LoopOk(m0, mem[..], target, src, n, 0, sq0, tq0, s, t, srcFirst, tgtFirst) && 16 * blocks <= n
    requires IsJoin(gamma, s) && IsDelta(delta, t) && IsEpsilon(epsilon, t)
    modifies mem
    ensures LoopOk(m0, mem[..], target, src, n, 16 * blocks, sq, tq, s, t, srcPast, tgtPast)
  {
    sq, tq, srcPast, tgtPast := sq0, tq0, srcFirst, tgtFirst;
    ghost var d: nat := 0;
    var i := 0;
    while i < blocks
      invariant 0 <= i <= blocks && d == 16 * i
      invariant LoopOk(m0, mem[..], target, src, n, d, sq, tq, s, t, srcPast, tgtPast)
    {
      srcPast, tgtPast := CopyFullBlock(mem, m0, target, src, n, d, sq, tq, srcPast, tgtPast, s, t, gamma, delta, epsilon);
      i, sq, tq, d := i + 1, sq + 1, tq + 1, d + 16;
    }
  }

  /** The loads, the main loop and the tail, given the masks. */
  method CopyQuads(mem: array<Quad>, target: nat, src: nat, numBytes: nat,
                   gamma: Quad, delta: Quad, epsilon: Quad, zeta: Quad, beta: Quad)
    requires CopyRanges(mem.Length, target, src, numBytes)
    requires IsJoin(gamma, src % 16) && IsJoin(zeta, target % 16) && IsBreak(beta, numBytes % 16)
    requires IsDelta(delta, target % 16) && IsEpsilon(epsilon, target % 16)
    modifies mem
    ensures IsCopy(old(mem[..]), mem[..], target, src, numBytes)
  {
    ghost var m0 := mem[..];
    ghost var s: Byte, t: Byte := src % 16, target % 16;
    var srcPast := mem[Wrap(src / 16, mem.Length)];
    var tgtPast := mem[Wrap(target / 16, mem.Length)];
    LoopStart(m0, target, src, numBytes);
    var sq, tq;
    sq, tq, srcPast, tgtPast := CopyFullBlocks(mem, m0, target, src, numBytes, numBytes / 16, src / 16, target / 16,
                                               srcPast, tgtPast, s, t, gamma, delta, epsilon);
    ghost var d: nat := 16 * (numBytes / 16);
    assert numBytes - d == numBytes % 16;
    CopyTail(mem, m0, target, src, numBytes, d, sq, tq, srcPast, tgtPast, s, t, gamma, delta, epsilon, zeta, beta);
  }

  /**
  The copy refines a byte-wise one, for every alignment of target, source and
  length: whenever the ranges are disjoint, and also when they overlap with the
  target below the source, the target range receives the source bytes and no
  other byte of the local store changes.
  */
  method MemcpyUnaligned(mem: array<Quad>, target: nat, src: nat, numBytes: nat) returns (ret: nat)
    requires CopyRanges(mem.Length, target, src, numBytes)
    modifies mem
    ensures ret == target
    ensures BytesCopied(old(mem[..]), mem[..], target, src, numBytes)
  {
    ghost var m0 := mem[..];
    var gamma, delta, epsilon, zeta, beta := BuildMasks(target, src, numBytes);
    CopyQuads(mem, target, src, numBytes, gamma, delta, epsilon, zeta, beta);
    CopyBytes(m0, mem[..], target, src, numBytes);
    return target;
  }
}
