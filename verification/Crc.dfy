/**
The cyclic redundancy check of modrep_osld/gen_crc/src/crc.c at its width 16:
the byte-at-a-time computation against a bit-serial register and against
polynomial long division over GF(2), the check of a message with its pasted
CRC, and the detection of error bursts. Words and registers are sequences of
bits, most significant first; the coefficient x^16 of the generator is
implicit.
*/
module Crc {
  type Reg = r: seq<bool> | |r| == 16 witness seq(16, _ => false)
  type Word = w: seq<bool> | |w| == 32 witness seq(32, _ => false)

  function Zeros(n: nat): (r: seq<bool>)
    ensures |r| == n
  {
    seq(n, _ => false)
  }

  function Xor(a: seq<bool>, b: seq<bool>): (r: seq<bool>)
    requires |a| == |b|
    ensures |r| == |a|
  {
    seq(|a|, i requires 0 <= i < |a| => a[i] != b[i])
  }

  // --------------------------------------------------------- the bit-serial register

  /** One clock of the register without input. */
  function Shift(c: Reg, g: Reg): Reg {
    if c[0] then Xor(c[1..] + [false], g) else c[1..] + [false]
  }

  function Shifts(c: Reg, g: Reg, n: nat): Reg
    decreases n
  {
    if n == 0 then c else Shifts(Shift(c, g), g, n - 1)
  }

  /** The register after the message bits have been fed in at its top, first bit first. */
  function Process(c: Reg, bits: seq<bool>, g: Reg): Reg
    decreases bits
  {
    if bits == [] then c else Process(Shift([c[0] != bits[0]] + c[1..], g), bits[1..], g)
  }

  /** Up to sixteen bits, placed from the top of a register down. */
  function Align(bits: seq<bool>): Reg
    requires |bits| <= 16
  {
    bits + Zeros(16 - |bits|)
  }

  // ---------------------------------------------------------------- register algebra

  lemma ShiftXor(a: Reg, b: Reg, g: Reg)
    ensures Shift(Xor(a, b), g) == Xor(Shift(a, g), Shift(b, g))
  {
  }

  /** With an odd polynomial the register can be run backwards. */
  lemma ShiftInjective(a: Reg, b: Reg, g: Reg)
    requires g[15] && Shift(a, g) == Shift(b, g)
    ensures a == b
  {
    assert Shift(a, g)[15] == a[0] && Shift(b, g)[15] == b[0];
    forall i | 0 < i < 16 ensures a[i] == b[i] {
      assert Shift(a, g)[i - 1] == Shift(b, g)[i - 1];
    }
  }

  lemma {:induction false} ShiftsXor(a: Reg, b: Reg, g: Reg, n: nat)
    ensures Shifts(Xor(a, b), g, n) == Xor(Shifts(a, g, n), Shifts(b, g, n))
    decreases n
  {
    if n > 0 {
      ShiftXor(a, b, g);
      ShiftsXor(Shift(a, g), Shift(b, g), g, n - 1);
    }
  }

  lemma {:induction false} ShiftsInjective(a: Reg, b: Reg, g: Reg, n: nat)
    requires g[15] && Shifts(a, g, n) == Shifts(b, g, n)
    ensures a == b
    decreases n
  {
    if n > 0 {
      ShiftsInjective(Shift(a, g), Shift(b, g), g, n - 1);
      ShiftInjective(a, b, g);
    }
  }

  lemma {:induction false} ShiftsCommute(c: Reg, g: Reg, n: nat)
    ensures Shifts(Shift(c, g), g, n) == Shift(Shifts(c, g, n), g)
    decreases n
  {
    if n > 0 {
      ShiftsCommute(Shift(c, g), g, n - 1);
    }
  }

  lemma {:induction false} ShiftsZero(g: Reg, n: nat)
    ensures Shifts(Zeros(16), g, n) == Zeros(16)
  {
    if n > 0 {
      assert Shift(Zeros(16), g) == Zeros(16);
      ShiftsZero(g, n - 1);
    }
  }

  lemma {:induction false} ProcessConcat(c: Reg, a: seq<bool>, b: seq<bool>, g: Reg)
    ensures Process(c, a + b, g) == Process(Process(c, a, g), b, g)
    decreases a
  {
    if a == [] {
      assert a + b == b;
    } else {
      assert (a + b)[1..] == a[1..] + b;
      ProcessConcat(Shift([c[0] != a[0]] + c[1..], g), a[1..], b, g);
    }
  }

  lemma ChunkStep(c: Reg, bits: seq<bool>, g: Reg)
    requires 0 < |bits| <= 16
    ensures Xor(Shift([c[0] != bits[0]] + c[1..], g), Align(bits[1..])) == Shift(Xor(c, Align(bits)), g)
  {
  }

  /** Feeding up to sixteen bits one by one is the same as adding them all at the top and clocking the register that often. */
  lemma {:induction false} Chunk(c: Reg, bits: seq<bool>, g: Reg)
    requires |bits| <= 16
    ensures Process(c, bits, g) == Shifts(Xor(c, Align(bits)), g, |bits|)
    decreases bits
  {
    if bits == [] {
      assert Xor(c, Align(bits)) == c;
    } else {
      ChunkStep(c, bits, g);
      Chunk(Shift([c[0] != bits[0]] + c[1..], g), bits[1..], g);
    }
  }

  // ------------------------------------------------------------------ long division

  /** One step of the division by x^16 + g. */
  function Reduce(m: seq<bool>, g: Reg): (r: seq<bool>)
    requires |m| > 16
    ensures |r| == |m| - 1
  {
    (if m[0] then Xor(m[1..17], g) else m[1..17]) + m[17..]
  }

  /** The remainder of the polynomial with coefficients `m`, highest first, divided by x^16 + g. */
  function Remainder(m: seq<bool>, g: Reg): seq<bool>
    decreases |m|
  {
    if |m| <= 16 then m else Remainder(Reduce(m, g), g)
  }

  /** One bit of the dividend brought down. */
  function BringDown(c: Reg, b: bool, g: Reg): Reg {
    if c[0] then Xor(c[1..] + [b], g) else c[1..] + [b]
  }

  lemma RemainderStep(c: Reg, b: bool, rest: seq<bool>, g: Reg)
    ensures Remainder(c + [b] + rest, g) == Remainder(BringDown(c, b, g) + rest, g)
  {
    var m := c + [b] + rest;
    assert m[1..17] == c[1..] + [b] && m[17..] == rest;
  }

  lemma {:induction false} RemainderOfZeros(c: Reg, g: Reg, n: nat)
    ensures Remainder(c + Zeros(n), g) == Shifts(c, g, n)
    decreases n
  {
    if n == 0 {
      assert c + Zeros(0) == c;
    } else {
      assert c + Zeros(n) == c + [false] + Zeros(n - 1);
      RemainderStep(c, false, Zeros(n - 1), g);
      assert BringDown(c, false, g) == Shift(c, g);
      RemainderOfZeros(Shift(c, g), g, n - 1);
    }
  }

  lemma {:induction false} UnitShifts(b: bool, g: Reg, c: Reg, k: nat)
    requires k < |g| && c == Zeros(k) + [b] + Zeros(|g| - 1 - k)
    ensures Shifts(c, g, k) == [b] + Zeros(15)
    decreases k
  {
    if k == 0 {
      assert c == [b] + Zeros(15);
    } else {
      assert Shift(c, g) == Zeros(k - 1) + [b] + Zeros(|g| - k);
      UnitShifts(b, g, Shift(c, g), k - 1);
    }
  }

  lemma OneMoreShift(c: Reg, g: Reg, k: nat)
    ensures Shifts(c, g, k + 1) == Shift(Shifts(c, g, k), g)
  {
    ShiftsCommute(c, g, k);
  }

  lemma UnitClockedUp(b: bool, g: Reg)
    ensures Shifts(Zeros(15) + [b], g, |g|) == Shift([b] + Zeros(15), g)
  {
    var unit: Reg, k: nat := Zeros(15) + [b], |g| - 1;
    assert unit == Zeros(k) + [b] + Zeros(|g| - 1 - k);
    OneMoreShift(unit, g, k);
    UnitShifts(b, g, unit, k);
  }

  lemma FlippedTop(r: Reg, b: bool, g: Reg)
    ensures Xor(Shift(r, g), Shift([b] + Zeros(15), g)) == Shift([r[0] != b] + r[1..], g)
  {
    ShiftXor(r, [b] + Zeros(15), g);
    assert Xor(r, [b] + Zeros(15)) == [r[0] != b] + r[1..];
  }

  /** Bringing a bit down into the dividend, sixteen clocks ahead of feeding it in at the top. */
  lemma FeedAfterShifts(c: Reg, b: bool, g: Reg)
    ensures Shifts(BringDown(c, b, g), g, |g|) == Shift([Shifts(c, g, |g|)[0] != b] + Shifts(c, g, |g|)[1..], g)
  {
    assert BringDown(c, b, g) == Xor(Shift(c, g), Zeros(15) + [b]);
    ShiftsXor(Shift(c, g), Zeros(15) + [b], g, |g|);
    ShiftsCommute(c, g, |g|);
    UnitClockedUp(b, g);
    FlippedTop(Shifts(c, g, |g|), b, g);
  }

  lemma BroughtDown(c: Reg, bits: seq<bool>, g: Reg)
    requires bits != []
    ensures Remainder(c + bits + Zeros(16), g) == Remainder(BringDown(c, bits[0], g) + bits[1..] + Zeros(16), g)
  {
    var rest, c' := bits[1..] + Zeros(16), BringDown(c, bits[0], g);
    assert c + bits + Zeros(16) == c + [bits[0]] + rest;
    RemainderStep(c, bits[0], rest, g);
    assert c' + bits[1..] + Zeros(16) == c' + rest;
  }

  lemma {:induction false} ProcessIsRemainder(c: Reg, bits: seq<bool>, g: Reg)
    ensures Process(Shifts(c, g, |g|), bits, g) == Remainder(c + bits + Zeros(16), g)
    decreases bits
  {
    if bits == [] {
      assert c + bits + Zeros(16) == c + Zeros(16);
      RemainderOfZeros(c, g, |g|);
    } else {
      BroughtDown(c, bits, g);
      ProcessIsRemainder(BringDown(c, bits[0], g), bits[1..], g);
      FeedAfterShifts(c, bits[0], g);
    }
  }

  lemma {:induction false} LeadingZeros(m: seq<bool>, g: Reg, n: nat)
    requires |m| >= 16
    ensures Remainder(Zeros(n) + m, g) == Remainder(m, g)
  {
    if n == 0 {
      assert Zeros(0) + m == m;
    } else {
      var z := Zeros(n) + m;
      assert z[1..17] + z[17..] == Zeros(n - 1) + m;
      LeadingZeros(m, g, n - 1);
    }
  }

  /** The register ends up with the remainder of M(x) x^16, for every message and every generator. */
  lemma SerialIsRemainder(msg: seq<bool>, g: Reg)
    ensures Process(Zeros(16), msg, g) == Remainder(msg + Zeros(16), g)
  {
    ShiftsZero(g, |g|);
    ProcessIsRemainder(Zeros(16), msg, g);
    assert Zeros(16) + msg + Zeros(16) == Zeros(16) + (msg + Zeros(16));
    LeadingZeros(msg + Zeros(16), g, |g|);
  }

  /** A message followed by its own CRC checks to zero, from any initial register. */
  lemma CodewordChecks(init: Reg, msg: seq<bool>, g: Reg)
    ensures Process(init, msg + Process(init, msg, g), g) == Zeros(16)
  {
    var c := Process(init, msg, g);
    ProcessConcat(init, msg, c, g);
    Chunk(c, c, g);
    assert Xor(c, Align(c)) == Zeros(16);
    ShiftsZero(g, |g|);
  }

  // ---------------------------------------------------------------- error bursts

  /** The two words differ, and only within sixteen positions from `start` on. */
  ghost predicate IsBurst(a: seq<bool>, b: seq<bool>, start: nat) {
    && |a| == |b| && a != b
    && forall i :: 0 <= i < |a| && !(start <= i < start + 16) ==> a[i] == b[i]
  }

  ghost predicate DetectsBursts(g: Reg) {
    forall init: Reg, a: seq<bool>, b: seq<bool>, start: nat :: IsBurst(a, b, start) ==>
      Process(init, a, g) != Process(init, b, g)
  }

  lemma {:induction false} ProcessInjective(c: Reg, d: Reg, bits: seq<bool>, g: Reg)
    requires g[15] && Process(c, bits, g) == Process(d, bits, g)
    ensures c == d
    decreases bits
  {
    if bits != [] {
      var c': Reg, d': Reg := [c[0] != bits[0]] + c[1..], [d[0] != bits[0]] + d[1..];
      ProcessInjective(Shift(c', g), Shift(d', g), bits[1..], g);
      ShiftInjective(c', d', g);
      forall i | 0 <= i < 16 ensures c[i] == d[i] {
        assert c'[i] == d'[i];
      }
    }
  }

  lemma WindowInjective(c: Reg, x: seq<bool>, y: seq<bool>, g: Reg)
    requires g[15] && |x| == |y| <= 16 && Process(c, x, g) == Process(c, y, g)
    ensures x == y
  {
    Chunk(c, x, g);
    Chunk(c, y, g);
    ShiftsInjective(Xor(c, Align(x)), Xor(c, Align(y)), g, |x|);
    forall i | 0 <= i < |x| ensures x[i] == y[i] {
      assert Xor(c, Align(x))[i] == Xor(c, Align(y))[i];
    }
  }

  lemma ProcessInParts(init: Reg, pre: seq<bool>, x: seq<bool>, post: seq<bool>, g: Reg)
    ensures Process(init, pre + x + post, g) == Process(Process(Process(init, pre, g), x, g), post, g)
  {
    ProcessConcat(init, pre + x, post, g);
    ProcessConcat(init, pre, x, g);
  }

  lemma SameOutside(a: seq<bool>, b: seq<bool>, start: nat, stop: nat)
    requires |a| == |b| && start <= stop <= |a|
    requires forall i :: 0 <= i < start || stop <= i < |a| ==> a[i] == b[i]
    ensures b == a[..start] + b[start..stop] + a[stop..]
  {
  }

  /** Words that agree outside a window of sixteen positions and have the same CRC are equal. */
  lemma EqualChecks(init: Reg, a: seq<bool>, b: seq<bool>, start: nat, g: Reg)
    requires g[15] && |a| == |b| && start <= |a|
    requires forall i :: 0 <= i < |a| && !(start <= i < start + 16) ==> a[i] == b[i]
    requires Process(init, a, g) == Process(init, b, g)
    ensures a == b
  {
    var stop := if start + 16 <= |a| then start + 16 else |a|;
    var pre, post, x, y := a[..start], a[stop..], a[start..stop], b[start..stop];
    assert a == pre + x + post;
    SameOutside(a, b, start, stop);
    var c := Process(init, pre, g);
    ProcessInParts(init, pre, x, post, g);
    ProcessInParts(init, pre, y, post, g);
    ProcessInjective(Process(c, x, g), Process(c, y, g), post, g);
    WindowInjective(c, x, y, g);
  }

  lemma ClockedOut(v: Reg, g: Reg, n: nat)
    requires n > 0 && Shift(v, g) == Zeros(16)
    ensures Shifts(v, g, n) == Zeros(16)
  {
    ShiftsZero(g, n - 1);
  }

  lemma VanishingBurst(v: Reg, g: Reg)
    requires Shift(v, g) == Zeros(16)
    ensures Process(Zeros(16), v, g) == Zeros(16)
  {
    Chunk(Zeros(16), v, g);
    assert Xor(Zeros(16), Align(v)) == v;
    ClockedOut(v, g, |v|);
  }

  /** An even polynomial misses this burst: the register it fills clocks to zero at once. */
  lemma MissedBurst(g: Reg)
    requires !g[15]
    ensures IsBurst([true] + g[..15], Zeros(16), 0)
    ensures Process(Zeros(16), [true] + g[..15], g) == Process(Zeros(16), Zeros(16), g)
  {
    assert ([true] + g[..15])[0] != Zeros(16)[0];
    assert Shift([true] + g[..15], g) == Zeros(16);
    VanishingBurst([true] + g[..15], g);
    assert Shift(Zeros(16), g) == Zeros(16);
    VanishingBurst(Zeros(16), g);
  }

  /** Every burst within sixteen positions of every word is detected, exactly when the polynomial is odd. */
  lemma BurstsDetectedIffOdd(g: Reg)
    ensures DetectsBursts(g) <==> g[15]
  {
    if g[15] {
      forall init: Reg, a: seq<bool>, b: seq<bool>, start: nat | IsBurst(a, b, start)
        ensures Process(init, a, g) != Process(init, b, g)
      {
        if Process(init, a, g) == Process(init, b, g) {
          EqualChecks(init, a, b, if start <= |a| then start else |a|, g);
        }
      }
    } else {
      MissedBurst(g);
    }
  }

  // ------------------------------------------------------------------- the C code

  function ShiftLeft(w: Word, k: nat): Word
    requires k <= 32
  {
    w[k..] + Zeros(k)
  }

  function ShiftRight(w: Word, k: nat): Word
    requires k <= 32
  {
    Zeros(k) + w[..32 - k]
  }

  function Or(a: Word, b: Word): Word {
    seq(32, i requires 0 <= i < 32 => a[i] || b[i])
  }

  /** The word 0x1 << j. */
  function One(j: nat): Word
    requires j < 32
  {
    seq(32, i => i == 31 - j)
  }

  /** A word's low half. */
  function Low16(w: Word): Reg {
    w[16..]
  }

  /** `icrc1`: adds the next bits at the top of the register and clocks it once for each. */
  method Icrc1(crc: Word, onech: Word, leftShift: nat, poly: Word) returns (tmp: Word)
    ensures Low16(tmp) == Shifts(Xor(Low16(crc), Low16(ShiftLeft(onech, 8))), Low16(poly), leftShift)
  {
    tmp := Xor(crc, ShiftLeft(onech, 8));
    assert Low16(tmp) == Xor(Low16(crc), Low16(ShiftLeft(onech, 8)));
    var i := 0;
    while i < leftShift
      invariant 0 <= i <= leftShift
      invariant Shifts(Low16(tmp), Low16(poly), leftShift - i)
             == Shifts(Xor(Low16(crc), Low16(ShiftLeft(onech, 8))), Low16(poly), leftShift)
    {
      ghost var before := Low16(tmp);
      if tmp[16] {
        tmp := Xor(ShiftLeft(tmp, 1), poly);
      } else {
        tmp := ShiftLeft(tmp, 1);
      }
      assert Low16(tmp) == Shift(before, Low16(poly));
      i := i + 1;
    }
  }

  /** The buffer's bits: every non-zero character counts as a one. */
  function Bits(s: seq<int>): (r: seq<bool>)
    ensures |r| == |s|
  {
    seq(|s|, i requires 0 <= i < |s| => s[i] != 0)
  }

  lemma BitsConcat(a: seq<int>, b: seq<int>)
    ensures Bits(a + b) == Bits(a) + Bits(b)
  {
  }

  /** The inner loop of `icrc`: the next eight bits, or what is left of the message, from the top of a byte down. */
  method NextByte(buf: array<int>, len: nat, k: nat) returns (data: Word, i: nat)
    requires k < len <= buf.Length
    ensures i == (if len - k < 8 then len - k else 8)
    ensures Low16(ShiftLeft(data, 8)) == Align(Bits(buf[k..k + i]))
  {
    data := Zeros(32);
    i := 0;
    while i < 8
      invariant 0 <= i <= 8 && k + i <= len
      invariant data == Zeros(24) + Bits(buf[k..k + i]) + Zeros(8 - i)
      invariant k + i < len
    {
      if buf[k + i] != 0 && k + i < len {
        data := Or(data, One(7 - i));
      }
      assert buf[k..k + i + 1] == buf[k..k + i] + [buf[k + i]];
      assert data == Zeros(24) + Bits(buf[k..k + i + 1]) + Zeros(7 - i);
      i := i + 1;
      if k + i == len {
        break;
      }
    }
  }

  /** `cword << 16 >> 16`. */
  function KeepLow(w: Word): Word {
    ShiftRight(ShiftLeft(w, 16), 16)
  }

  lemma KeptLow(w: Word)
    ensures KeepLow(w) == Zeros(16) + Low16(w) && Low16(KeepLow(w)) == Low16(w)
  {
  }

  lemma AdvanceByte(init: Reg, c: Reg, done: seq<int>, chunk: seq<int>, all: seq<int>, g: Reg)
    requires |chunk| <= 8 && c == Process(init, Bits(done), g) && all == done + chunk
    ensures Shifts(Xor(c, Align(Bits(chunk))), g, |chunk|) == Process(init, Bits(all), g)
  {
    Chunk(c, Bits(chunk), g);
    ProcessConcat(init, Bits(done), Bits(chunk), g);
    BitsConcat(done, chunk);
  }

  /** One round of the outer loop of `icrc`. */
  method IcrcRound(ghost init: Reg, cword: Word, buf: array<int>, len: nat, k: nat, poly: Word) returns (cword': Word, k': nat)
    requires k < len <= buf.Length && Low16(cword) == Process(init, Bits(buf[..k]), Low16(poly))
    ensures k < k' <= len && cword' == Zeros(16) + Process(init, Bits(buf[..k']), Low16(poly))
  {
    var data, i := NextByte(buf, len, k);
    var tmp := Icrc1(KeepLow(cword), data, i, poly);
    KeptLow(cword);
    KeptLow(tmp);
    AdvanceByte(init, Low16(cword), buf[..k], buf[k..k + i], buf[..k + i], Low16(poly));
    return KeepLow(tmp), k + i;
  }

  /** The outer loop of `icrc`, eight bits at a time. */
  method IcrcRegister(crc: Word, buf: array<int>, len: nat, poly: Word) returns (cword: Word)
    requires 0 < len <= buf.Length
    ensures cword == Zeros(16) + Process(Low16(crc), Bits(buf[..len]), Low16(poly))
  {
    cword := crc;
    var k, stop := 0, false;
    while !stop
      invariant 0 <= k <= len && stop == (k == len)
      invariant Low16(cword) == Process(Low16(crc), Bits(buf[..k]), Low16(poly))
      invariant stop ==> cword == Zeros(16) + Process(Low16(crc), Bits(buf[..k]), Low16(poly))
      decreases len - k
    {
      cword, k := IcrcRound(Low16(crc), cword, buf, len, k, poly);
      stop := k == len;
    }
  }

  /** Writes the low half of a word behind the message, highest bit first. */
  method Paste(buf: array<int>, len: nat, word: Word)
    requires len + 16 <= buf.Length
    modifies buf
    ensures buf[..len] == old(buf[..len]) && buf[len + 16..] == old(buf[len + 16..])
    ensures forall i :: 0 <= i < 16 ==> buf[len + i] == if Low16(word)[i] then 1 else 0
  {
    var cword := ShiftLeft(word, 16);
    var i := 0;
    while i < 16
      invariant 0 <= i <= 16
      invariant forall k :: 0 <= k < buf.Length && !(len <= k < len + 16) ==> buf[k] == old(buf[k])
      invariant forall k :: len <= k < len + i ==> buf[k] == if word[16 + k - len] then 1 else 0
      invariant cword[..16 - i] == word[16 + i..]
    {
      buf[i + len] := if cword[0] then 1 else 0;
      assert cword[0] == cword[..16 - i][0] == word[16 + i];
      assert ShiftLeft(cword, 1)[..15 - i] == cword[..16 - i][1..];
      cword := ShiftLeft(cword, 1);
      i := i + 1;
    }
  }

  /**
  `icrc`: the result is the register after all message bits, and with `paste`
  its bits follow the message in the buffer.
  */
  method Icrc(crc: Word, buf: array<int>, len: nat, poly: Word, paste: bool) returns (ret: Word)
    requires 0 < len <= buf.Length && (paste ==> len + 16 <= buf.Length)
    modifies buf
    ensures ret == Zeros(16) + Process(Low16(crc), Bits(old(buf[..len])), Low16(poly))
    ensures buf[..len] == old(buf[..len])
    ensures paste ==> forall i :: 0 <= i < 16 ==> buf[len + i] == if Low16(ret)[i] then 1 else 0
    ensures paste ==> buf[len + 16..] == old(buf[len + 16..])
    ensures !paste ==> buf[..] == old(buf[..])
  {
    ret := IcrcRegister(crc, buf, len, poly);
    if paste {
      Paste(buf, len, ret);
    }
  }

  lemma PastedBits(s: seq<int>, len: nat, crc: Reg)
    requires |s| == len + 16 && forall i :: 0 <= i < 16 ==> s[len + i] == if crc[i] then 1 else 0
    ensures Bits(s) == Bits(s[..len]) + crc
  {
    assert forall i :: 0 <= i < 16 ==> Bits(s)[len + i] == crc[i];
  }

  /** Checking a message with its pasted CRC gives zero. */
  method PasteThenCheck(buf: array<int>, len: nat, poly: Word) returns (sent: Word, check: Word)
    requires 0 < len && len + 16 <= buf.Length
    modifies buf
    ensures Low16(sent) == Remainder(Bits(old(buf[..len])) + Zeros(16), Low16(poly))
    ensures buf[..len] == old(buf[..len]) && forall i :: 0 <= i < 16 ==> buf[len + i] == if Low16(sent)[i] then 1 else 0
    ensures check == Zeros(32)
  {
    ghost var g, msg := Low16(poly), Bits(buf[..len]);
    assert Low16(Zeros(32)) == Zeros(16);
    sent := Icrc(Zeros(32), buf, len, poly, true);
    SerialIsRemainder(msg, g);
    PastedBits(buf[..len + 16], len, Low16(sent));
    assert buf[..len + 16][..len] == buf[..len];
    CodewordChecks(Zeros(16), msg, g);
    check := Icrc(Zeros(32), buf, len + 16, poly, false);
    assert Zeros(16) + Zeros(16) == Zeros(32);
  }
}
