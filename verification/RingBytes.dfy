/** Byte copying and circular reading, for the stores that wrap around. */
module RingBytes {
  /** `x` brought back into a buffer of `size` that it may have left once. */
  function Wrap(x: nat, size: nat): nat {
    if x < size then x else x - size
  }

  /** `y` is where `x` is in the buffer; its end stands for its start. */
  predicate Meets(x: nat, y: nat, size: nat) {
    y == Wrap(x, size) || (y == size && x == size)
  }

  /** The `n` bytes from `at` on, around the end of the buffer. */
  function Ring(b: seq<int>, at: nat, n: nat): (r: seq<int>)
    requires at <= |b| && n <= |b|
    ensures |r| == n
  {
    seq(n, i requires 0 <= i < n => b[Wrap(at + i, |b|)])
  }

  lemma SameAsRing(s: seq<int>, b: seq<int>, at: nat, n: nat)
    requires at <= |b| && n <= |b| && |s| == n && forall i: nat :: i < n ==> s[i] == b[Wrap(at + i, |b|)]
    ensures s == Ring(b, at, n)
  {
  }

  /** `memcpy` of `n` bytes. */
  method Memcpy(dst: array<int>, at: nat, src: array<int>, from: nat, n: nat)
    requires dst != src && at + n <= dst.Length && from + n <= src.Length
    modifies dst
    ensures forall j :: 0 <= j < dst.Length ==> dst[j] == if at <= j < at + n then src[from + j - at] else old(dst[j])
  {
    var i := 0;
    while i < n
      invariant 0 <= i <= n
      invariant forall j :: 0 <= j < dst.Length ==> dst[j] == if at <= j < at + i then src[from + j - at] else old(dst[j])
    {
      dst[at + i] := src[from + i];
      i := i + 1;
    }
  }

  /** `b` overwritten with `s` from `at` on, around the end. */
  function Wrapped(b: seq<int>, at: nat, s: seq<int>): (r: seq<int>)
    requires at <= |b| && |s| <= |b|
    ensures |r| == |b|
  {
    seq(|b|, i requires 0 <= i < |b| =>
      if at <= i < at + |s| then s[i - at] else if i + |b| < at + |s| then s[i + |b| - at] else b[i])
  }

  lemma WrappedAt(b: seq<int>, at: nat, n: nat, s: seq<int>, end: nat, i: nat)
    requires at <= |b| && n + |s| <= |b| && Meets(at + n, end, |b|) && end <= |b| && i < n + |s|
    ensures Wrapped(b, end, s)[Wrap(at + i, |b|)] == if i < n then b[Wrap(at + i, |b|)] else s[i - n]
  {
  }

  /** Writing behind the data appends to it. */
  lemma RingAppend(b: seq<int>, at: nat, n: nat, s: seq<int>, end: nat)
    requires at <= |b| && n + |s| <= |b| && Meets(at + n, end, |b|) && end <= |b|
    ensures Ring(Wrapped(b, end, s), at, n + |s|) == Ring(b, at, n) + s
  {
    var w := Wrapped(b, end, s);
    var r, q := Ring(w, at, n + |s|), Ring(b, at, n) + s;
    forall i: nat | i < n + |s| ensures r[i] == q[i] {
      WrappedAt(b, at, n, s, end, i);
      assert r[i] == w[Wrap(at + i, |b|)];
    }
  }

  /** Reading in two parts. */
  lemma RingSplit(b: seq<int>, at: nat, n: nat, m: nat, mid: nat)
    requires at <= |b| && m <= n <= |b| && Meets(at + m, mid, |b|) && mid <= |b|
    ensures Ring(b, at, n) == Ring(b, at, m) + Ring(b, mid, n - m)
  {
    var r, q := Ring(b, at, n), Ring(b, at, m) + Ring(b, mid, n - m);
    forall i: nat | i < n ensures r[i] == q[i] {
      if i >= m {
        assert q[i] == Ring(b, mid, n - m)[i - m];
        assert b[Wrap(mid + (i - m), |b|)] == b[Wrap(at + i, |b|)];
      }
    }
  }

  /** Reading around the end is reading to the end and on from the start. */
  lemma RingParts(b: seq<int>, at: nat, n: nat)
    requires at <= |b| && n <= |b|
    ensures Ring(b, at, n) == if at + n <= |b| then b[at..at + n] else b[at..] + b[..at + n - |b|]
  {
    var r, q := Ring(b, at, n), if at + n <= |b| then b[at..at + n] else b[at..] + b[..at + n - |b|];
    forall i: nat | i < n ensures r[i] == q[i] {
      assert r[i] == b[Wrap(at + i, |b|)];
      if at + n > |b| && at + i >= |b| {
        assert q[i] == b[..at + n - |b|][i - (|b| - at)];
      } else {
        assert q[i] == b[at..][i];
      }
    }
  }
}
