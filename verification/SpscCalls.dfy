/**
What the packet queue of module SpscQueue delivers, told by the calls alone: the
lengths given to the pushes, the bytes written into the granted slots and the
slot clock, all read off the schedule and not off the queue's own memory.
*/
module SpscCalls {
  import opened SpscQueue

  // ---------------------------------------------------- what the schedule says

  predicate IsPush(c: Choice) {
    c.Push? && c.len != 0
  }

  /** The lengths of the pushes among the first `k` choices; a push of length 0 is none. */
  function Pushes(sched: seq<Choice>, k: nat): (lens: seq<int>)
    requires k <= |sched|
    ensures |lens| <= k
  {
    if k == 0 then [] else Pushes(sched, k - 1) + if IsPush(sched[k - 1]) then [sched[k - 1].len] else []
  }

  /** Where in the schedule push number `i` was called. */
  function CallOf(sched: seq<Choice>, k: nat, i: nat): (p: nat)
    requires k <= |sched| && i < |Pushes(sched, k)|
    ensures p < k && IsPush(sched[p]) && |Pushes(sched, p)| == i && sched[p].len == Pushes(sched, k)[i]
  {
    if i < |Pushes(sched, k - 1)| then CallOf(sched, k - 1, i) else k - 1
  }

  /** The slot clock before choice `k`. */
  function ClockAt(sched: seq<Choice>, start: int, k: nat): int
    requires k <= |sched|
  {
    if k == 0 then start else if sched[k - 1].Tick? then sched[k - 1].clock else ClockAt(sched, start, k - 1)
  }

  /** The clock at the first producer step after each push call. */
  function PushClocks(sched: seq<Choice>, start: int, k: nat): seq<int>
    requires k <= |sched|
  {
    if k == 0 then [] else
      var before := PushClocks(sched, start, k - 1);
      if sched[k - 1].ProducerStep? && |before| < |Pushes(sched, k - 1)| then before + [ClockAt(sched, start, k - 1)] else before
  }

  /** The byte last written at index `j` of slot `w`, or the initial zero. Pushes go through the slots in turn. */
  function LastWrite(sched: seq<Choice>, m: nat, w: nat, j: nat, k: nat): Byte
    requires k <= |sched| && m > 0
  {
    if k == 0 then 0 else
      if sched[k - 1].WriteByte? && sched[k - 1].index == j && Slot(|Pushes(sched, k - 1)|, m) == w then sched[k - 1].value
      else LastWrite(sched, m, w, j, k - 1)
  }

  function Releases(sched: seq<Choice>, k: nat): nat
    requires k <= |sched|
  {
    if k == 0 then 0 else Releases(sched, k - 1) + if sched[k - 1].Release? then 1 else 0
  }

  // ------------------------------------------------- lengths, clocks and releases

  predicate Busy(pc: ProducerPc) {
    pc.PClock? || pc.PStamp? || pc.PLen? || pc.PValid?
  }

  predicate ClockRead(pc: ProducerPc) {
    pc.PStamp? || pc.PLen? || pc.PValid?
  }

  /** The queue has published what the calls gave it, up to the push in progress. */
  ghost predicate CallsOk(s: State, lens: seq<int>, clocks: seq<int>, clock: int, releases: nat) {
    var n := |s.pushed|;
    && s.clock == clock
    && |lens| == n + (if Busy(s.prod.pc) then 1 else 0)
    && |clocks| == n + (if ClockRead(s.prod.pc) then 1 else 0)
    && (forall i :: 0 <= i < n ==> s.pushed[i].len == lens[i] && s.pushed[i].at == clocks[i])
    && (Busy(s.prod.pc) ==> s.prod.len == lens[n])
    && (ClockRead(s.prod.pc) ==> s.prod.now == clocks[n])
    && releases == |s.released| + if s.cons.pc.CClear? then 1 else 0
  }

  lemma CallsStep(s: State, c: Choice, lens: seq<int>, clocks: seq<int>, clock: int, releases: nat)
    requires Inv(s) && Enabled(s, c) && CallsOk(s, lens, clocks, clock, releases)
    ensures CallsOk(Do(s, c),
      if IsPush(c) then lens + [c.len] else lens,
      if c.ProducerStep? && |clocks| < |lens| then clocks + [clock] else clocks,
      if c.Tick? then c.clock else clock,
      if c.Release? then releases + 1 else releases)
  {
  }

  ghost predicate CallsAt(run: seq<State>, sched: seq<Choice>, k: nat) {
    && k < |run| && k <= |sched|
    && CallsOk(run[k], Pushes(sched, k), PushClocks(sched, run[0].clock, k), ClockAt(sched, run[0].clock, k), Releases(sched, k))
  }

  lemma CallsAtStart(m: nat, run: seq<State>, sched: seq<Choice>)
    requires IsRun(m, run, sched)
    ensures CallsAt(run, sched, 0)
  {
  }

  lemma CallsAtStep(m: nat, run: seq<State>, sched: seq<Choice>, k: nat)
    requires IsRun(m, run, sched) && k < |sched| && CallsAt(run, sched, k)
    ensures CallsAt(run, sched, k + 1)
  {
    RunInv(m, run, sched, k);
    assert Enabled(run[k], sched[k]) && run[k + 1] == Do(run[k], sched[k]);
    CallsStep(run[k], sched[k], Pushes(sched, k), PushClocks(sched, run[0].clock, k),
              ClockAt(sched, run[0].clock, k), Releases(sched, k));
  }

  lemma {:induction false} RunCalls(m: nat, run: seq<State>, sched: seq<Choice>, k: nat)
    requires IsRun(m, run, sched) && k < |run|
    ensures CallsAt(run, sched, k)
  {
    if k == 0 {
      CallsAtStart(m, run, sched);
    } else {
      RunCalls(m, run, sched, k - 1);
      CallsAtStep(m, run, sched, k - 1);
    }
  }

  // ------------------------------------------------------------------------ bytes

  /** All buffers as the writes left them. */
  function Buffers(sched: seq<Choice>, m: nat, size: nat, k: nat): (bufs: seq<seq<Byte>>)
    requires k <= |sched| && m > 0
    ensures |bufs| == m && forall w :: 0 <= w < m ==> |bufs[w]| == size
  {
    seq(m, w requires 0 <= w < m => seq(size, j requires 0 <= j < size => LastWrite(sched, m, w, j, k)))
  }

  /** The buffers after one more choice, with `n` pushes before it. */
  function NextBuffers(bufs: seq<seq<Byte>>, n: nat, c: Choice): seq<seq<Byte>>
    requires |bufs| > 0 && (c.WriteByte? ==> c.index < |bufs[Slot(n, |bufs|)]|)
  {
    if c.WriteByte? then bufs[Slot(n, |bufs|) := bufs[Slot(n, |bufs|)][c.index := c.value]] else bufs
  }

  lemma BuffersNext(sched: seq<Choice>, m: nat, size: nat, k: nat)
    requires k < |sched| && m > 0 && (sched[k].WriteByte? ==> sched[k].index < size)
    ensures Buffers(sched, m, size, k + 1) == NextBuffers(Buffers(sched, m, size, k), |Pushes(sched, k)|, sched[k])
  {
    var a, b := Buffers(sched, m, size, k + 1), NextBuffers(Buffers(sched, m, size, k), |Pushes(sched, k)|, sched[k]);
    forall w: nat | w < m ensures a[w] == b[w] {
      forall j: nat | j < size ensures a[w][j] == b[w][j] {
      }
    }
  }

  /** The content of the granted slot at each push call. */
  function Payloads(sched: seq<Choice>, m: nat, size: nat, k: nat): (loads: seq<seq<Byte>>)
    requires k <= |sched| && m > 0
    ensures |loads| == |Pushes(sched, k)|
  {
    if k == 0 then [] else
      Payloads(sched, m, size, k - 1) +
      if IsPush(sched[k - 1]) then [Buffers(sched, m, size, k - 1)[Slot(|Pushes(sched, k - 1)|, m)]] else []
  }

  /** Push number `i` carries, at every index, the byte last written there before its call. */
  lemma {:induction false} PayloadAt(sched: seq<Choice>, m: nat, size: nat, k: nat, i: nat, j: nat)
    requires k <= |sched| && m > 0 && i < |Pushes(sched, k)| && j < size
    ensures |Payloads(sched, m, size, k)[i]| == size
    ensures Payloads(sched, m, size, k)[i][j] == LastWrite(sched, m, Slot(i, m), j, CallOf(sched, k, i))
  {
    if i < |Pushes(sched, k - 1)| {
      PayloadAt(sched, m, size, k - 1, i, j);
    }
  }

  ghost predicate DataOk(s: State, bufs: seq<seq<Byte>>, loads: seq<seq<Byte>>) {
    var n := |s.pushed|;
    && s.write < |s.packets| == |bufs|
    && (forall w :: 0 <= w < |bufs| ==> s.packets[w].data == bufs[w])
    && |loads| == n + (if Busy(s.prod.pc) then 1 else 0)
    && (forall i :: 0 <= i < n ==> s.pushed[i].data == loads[i])
    && (Busy(s.prod.pc) ==> s.packets[s.write].data == loads[n])
  }

  lemma DataWrite(s: State, c: Choice, bufs: seq<seq<Byte>>, loads: seq<seq<Byte>>)
    requires Inv(s) && Enabled(s, c) && DataOk(s, bufs, loads) && c.WriteByte?
    ensures |bufs| > 0 && c.index < |bufs[Slot(|loads|, |bufs|)]|
    ensures DataOk(Do(s, c), NextBuffers(bufs, |loads|, c), loads)
  {
  }

  lemma DataPush(s: State, c: Choice, bufs: seq<seq<Byte>>, loads: seq<seq<Byte>>)
    requires Inv(s) && Enabled(s, c) && DataOk(s, bufs, loads) && c.Push?
    ensures |bufs| > 0
    ensures DataOk(Do(s, c), bufs, if IsPush(c) then loads + [bufs[Slot(|loads|, |bufs|)]] else loads)
  {
  }

  lemma DataQuiet(s: State, c: Choice, bufs: seq<seq<Byte>>, loads: seq<seq<Byte>>)
    requires Inv(s) && Enabled(s, c) && DataOk(s, bufs, loads) && !c.Push? && !c.WriteByte?
    ensures DataOk(Do(s, c), bufs, loads)
  {
  }

  lemma DataStep(s: State, c: Choice, bufs: seq<seq<Byte>>, loads: seq<seq<Byte>>)
    requires Inv(s) && Enabled(s, c) && DataOk(s, bufs, loads)
    ensures |bufs| > 0 && (c.WriteByte? ==> c.index < |bufs[Slot(|loads|, |bufs|)]|)
    ensures DataOk(Do(s, c), NextBuffers(bufs, |loads|, c), if IsPush(c) then loads + [bufs[Slot(|loads|, |bufs|)]] else loads)
  {
    if c.WriteByte? {
      DataWrite(s, c, bufs, loads);
    } else if c.Push? {
      DataPush(s, c, bufs, loads);
    } else {
      DataQuiet(s, c, bufs, loads);
    }
  }

  lemma DataInit(m: nat, size: nat, delay: nat, clock: int, sched: seq<Choice>)
    requires m > 0
    ensures DataOk(Init(m, size, delay, clock), Buffers(sched, m, size, 0), [])
  {
  }

  lemma WriteInRange(m: nat, run: seq<State>, sched: seq<Choice>, k: nat)
    requires IsRun(m, run, sched) && k < |sched|
    ensures sched[k].WriteByte? ==> sched[k].index < run[0].size
  {
    SizeStays(m, run, sched, k);
    assert Enabled(run[k], sched[k]);
  }

  lemma {:induction false} SizeStays(m: nat, run: seq<State>, sched: seq<Choice>, k: nat)
    requires IsRun(m, run, sched) && k < |run|
    ensures run[k].size == run[0].size && run[k].delay == run[0].delay
  {
    if k > 0 {
      SizeStays(m, run, sched, k - 1);
      assert Enabled(run[k - 1], sched[k - 1]) && run[k - 1 + 1] == Do(run[k - 1], sched[k - 1]);
    }
  }

  ghost predicate DataAt(m: nat, run: seq<State>, sched: seq<Choice>, k: nat) {
    && m > 0 && k < |run| && k <= |sched|
    && DataOk(run[k], Buffers(sched, m, run[0].size, k), Payloads(sched, m, run[0].size, k))
  }

  lemma DataAtStep(m: nat, run: seq<State>, sched: seq<Choice>, k: nat)
    requires IsRun(m, run, sched) && k < |sched| && DataAt(m, run, sched, k)
    ensures DataAt(m, run, sched, k + 1)
  {
    var size := run[0].size;
    RunInv(m, run, sched, k);
    assert Enabled(run[k], sched[k]) && run[k + 1] == Do(run[k], sched[k]);
    WriteInRange(m, run, sched, k);
    BuffersNext(sched, m, size, k);
    DataStep(run[k], sched[k], Buffers(sched, m, size, k), Payloads(sched, m, size, k));
  }

  lemma {:induction false} RunData(m: nat, run: seq<State>, sched: seq<Choice>, k: nat)
    requires IsRun(m, run, sched) && k < |run|
    ensures DataAt(m, run, sched, k)
  {
    if k == 0 {
      DataInit(m, run[0].size, run[0].delay, run[0].clock, sched);
    } else {
      RunData(m, run, sched, k - 1);
      DataAtStep(m, run, sched, k - 1);
    }
  }

  // ----------------------------------------------------------------- main results

  /** Every push is published, in order, with the length it was given and the clock at its first step; only the one in progress may be missing. */
  lemma PushesPublished(m: nat, run: seq<State>, sched: seq<Choice>, k: nat)
    requires IsRun(m, run, sched) && k < |run|
    ensures |Pushes(sched, k)| == |run[k].pushed| + if Busy(run[k].prod.pc) then 1 else 0
    ensures |run[k].pushed| <= |PushClocks(sched, run[0].clock, k)|
    ensures forall i: nat :: i < |run[k].pushed| ==>
      && run[k].pushed[i].len == Pushes(sched, k)[i]
      && run[k].pushed[i].at == PushClocks(sched, run[0].clock, k)[i]
  {
    RunCalls(m, run, sched, k);
  }

  /** A push publishes, at every index, the byte last written there before the call. */
  lemma BytesPublished(m: nat, run: seq<State>, sched: seq<Choice>, k: nat, i: nat, j: nat)
    requires IsRun(m, run, sched) && k < |run| && i < |run[k].pushed| && j < run[0].size
    ensures i < |Pushes(sched, k)| && |run[k].pushed[i].data| == run[0].size
    ensures run[k].pushed[i].data[j] == LastWrite(sched, m, Slot(i, m), j, CallOf(sched, k, i))
  {
    RunData(m, run, sched, k);
    PayloadAt(sched, m, run[0].size, k, i, j);
  }

  /** Every release takes effect; only the one in progress may be outstanding. */
  lemma ReleasesCounted(m: nat, run: seq<State>, sched: seq<Choice>, k: nat)
    requires IsRun(m, run, sched) && k < |run|
    ensures Releases(sched, k) == |run[k].released| + if run[k].cons.pc.CClear? then 1 else 0
  {
    RunCalls(m, run, sched, k);
  }

  /** What release number `i` saw is what push call number `i` was given: length and slot. */
  lemma CallDelivered(m: nat, run: seq<State>, sched: seq<Choice>, k: nat, i: nat)
    requires IsRun(m, run, sched) && k < |run| && i < |run[k].released|
    ensures i < |Pushes(sched, k)| && i < |PushClocks(sched, run[0].clock, k)|
    ensures run[k].released[i].len == Pushes(sched, k)[i]
    ensures run[k].released[i].stamp == PushClocks(sched, run[0].clock, k)[i] + run[0].delay
  {
    FifoExactlyOnce(m, run, sched, k);
    PushesPublished(m, run, sched, k);
    SizeStays(m, run, sched, k);
    DelayIsOrdered(m, run, sched, k, i, i);
    assert Faithful(run[k].released[i], run[k].pushed[i]);
  }

  /** And so is every byte that was read between pop and release. */
  lemma ByteDelivered(m: nat, run: seq<State>, sched: seq<Choice>, k: nat, i: nat, j: nat)
    requires IsRun(m, run, sched) && k < |run| && i < |run[k].released| && j < |run[k].released[i].bytes|
    ensures i < |Pushes(sched, k)| && j < run[0].size
    ensures run[k].released[i].bytes[j] == LastWrite(sched, m, Slot(i, m), j, CallOf(sched, k, i))
  {
    FifoExactlyOnce(m, run, sched, k);
    RunInv(m, run, sched, k);
    SizeStays(m, run, sched, k);
    assert Faithful(run[k].released[i], run[k].pushed[i]);
    BytesPublished(m, run, sched, k, i, j);
  }

  /** A packet is held only once the slot clock has reached its due slot. */
  lemma NeverEarly(m: nat, run: seq<State>, sched: seq<Choice>, k: nat)
    requires IsRun(m, run, sched) && k < |run| && run[k].cons.pc.CHold?
    ensures |run[k].released| < |run[k].pushed| && run[k].pushed[|run[k].released|].due <= ClockAt(sched, run[0].clock, k)
  {
    RunInv(m, run, sched, k);
    RunCalls(m, run, sched, k);
  }
}
