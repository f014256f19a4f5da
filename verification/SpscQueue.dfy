/**
The wait-free single-producer single-consumer packet queue of
rtdal_lnx/src/rtdal_itfspscq.c in its non-blocking mode (delay >= 0), as a
transition system in which every access to shared memory is a step of its own.
The two sides share only the packet slots, their `valid` flags and the slot
clock; `read` belongs to the consumer and `write` to the producer.
*/
module SpscQueue {
  import Arith

  type Byte = bv8

  /** One entry of `packets[]` with the buffer that its `data` refers to. */
  datatype Packet = Packet(valid: bool, tstamp: int, len: int, data: seq<Byte>)

  /** What one push published: the clock it read, the due time, the length and the whole buffer. */
  datatype Pushed = Pushed(at: int, due: int, len: int, data: seq<Byte>)

  /** What one pop and release saw: the clock it read, the time stamp, the length and the bytes copied out. */
  datatype Received = Received(at: int, stamp: int, len: int, bytes: seq<Byte>)

  /** Where the producer stands: idle, in request, holding a slot, or somewhere in push. */
  datatype ProducerPc = PIdle | PTest | PHold | PClock | PStamp | PLen | PValid | PAdvance

  /** Where the consumer stands: idle, somewhere in pop, holding a packet, or in release. */
  datatype ConsumerPc = CIdle | CTest | CClock | CDue | CLen | CHold | CClear | CAdvance

  datatype Producer = Producer(pc: ProducerPc, len: int, now: int)
  datatype Consumer = Consumer(pc: ConsumerPc, now: int, stamp: int, len: int, got: seq<Byte>)

  /** `pushed` and `released` are history. */
  datatype State = State(
    delay: nat, size: nat, packets: seq<Packet>, read: nat, write: nat, clock: int,
    prod: Producer, cons: Consumer, pushed: seq<Pushed>, released: seq<Received>)

  /** What happens next: a client starts a call or touches its buffer, a side takes the next step of its call, or the clock moves. */
  datatype Choice =
    | Request | WriteByte(index: nat, value: Byte) | Push(len: int) | ProducerStep
    | Pop | ReadByte | Release | ConsumerStep
    | Tick(clock: int)

  /** The index update at the end of push and release. */
  function Advance(i: nat, m: nat): nat
    requires i < m
  {
    i + if i + 1 >= m then 1 - m else 1
  }

  function Init(m: nat, size: nat, delay: nat, clock: int): State {
    State(delay, size, seq(m, _ => Packet(false, 0, 0, seq(size, _ => 0))), 0, 0, clock,
          Producer(PIdle, 0, 0), Consumer(CIdle, 0, 0, 0, []), [], [])
  }

  predicate Shaped(s: State) {
    && s.read < |s.packets| && s.write < |s.packets|
    && forall i :: 0 <= i < |s.packets| ==> |s.packets[i].data| == s.size
  }

  predicate Enabled(s: State, c: Choice) {
    && Shaped(s)
    && match c
       case Request => s.prod.pc.PIdle? || s.prod.pc.PHold?
       case WriteByte(j, _) => s.prod.pc.PHold? && j < s.size
       case Push(_) => s.prod.pc.PHold?
       case ProducerStep => !s.prod.pc.PIdle? && !s.prod.pc.PHold?
       case Pop => s.cons.pc.CIdle? || s.cons.pc.CHold?
       case ReadByte => s.cons.pc.CHold? && |s.cons.got| < s.size
       case Release => s.cons.pc.CHold?
       case ConsumerStep => !s.cons.pc.CIdle? && !s.cons.pc.CHold?
       case Tick(t) => t >= s.clock
  }

  function ProducerDo(s: State): State
    requires Enabled(s, ProducerStep)
  {
    var p, slot := s.prod, s.packets[s.write];
    match p.pc
    case PTest => s.(prod := p.(pc := if slot.valid then PIdle else PHold))
    case PClock => s.(prod := p.(pc := PStamp, now := s.clock))
    case PStamp => s.(prod := p.(pc := PLen), packets := s.packets[s.write := slot.(tstamp := p.now + s.delay)])
    case PLen => s.(prod := p.(pc := PValid), packets := s.packets[s.write := slot.(len := p.len)])
    case PValid =>
      s.(prod := p.(pc := PAdvance), packets := s.packets[s.write := slot.(valid := true)],
         pushed := s.pushed + [Pushed(p.now, slot.tstamp, slot.len, slot.data)])
    case PAdvance => s.(prod := p.(pc := PIdle), write := Advance(s.write, |s.packets|))
  }

  function ConsumerDo(s: State): State
    requires Enabled(s, ConsumerStep)
  {
    var c, slot := s.cons, s.packets[s.read];
    match c.pc
    case CTest => s.(cons := c.(pc := if slot.valid then CClock else CIdle))
    case CClock => s.(cons := c.(pc := CDue, now := s.clock))
    case CDue => s.(cons := c.(pc := if slot.tstamp > c.now then CIdle else CLen, stamp := slot.tstamp))
    case CLen => s.(cons := c.(pc := CHold, len := slot.len, got := []))
    case CClear =>
      s.(cons := c.(pc := CAdvance), packets := s.packets[s.read := slot.(valid := false)],
         released := s.released + [Received(c.now, c.stamp, c.len, c.got)])
    case CAdvance => s.(cons := c.(pc := CIdle), read := Advance(s.read, |s.packets|))
  }

  function Do(s: State, c: Choice): State
    requires Enabled(s, c)
  {
    match c
    case Request => s.(prod := s.prod.(pc := PTest))
    case WriteByte(j, v) =>
      var slot := s.packets[s.write];
      s.(packets := s.packets[s.write := slot.(data := slot.data[j := v])])
    case Push(len) => s.(prod := if len == 0 then s.prod.(pc := PIdle) else s.prod.(pc := PClock, len := len))
    case ProducerStep => ProducerDo(s)
    case Pop => s.(cons := s.cons.(pc := CTest))
    case ReadByte => s.(cons := s.cons.(got := s.cons.got + [s.packets[s.read].data[|s.cons.got|]]))
    case Release => s.(cons := s.cons.(pc := CClear))
    case ConsumerStep => ConsumerDo(s)
    case Tick(t) => s.(clock := t)
  }

  /** `run` is what the choices in `sched` lead to from an empty queue of `m` slots. */
  predicate IsRun(m: nat, run: seq<State>, sched: seq<Choice>) {
    && m > 0
    && |run| == |sched| + 1
    && run[0] == Init(m, run[0].size, run[0].delay, run[0].clock)
    && forall i :: 0 <= i < |sched| ==> Enabled(run[i], sched[i]) && run[i + 1] == Do(run[i], sched[i])
  }

  // ------------------------------------------------------------ slot arithmetic

  /** The slot that packet number `k` goes through. */
  function Slot(k: nat, m: nat): (r: nat)
    requires m > 0
    ensures r < m
  {
    k % m
  }

  lemma SlotNext(k: nat, m: nat)
    requires m > 0
    ensures Advance(Slot(k, m), m) == Slot(k + 1, m)
  {
    Arith.DivMod(k, m);
    if k % m + 1 == m {
      assert k + 1 == (k / m + 1) * m + 0;
      Arith.Unique(k + 1, k / m + 1, 0, m);
    } else {
      Arith.Unique(k + 1, k / m, k % m + 1, m);
    }
  }

  lemma SlotDistinct(a: nat, b: nat, m: nat)
    requires m > 0 && a < b < a + m
    ensures Slot(a, m) != Slot(b, m)
  {
    Arith.DivMod(a, m);
    Arith.DivMod(b, m);
    var d := b / m - a / m;
    assert d * m == b - b % m - (a - a % m);
    Arith.MulSign(d, m);
  }

  lemma SlotPeriod(k: nat, m: nat)
    requires m > 0
    ensures Slot(k + m, m) == Slot(k, m)
  {
    Arith.DivMod(k, m);
    assert k + m == (k / m + 1) * m + k % m;
    Arith.Unique(k + m, k / m + 1, k % m, m);
  }

  /** Stepping `j` slots on from where packet `k` goes. */
  lemma SlotOffset(k: nat, j: nat, m: nat)
    requires m > 0
    ensures Slot(Slot(k, m) + j, m) == Slot(k + j, m)
  {
    Arith.DivMod(k, m);
    Arith.DivMod(k % m + j, m);
    var q, r := (k % m + j) / m, (k % m + j) % m;
    assert k + j == (k / m + q) * m + r;
    Arith.Unique(k + j, k / m + q, r, m);
  }

  lemma SlotsDistinct(lo: nat, x: nat, m: nat)
    requires m > 0 && lo <= x <= lo + m
    ensures forall k: nat {:trigger Slot(k, m)} :: lo <= k < x && x < lo + m ==> Slot(k, m) != Slot(x, m)
    ensures forall k: nat {:trigger Slot(k, m)} :: lo < k < lo + m ==> Slot(k, m) != Slot(lo, m)
  {
    forall k: nat | lo <= k < x && x < lo + m ensures Slot(k, m) != Slot(x, m) {
      SlotDistinct(k, x, m);
    }
    forall k: nat | lo < k < lo + m ensures Slot(k, m) != Slot(lo, m) {
      SlotDistinct(lo, k, m);
    }
  }

  // ---------------------------------------------------------------- invariant

  /** The slot holds exactly what push number k published. */
  predicate Carries(p: Packet, m: Pushed) {
    p.valid && p.tstamp == m.due && p.len == m.len && p.data == m.data
  }

  ghost predicate IndicesOk(s: State) {
    var m, pushed, released := |s.packets|, |s.pushed|, |s.released|;
    && m > 0
    && released <= pushed <= released + m
    && (if s.prod.pc.PAdvance? then pushed > 0 && s.write == Slot(pushed - 1, m) else s.write == Slot(pushed, m))
    && (if s.cons.pc.CAdvance? then released > 0 && s.read == Slot(released - 1, m) else s.read == Slot(released, m))
  }

  /** Packets number released..|pushed| sit in their slots, and every other slot is free. */
  ghost predicate SlotsOk(packets: seq<Packet>, pushed: seq<Pushed>, released: nat)
    requires |packets| > 0
  {
    && (forall k: nat {:trigger pushed[k]} {:trigger Slot(k, |packets|)} ::
          released <= k < |pushed| ==> Carries(packets[Slot(k, |packets|)], pushed[k]))
    && (forall k: nat {:trigger Slot(k, |packets|)} ::
          |pushed| <= k < released + |packets| ==> !packets[Slot(k, |packets|)].valid)
  }

  /** Publishing into the slot after the last packet. */
  lemma SlotsAfterPush(packets: seq<Packet>, pushed: seq<Pushed>, released: nat, p: Packet, msg: Pushed)
    requires |packets| > 0 && released <= |pushed| < released + |packets|
    requires SlotsOk(packets, pushed, released) && Carries(p, msg)
    ensures SlotsOk(packets[Slot(|pushed|, |packets|) := p], pushed + [msg], released)
  {
    var m, n := |packets|, |pushed|;
    var packets', pushed' := packets[Slot(n, m) := p], pushed + [msg];
    SlotsDistinct(released, n, m);
    forall k: nat | released <= k < n + 1 ensures Carries(packets'[Slot(k, m)], pushed'[k]) {
      if k < n {
        assert Carries(packets[Slot(k, m)], pushed[k]);
      }
    }
    forall k: nat | n + 1 <= k < released + m ensures !packets'[Slot(k, m)].valid {
      SlotDistinct(n, k, m);
    }
  }

  /** Clearing the slot of the oldest packet. */
  lemma SlotsAfterRelease(packets: seq<Packet>, pushed: seq<Pushed>, released: nat, p: Packet)
    requires |packets| > 0 && released < |pushed| <= released + |packets|
    requires SlotsOk(packets, pushed, released) && !p.valid
    ensures SlotsOk(packets[Slot(released, |packets|) := p], pushed, released + 1)
  {
    var m, n := |packets|, |pushed|;
    var packets' := packets[Slot(released, m) := p];
    SlotsDistinct(released, n, m);
    SlotPeriod(released, m);
    forall k: nat | released + 1 <= k < n ensures Carries(packets'[Slot(k, m)], pushed[k]) {
      SlotDistinct(released, k, m);
    }
    forall k: nat | n <= k < released + 1 + m ensures !packets'[Slot(k, m)].valid {
      if k < released + m {
        SlotDistinct(released, k, m);
      }
    }
  }

  /** Changing the free slot after the last packet disturbs nothing. */
  lemma SlotsAfterFill(packets: seq<Packet>, pushed: seq<Pushed>, released: nat, p: Packet)
    requires |packets| > 0 && released <= |pushed| < released + |packets|
    requires SlotsOk(packets, pushed, released) && !p.valid
    ensures SlotsOk(packets[Slot(|pushed|, |packets|) := p], pushed, released)
  {
    SlotsDistinct(released, |pushed|, |packets|);
  }

  /** The flag at the write slot tells a full queue from one with space. */
  lemma FullIffWriteValid(packets: seq<Packet>, pushed: seq<Pushed>, released: nat)
    requires |packets| > 0 && released <= |pushed| <= released + |packets|
    requires SlotsOk(packets, pushed, released)
    ensures packets[Slot(|pushed|, |packets|)].valid <==> |pushed| == released + |packets|
  {
    if |pushed| == released + |packets| {
      SlotPeriod(released, |packets|);
      assert Carries(packets[Slot(released, |packets|)], pushed[released]);
    }
  }

  /** The flag at the read slot tells an empty queue, and what it carries if not. */
  lemma EmptyIffReadInvalid(packets: seq<Packet>, pushed: seq<Pushed>, released: nat)
    requires |packets| > 0 && released <= |pushed| <= released + |packets|
    requires SlotsOk(packets, pushed, released)
    ensures packets[Slot(released, |packets|)].valid <==> released < |pushed|
    ensures released < |pushed| ==> Carries(packets[Slot(released, |packets|)], pushed[released])
  {
    if released < |pushed| {
      assert Carries(packets[Slot(released, |packets|)], pushed[released]);
    }
  }

  predicate ProducerHolds(pc: ProducerPc) {
    pc.PHold? || pc.PClock? || pc.PStamp? || pc.PLen? || pc.PValid?
  }

  predicate ConsumerHolds(pc: ConsumerPc) {
    pc.CClock? || pc.CDue? || pc.CLen? || pc.CHold? || pc.CClear?
  }

  ghost predicate ProducerOk(s: State)
    requires s.write < |s.packets|
  {
    var p, slot := s.prod, s.packets[s.write];
    && (ProducerHolds(p.pc) ==> |s.pushed| < |s.released| + |s.packets|)
    && (p.pc.PClock? || p.pc.PStamp? || p.pc.PLen? || p.pc.PValid? ==> p.len != 0)
    && (p.pc.PStamp? || p.pc.PLen? || p.pc.PValid? ==> p.now <= s.clock)
    && (p.pc.PLen? || p.pc.PValid? ==> slot.tstamp == p.now + s.delay)
    && (p.pc.PValid? ==> slot.len == p.len)
  }

  ghost predicate ConsumerOk(s: State) {
    var c, k := s.cons, |s.released|;
    && (ConsumerHolds(c.pc) ==> k < |s.pushed|)
    && (c.pc.CLen? || c.pc.CHold? || c.pc.CClear? ==> s.pushed[k].due <= c.now && c.stamp == s.pushed[k].due)
    && (c.pc.CDue? || c.pc.CLen? || c.pc.CHold? || c.pc.CClear? ==> c.now <= s.clock)
    && (c.pc.CHold? || c.pc.CClear? ==>
          && c.len == s.pushed[k].len
          && |c.got| <= s.size == |s.pushed[k].data|
          && c.got == s.pushed[k].data[..|c.got|])
  }

  /** The release of packet k saw exactly what push k published, and not before it was due. */
  predicate Faithful(r: Received, m: Pushed) {
    && r.len == m.len && r.stamp == m.due && m.due <= r.at
    && |r.bytes| <= |m.data| && r.bytes == m.data[..|r.bytes|]
  }

  /** No push after this moment can read an earlier clock than this one. */
  function Horizon(s: State): int {
    if s.prod.pc.PStamp? || s.prod.pc.PLen? || s.prod.pc.PValid? then s.prod.now else s.clock
  }

  ghost predicate HistoryOk(s: State) {
    && |s.released| <= |s.pushed|
    && (forall k: nat {:trigger s.pushed[k]} :: k < |s.pushed| ==>
          && |s.pushed[k].data| == s.size
          && s.pushed[k].len != 0
          && s.pushed[k].due == s.pushed[k].at + s.delay
          && s.pushed[k].at <= Horizon(s))
    && (forall j: nat, k: nat {:trigger s.pushed[j], s.pushed[k]} ::
          j <= k < |s.pushed| ==> s.pushed[j].at <= s.pushed[k].at)
    && (forall k: nat {:trigger s.released[k]} :: k < |s.released| ==> Faithful(s.released[k], s.pushed[k]))
  }

  ghost predicate Inv(s: State) {
    Shaped(s) && IndicesOk(s) && SlotsOk(s.packets, s.pushed, |s.released|) && ProducerOk(s) && ConsumerOk(s) && HistoryOk(s)
  }

  lemma InitInv(m: nat, size: nat, delay: nat, clock: int)
    requires m > 0
    ensures Inv(Init(m, size, delay, clock))
  {
    assert Slot(0, m) == 0;
  }

  lemma ClientStep(s: State, c: Choice)
    requires Inv(s) && Enabled(s, c)
    requires c.Request? || c.Push? || c.Pop? || c.Release? || c.Tick?
    ensures Inv(Do(s, c))
  {
  }

  lemma WriteStep(s: State, c: Choice)
    requires Inv(s) && Enabled(s, c) && c.WriteByte?
    ensures Inv(Do(s, c))
  {
    var slot := s.packets[s.write];
    FullIffWriteValid(s.packets, s.pushed, |s.released|);
    SlotsAfterFill(s.packets, s.pushed, |s.released|, slot.(data := slot.data[c.index := c.value]));
  }

  lemma ReadStep(s: State, c: Choice)
    requires Inv(s) && Enabled(s, c) && c.ReadByte?
    ensures Inv(Do(s, c))
  {
    EmptyIffReadInvalid(s.packets, s.pushed, |s.released|);
  }

  lemma RequestStep(s: State)
    requires Inv(s) && Enabled(s, ProducerStep) && s.prod.pc.PTest?
    ensures Inv(ProducerDo(s))
  {
    FullIffWriteValid(s.packets, s.pushed, |s.released|);
  }

  lemma FillStep(s: State)
    requires Inv(s) && Enabled(s, ProducerStep)
    requires s.prod.pc.PClock? || s.prod.pc.PStamp? || s.prod.pc.PLen?
    ensures Inv(ProducerDo(s))
  {
    var slot := s.packets[s.write];
    FullIffWriteValid(s.packets, s.pushed, |s.released|);
    SlotsAfterFill(s.packets, s.pushed, |s.released|, slot.(tstamp := s.prod.now + s.delay));
    SlotsAfterFill(s.packets, s.pushed, |s.released|, slot.(len := s.prod.len));
  }

  lemma PublishStep(s: State)
    requires Inv(s) && Enabled(s, ProducerStep) && s.prod.pc.PValid?
    ensures Inv(ProducerDo(s))
  {
    var slot := s.packets[s.write];
    SlotsAfterPush(s.packets, s.pushed, |s.released|, slot.(valid := true),
                   Pushed(s.prod.now, slot.tstamp, slot.len, slot.data));
  }

  lemma AdvanceStep(s: State)
    requires Inv(s) && Enabled(s, ProducerStep) && s.prod.pc.PAdvance?
    ensures Inv(ProducerDo(s))
  {
    SlotNext(|s.pushed| - 1, |s.packets|);
  }

  lemma PopStep(s: State)
    requires Inv(s) && Enabled(s, ConsumerStep)
    requires s.cons.pc.CTest? || s.cons.pc.CClock? || s.cons.pc.CDue? || s.cons.pc.CLen?
    ensures Inv(ConsumerDo(s))
  {
    EmptyIffReadInvalid(s.packets, s.pushed, |s.released|);
  }

  lemma ClearStep(s: State)
    requires Inv(s) && Enabled(s, ConsumerStep) && s.cons.pc.CClear?
    ensures Inv(ConsumerDo(s))
  {
    EmptyIffReadInvalid(s.packets, s.pushed, |s.released|);
    SlotsAfterRelease(s.packets, s.pushed, |s.released|, s.packets[s.read].(valid := false));
  }

  lemma ReleaseStep(s: State)
    requires Inv(s) && Enabled(s, ConsumerStep) && s.cons.pc.CAdvance?
    ensures Inv(ConsumerDo(s))
  {
    SlotNext(|s.released| - 1, |s.packets|);
  }

  lemma StepInv(s: State, c: Choice)
    requires Inv(s) && Enabled(s, c)
    ensures Inv(Do(s, c)) && |Do(s, c).packets| == |s.packets|
  {
    match c
    case Request | Push(_) | Pop | Release | Tick(_) => ClientStep(s, c);
    case WriteByte(_, _) => WriteStep(s, c);
    case ReadByte => ReadStep(s, c);
    case ProducerStep =>
      match s.prod.pc {
        case PTest => RequestStep(s);
        case PClock | PStamp | PLen => FillStep(s);
        case PValid => PublishStep(s);
        case PAdvance => AdvanceStep(s);
      }
    case ConsumerStep =>
      match s.cons.pc {
        case CTest | CClock | CDue | CLen => PopStep(s);
        case CClear => ClearStep(s);
        case CAdvance => ReleaseStep(s);
      }
  }

  lemma {:induction false} RunInv(m: nat, run: seq<State>, sched: seq<Choice>, k: nat)
    requires IsRun(m, run, sched) && k < |run|
    ensures Inv(run[k]) && |run[k].packets| == m
  {
    if k == 0 {
      InitInv(m, run[0].size, run[0].delay, run[0].clock);
    } else {
      RunInv(m, run, sched, k - 1);
      assert Enabled(run[k - 1], sched[k - 1]) && run[k - 1 + 1] == Do(run[k - 1], sched[k - 1]);
      StepInv(run[k - 1], sched[k - 1]);
    }
  }

  // -------------------------------------------------------------- main results

  /** First in, first out, exactly once, untorn and never early: release number i saw exactly what push number i published. */
  lemma FifoExactlyOnce(m: nat, run: seq<State>, sched: seq<Choice>, k: nat)
    requires IsRun(m, run, sched) && k < |run|
    ensures |run[k].released| <= |run[k].pushed| <= |run[k].released| + m
    ensures forall i: nat :: i < |run[k].released| ==> Faithful(run[k].released[i], run[k].pushed[i])
  {
    RunInv(m, run, sched, k);
  }

  /** What has been pushed or released stays so: the histories only grow. */
  lemma {:induction false} HistoriesGrow(m: nat, run: seq<State>, sched: seq<Choice>, j: nat, k: nat)
    requires IsRun(m, run, sched) && j <= k < |run|
    ensures run[j].pushed <= run[k].pushed && run[j].released <= run[k].released
    decreases k
  {
    if j < k {
      HistoriesGrow(m, run, sched, j, k - 1);
      assert Enabled(run[k - 1], sched[k - 1]) && run[k - 1 + 1] == Do(run[k - 1], sched[k - 1]);
    }
  }

  /** Outside the two index updates, the valid slots are exactly the circular interval from `read` to `write`. */
  lemma ValidSlotsAreInterval(m: nat, run: seq<State>, sched: seq<Choice>, k: nat, j: nat)
    requires IsRun(m, run, sched) && k < |run| && j < m
    requires !run[k].prod.pc.PAdvance? && !run[k].cons.pc.CAdvance?
    ensures |run[k].packets| == m
    ensures 0 <= |run[k].pushed| - |run[k].released| <= m
    ensures run[k].write == Slot(run[k].read + (|run[k].pushed| - |run[k].released|), m)
    ensures run[k].packets[Slot(run[k].read + j, m)].valid <==> j < |run[k].pushed| - |run[k].released|
  {
    RunInv(m, run, sched, k);
    var s := run[k];
    var r := |s.released|;
    SlotOffset(r, |s.pushed| - r, m);
    SlotOffset(r, j, m);
    if r + j < |s.pushed| {
      assert Carries(s.packets[Slot(r + j, m)], s.pushed[r + j]);
    }
  }

  /** The slot the producer fills is never the slot the consumer reads. */
  lemma SeparateOwnership(m: nat, run: seq<State>, sched: seq<Choice>, k: nat)
    requires IsRun(m, run, sched) && k < |run|
    requires ProducerHolds(run[k].prod.pc) && ConsumerHolds(run[k].cons.pc)
    ensures run[k].write != run[k].read
  {
    RunInv(m, run, sched, k);
    SlotDistinct(|run[k].released|, |run[k].pushed|, m);
  }

  /** A request is granted exactly when fewer than `m` pushed packets are unreleased. */
  lemma RequestGrantedIffSpace(m: nat, run: seq<State>, sched: seq<Choice>, k: nat)
    requires IsRun(m, run, sched) && k < |run| && run[k].prod.pc.PTest?
    ensures Enabled(run[k], ProducerStep)
    ensures ProducerDo(run[k]).prod.pc.PHold? <==> |run[k].pushed| < |run[k].released| + m
  {
    RunInv(m, run, sched, k);
    FullIffWriteValid(run[k].packets, run[k].pushed, |run[k].released|);
  }

  /** A pop goes past its empty test exactly when something is queued, takes the slot clock as its time, and goes past its delay test exactly when the oldest packet is due. */
  lemma PopGrantedIffDue(m: nat, run: seq<State>, sched: seq<Choice>, k: nat)
    requires IsRun(m, run, sched) && k < |run|
    requires run[k].cons.pc.CTest? || run[k].cons.pc.CClock? || run[k].cons.pc.CDue?
    ensures Enabled(run[k], ConsumerStep)
    ensures run[k].cons.pc.CClock? ==> ConsumerDo(run[k]).cons.now == run[k].clock
    ensures run[k].cons.pc.CTest? ==>
      (ConsumerDo(run[k]).cons.pc.CClock? <==> |run[k].released| < |run[k].pushed|)
    ensures run[k].cons.pc.CDue? ==> |run[k].released| < |run[k].pushed|
    ensures run[k].cons.pc.CDue? ==>
      (ConsumerDo(run[k]).cons.pc.CLen? <==> run[k].pushed[|run[k].released|].due <= run[k].cons.now)
  {
    RunInv(m, run, sched, k);
    EmptyIffReadInvalid(run[k].packets, run[k].pushed, |run[k].released|);
  }

  /** Due times are push slot plus delay and never decrease, so when any queued packet is due the oldest one is. */
  lemma DelayIsOrdered(m: nat, run: seq<State>, sched: seq<Choice>, k: nat, i: nat, j: nat)
    requires IsRun(m, run, sched) && k < |run| && i <= j < |run[k].pushed|
    ensures run[k].pushed[i].due == run[k].pushed[i].at + run[k].delay
    ensures run[k].pushed[i].due <= run[k].pushed[j].due
    ensures |run[k].released| <= i && run[k].pushed[j].due <= run[k].clock ==>
      run[k].pushed[|run[k].released|].due <= run[k].clock
  {
    RunInv(m, run, sched, k);
    if |run[k].released| <= i {
      assert run[k].pushed[|run[k].released|].at <= run[k].pushed[j].at;
    }
  }
}
