/**
Progress of the time-slot protocol: a rank for every thread that each of its
ordinary steps raises and that no other thread's step lowers. Any run can
therefore take only a bounded number of ordinary steps per published slot, so
slots keep coming for as long as the threads keep running.
*/
module SlotProgress {
  import opened TimeSlots
  import Arith
  import B = Barrier

  /** Position within one call of `barrier_wait`. */
  function BarrierPos(b: B.State, t: nat): (r: nat)
    requires t < |b.threads|
    ensures r <= 8
  {
    var over := |b.threads[t].rets| < |b.serial|;
    match b.threads[t].pc
    case Outside => 0
    case AtLock => 1
    case AtRead => 2
    case AtDec => 3
    case AtTest => if over then 7 else 4
    case Waiting => 5
    case Woken => if over then 6 else 3
    case AtFlip => 4
    case AtReset => 5
    case AtCast => 6
    case AtUnlock => 8
  }

  /** Position within one lap of the thread's loop. */
  function LapPos(s: State, t: nat): nat
    requires Shaped(s) && t < |s.pcs|
  {
    var n := |s.pipes|;
    var out := t < n && s.timeslot > s.pipes[t].stamp;
    match s.pcs[t]
    case SyncLock => 0
    case SyncTest => if out then 4 else 1
    case SyncWait => 2
    case SyncWoken => if out then 3 else 0
    case SyncUnlock => 5
    case Stamp => 6
    case RunSlot => 7
    case EndSlot => 8
    case Tick => 0
    case Enabling(j) => 1 + j
    case KernelLock => n + 2
    case Publish => n + 3
    case Cast => n + 4
    case KernelUnlock => n + 5
    case AtBarrier => (if t < n then 9 else n + 6) + BarrierPos(s.bar, t)
  }

  function LapLength(n: nat, t: nat): nat {
    if t < n then 18 else n + 15
  }

  function Rank(s: State, t: nat): nat
    requires Shaped(s) && t < |s.pcs|
  {
    LapLength(|s.pipes|, t) * Laps(s, t) + LapPos(s, t)
  }

  // ------------------------------------------------------- one step and the ranks

  lemma LapMonotone(len: nat, a: nat, b: nat)
    requires a <= b
    ensures len * a <= len * b
  {
  }

  /** Within the barrier, a step raises the position of its thread. */
  lemma BarrierRankOwn(b: B.State, t: nat)
    requires B.Inv(b) && B.Enabled(b, t) && !b.threads[t].pc.AtUnlock?
    ensures |B.Do(b, t).threads| == |b.threads|
    ensures BarrierPos(B.Do(b, t), t) >= BarrierPos(b, t) + 1
  {
    assert B.ThreadOk(b, t);
  }

  /** It lowers nobody else's. */
  lemma BarrierRankOther(b: B.State, t: nat, u: nat)
    requires B.Inv(b) && B.Enabled(b, t) && u < |b.threads| && u != t
    ensures |B.Do(b, t).threads| == |b.threads|
    ensures BarrierPos(B.Do(b, t), u) >= BarrierPos(b, u)
  {
    assert B.ThreadOk(b, t) && B.ThreadOk(b, u);
    if b.threads[t].pc.AtCast? && b.threads[u].pc.Waiting? {
      assert |B.Arrived(b)| == 0;
      assert u !in B.Arrived(b);
    }
  }

  lemma NextLap(len: nat, l: nat, pos: nat)
    requires pos < len
    ensures len * (l + 1) >= len * l + pos + 1
  {
    assert len * (l + 1) == len * l + len;
  }

  /** Leaving the barrier starts the next lap. */
  lemma LeaveRank(s: State, t: nat)
    requires Inv(s) && Enabled(s, t) && s.pcs[t].AtBarrier? && s.bar.threads[t].pc.AtUnlock?
    ensures Shaped(Do(s, t)) && Rank(Do(s, t), t) >= Rank(s, t) + 1
  {
    BarrierFrame(s.bar, t, t);
    NextLap(LapLength(|s.pipes|, t), Laps(s, t), LapPos(s, t));
  }

  lemma StayRank(s: State, t: nat)
    requires Inv(s) && Enabled(s, t) && s.pcs[t].AtBarrier? && !s.bar.threads[t].pc.AtUnlock?
    ensures Shaped(Do(s, t)) && Rank(Do(s, t), t) >= Rank(s, t) + 1
  {
    BarrierFrame(s.bar, t, t);
    BarrierRankOwn(s.bar, t);
  }

  lemma OwnBarrierRank(s: State, t: nat)
    requires Inv(s) && Enabled(s, t) && s.pcs[t].AtBarrier?
    ensures Shaped(Do(s, t)) && Rank(Do(s, t), t) >= Rank(s, t) + 1
  {
    if s.bar.threads[t].pc.AtUnlock? {
      LeaveRank(s, t);
    } else {
      StayRank(s, t);
    }
  }

  lemma OwnPipeRank(s: State, t: nat)
    requires Inv(s) && Enabled(s, t) && t < |s.pipes| && !s.pcs[t].AtBarrier?
    ensures Shaped(Do(s, t)) && Rank(Do(s, t), t) >= Rank(s, t) + 1
  {
    assert ThreadOk(s, t);
  }

  lemma OwnKernelRank(s: State, t: nat)
    requires Inv(s) && Enabled(s, t) && t == |s.pipes| && !s.pcs[t].AtBarrier?
    ensures Shaped(Do(s, t)) && Rank(Do(s, t), t) >= Rank(s, t) + 1
  {
    assert ThreadOk(s, t) && KernelOk(s);
  }

  /** The stepping thread's rank goes up. */
  lemma OwnRank(s: State, t: nat)
    requires Inv(s) && Enabled(s, t)
    ensures Shaped(Do(s, t)) && Rank(Do(s, t), t) >= Rank(s, t) + 1
  {
    if s.pcs[t].AtBarrier? {
      OwnBarrierRank(s, t);
    } else if t < |s.pipes| {
      OwnPipeRank(s, t);
    } else {
      OwnKernelRank(s, t);
    }
  }

  lemma OtherBarrierRank(s: State, t: nat, u: nat)
    requires Inv(s) && Enabled(s, t) && s.pcs[t].AtBarrier? && u < |s.pcs| && u != t
    ensures Shaped(Do(s, t)) && Rank(Do(s, t), u) >= Rank(s, u)
  {
    BarrierFrame(s.bar, t, u);
    BarrierRankOther(s.bar, t, u);
  }

  lemma OtherCastRank(s: State, t: nat, u: nat)
    requires Inv(s) && Enabled(s, t) && s.pcs[t].Cast? && u < |s.pcs| && u != t
    ensures Shaped(Do(s, t)) && Rank(Do(s, t), u) >= Rank(s, u)
  {
    assert ThreadOk(s, t) && ThreadOk(s, u) && PipeOk(s, u);
    if s.pcs[u].SyncWait? {
      OutsideLaps(s, u);
      OutsideLaps(s, t);
    }
  }

  lemma OtherQuietRank(s: State, t: nat, u: nat)
    requires Inv(s) && Enabled(s, t) && !s.pcs[t].AtBarrier? && !s.pcs[t].Cast? && u < |s.pcs| && u != t
    ensures Shaped(Do(s, t)) && Rank(Do(s, t), u) >= Rank(s, u)
  {
    var s' := Do(s, t);
    assert s'.pcs[u] == s.pcs[u] && s'.bar == s.bar && s'.timeslot >= s.timeslot;
    assert u < |s.pipes| ==> s'.pipes[u].stamp == s.pipes[u].stamp;
  }

  /** Nobody else's rank goes down. */
  lemma OtherRank(s: State, t: nat, u: nat)
    requires Inv(s) && Enabled(s, t) && u < |s.pcs| && u != t
    ensures Shaped(Do(s, t)) && Rank(Do(s, t), u) >= Rank(s, u)
  {
    if s.pcs[t].AtBarrier? {
      OtherBarrierRank(s, t, u);
    } else if s.pcs[t].Cast? {
      OtherCastRank(s, t, u);
    } else {
      OtherQuietRank(s, t, u);
    }
  }

  /** A spurious wake-up costs its thread two positions at most, and nobody else anything. */
  lemma SpuriousRank(s: State, t: nat, u: nat)
    requires Inv(s) && CanSpuriouslyWake(s, t) && u < |s.pcs|
    ensures Shaped(SpuriousWake(s, t))
    ensures Rank(SpuriousWake(s, t), u) >= Rank(s, u) - if u == t then 2 else 0
  {
    assert ThreadOk(s, t) && ThreadOk(s, u);
  }

  /** Nobody has gone through more slots than are published. */
  lemma LapsBound(s: State, t: nat)
    requires Inv(s) && t < |s.pcs|
    ensures Laps(s, t) <= s.timeslot
  {
    var n := |s.pipes|;
    assert ThreadOk(s, t) && B.ThreadOk(s.bar, t);
    if t < n {
      assert PipeOk(s, t);
      if !s.pcs[t].AtBarrier? {
        OutsideLaps(s, t);
        assert ThreadOk(s, n) && B.ThreadOk(s.bar, n);
      }
    }
  }

  lemma LapPosBound(s: State, t: nat)
    requires Inv(s) && t < |s.pcs|
    ensures LapPos(s, t) <= LapLength(|s.pipes|, t)
  {
    assert ThreadOk(s, t);
  }

  lemma LapsPlusPos(len: nat, l: nat, pos: nat, top: nat)
    requires pos <= len && l <= top
    ensures len * l + pos <= len * (top + 1)
  {
    LapMonotone(len, l + 1, top + 1);
    assert len * (l + 1) == len * l + len;
  }

  lemma RankBound(s: State, t: nat)
    requires Inv(s) && t < |s.pcs|
    ensures Rank(s, t) <= LapLength(|s.pipes|, t) * (s.timeslot + 1)
  {
    LapsBound(s, t);
    LapPosBound(s, t);
    LapsPlusPos(LapLength(|s.pipes|, t), Laps(s, t), LapPos(s, t), s.timeslot);
  }

  // ------------------------------------------------------------ whole runs

  /** The ranks of the first `m` threads together. */
  function Total(s: State, m: nat): nat
    requires Shaped(s) && m <= |s.pcs|
  {
    if m == 0 then 0 else Total(s, m - 1) + Rank(s, m - 1)
  }

  lemma {:induction false} TotalMoves(s: State, s': State, m: nat, t: nat, d: int)
    requires Shaped(s) && Shaped(s') && |s'.pcs| == |s.pcs| && m <= |s.pcs|
    requires forall u: nat :: u < m ==> Rank(s', u) >= Rank(s, u) + if u == t then d else 0
    ensures Total(s', m) >= Total(s, m) + if t < m then d else 0
  {
    if m > 0 {
      TotalMoves(s, s', m - 1, t, d);
    }
  }

  /** The length of a lap of the first `m` threads together. */
  function LapTotal(n: nat, m: nat): nat {
    if m <= n then 18 * m else 19 * n + 15
  }

  lemma {:induction false} TotalBound(s: State, m: nat)
    requires Inv(s) && m <= |s.pcs|
    ensures Total(s, m) <= LapTotal(|s.pipes|, m) * (s.timeslot + 1)
  {
    if m > 0 {
      var n := |s.pipes|;
      TotalBound(s, m - 1);
      RankBound(s, m - 1);
      Arith.Distribute(LapTotal(n, m - 1), LapLength(n, m - 1), s.timeslot + 1);
      assert LapTotal(n, m) == LapTotal(n, m - 1) + LapLength(n, m - 1);
    }
  }

  /** Ordinary steps among the first `k` choices. */
  function Acts(sched: seq<Choice>, k: nat): nat
    requires k <= |sched|
  {
    if k == 0 then 0 else Acts(sched, k - 1) + if sched[k - 1].Act? then 1 else 0
  }

  lemma ActRaisesTotal(s: State, t: nat)
    requires Inv(s) && Enabled(s, t)
    ensures Shaped(Do(s, t)) && |Do(s, t).pcs| == |s.pcs|
    ensures Total(Do(s, t), |s.pcs|) >= Total(s, |s.pcs|) + 1
  {
    var s' := Do(s, t);
    OwnRank(s, t);
    forall u: nat | u < |s.pcs| ensures Rank(s', u) >= Rank(s, u) + if u == t then 1 else 0 {
      if u != t {
        OtherRank(s, t, u);
      }
    }
    TotalMoves(s, s', |s.pcs|, t, 1);
  }

  lemma SpuriousLowersTotal(s: State, t: nat)
    requires Inv(s) && CanSpuriouslyWake(s, t)
    ensures Shaped(SpuriousWake(s, t)) && |SpuriousWake(s, t).pcs| == |s.pcs|
    ensures Total(SpuriousWake(s, t), |s.pcs|) >= Total(s, |s.pcs|) - 2
  {
    var s' := SpuriousWake(s, t);
    forall u: nat | u < |s.pcs| ensures Rank(s', u) >= Rank(s, u) + if u == t then -2 else 0 {
      SpuriousRank(s, t, u);
    }
    TotalMoves(s, s', |s.pcs|, t, -2);
  }

  lemma StepMovesTotal(s: State, c: Choice, s': State)
    requires Inv(s) && StepOf(s, c, s')
    ensures Shaped(s') && |s'.pcs| == |s.pcs|
    ensures Total(s', |s.pcs|) >= Total(s, |s.pcs|) + if c.Act? then 1 else -2
  {
    match c
    case Act(t) => ActRaisesTotal(s, t);
    case Spurious(t) => SpuriousLowersTotal(s, t);
  }

  /** The ranks of all threads together. */
  function TotalOf(s: State, n: nat): int {
    if Shaped(s) && |s.pcs| == n + 1 then Total(s, n + 1) else 0
  }

  /** What a choice adds to a total at least. */
  function Gain(c: Choice): int {
    if c.Act? then 1 else -2
  }

  ghost predicate Gains(totals: seq<int>, sched: seq<Choice>, k: nat)
    requires |totals| == |sched| + 1 && k < |sched|
  {
    totals[k + 1] >= totals[k] + Gain(sched[k])
  }

  /** The ordinary steps are paid for by the total, two more for every spurious wake-up. */
  lemma {:induction false} ActsArePaid(totals: seq<int>, sched: seq<Choice>, k: nat)
    requires |totals| == |sched| + 1 && k <= |sched| && totals[0] >= 0
    requires forall i: nat :: i < |sched| ==> Gains(totals, sched, i)
    ensures Acts(sched, k) <= totals[k] + 2 * (k - Acts(sched, k))
  {
    if k > 0 {
      ActsArePaid(totals, sched, k - 1);
      assert Gains(totals, sched, k - 1);
    }
  }

  function Totals(n: nat, run: seq<State>): (totals: seq<int>)
    ensures |totals| == |run|
  {
    seq(|run|, k requires 0 <= k < |run| => TotalOf(run[k], n))
  }

  lemma TotalsGain(n: nat, run: seq<State>, sched: seq<Choice>, k: nat)
    requires IsRun(n, run, sched) && k < |sched|
    ensures TotalOf(run[k + 1], n) >= TotalOf(run[k], n) + Gain(sched[k])
  {
    RunInv(n, run, sched, k);
    RunInv(n, run, sched, k + 1);
    StepMovesTotal(run[k], sched[k], run[k + 1]);
  }

  lemma ActsRaiseTotal(n: nat, run: seq<State>, sched: seq<Choice>, k: nat)
    requires IsRun(n, run, sched) && k < |run|
    ensures Acts(sched, k) <= TotalOf(run[k], n) + 2 * (k - Acts(sched, k))
  {
    var totals := Totals(n, run);
    forall i: nat | i < |sched| ensures Gains(totals, sched, i) {
      TotalsGain(n, run, sched, i);
    }
    ActsArePaid(totals, sched, k);
  }

  /**
  Progress: however the threads are scheduled, a run with `a` ordinary steps and
  `b` spurious wake-ups has published at least (a - 2b) / (19n + 15) - 1 slots.
  Together with NoDeadlock, the kernel keeps publishing as long as spurious
  wake-ups are finitely many.
  */
  lemma SlotsKeepComing(n: nat, run: seq<State>, sched: seq<Choice>, k: nat)
    requires IsRun(n, run, sched) && k < |run|
    ensures Acts(sched, k) <= LapTotal(n, n + 1) * (run[k].timeslot + 1) + 2 * (k - Acts(sched, k))
  {
    ActsRaiseTotal(n, run, sched, k);
    RunInv(n, run, sched, k);
    assert |run[k].pipes| == n;
    TotalBound(run[k], n + 1);
  }
}
