/**
The lock-step time-slot protocol: the kernel thread of
rtdal_lnx/src/rtdal_kernel_thread.c publishes slots through the condition
variable of rtdal_lnx/src/pipeline_sync.c, the pipeline threads of
rtdal_lnx/src/pipeline.c wait for a slot, run it, and everybody meets at the
barrier of module Barrier. Synchronisation on finish is on and real-time
control is off. Threads 0..n-1 are the pipelines and thread n is the kernel.
*/
module TimeSlots {
  import opened Wrappers
  import B = Barrier

  datatype Pc =
    // a pipeline thread, in pipeline_sync_thread_waits_condvar and pipeline_run_time_slot
    | SyncLock | SyncTest | SyncWait | SyncWoken | SyncUnlock | Stamp | RunSlot | EndSlot
    // the kernel thread, in kernel_tslot_run and pipeline_sync_thread_wake_condvar
    | Tick | Enabling(next: nat) | KernelLock | Publish | Cast | KernelUnlock
    // any thread, in barrier_wait (module Barrier knows where)
    | AtBarrier

  /**
  A pipeline: its `timeslot_p` entry, `enable`, `finished` and `ts_counter`.
  `seen` is the value of `timeslot` that ended its last wait and `ran` the
  history of the slots it has run.
  */
  datatype Pipe = Pipe(stamp: int, enable: bool, finished: bool, tsCounter: int, seen: int, ran: seq<int>)

  /** `timeslot` is the published slot, `clock` the counter behind `rtdal_time_slot()`, `owner` the holder of `sync_mutex`. */
  datatype State = State(
    pcs: seq<Pc>, pipes: seq<Pipe>, timeslot: nat, clock: nat, owner: Option<nat>, bar: B.State)

  /** A scheduling choice: thread `t` takes its next step, or its condition wait returns spuriously. */
  datatype Choice = Act(t: nat) | Spurious(t: nat)

  predicate Holds(pc: Pc) {
    pc.SyncTest? || pc.SyncUnlock? || pc.Publish? || pc.Cast? || pc.KernelUnlock?
  }

  function Init(n: nat): State {
    State(
      seq(n + 1, i => if i < n then SyncLock else Tick),
      seq(n, i => Pipe(0, false, false, 0, 0, [])),
      0, 0, None, B.Init(n + 1))
  }

  function WakeAll(pcs: seq<Pc>): (r: seq<Pc>)
    ensures |r| == |pcs|
    ensures forall i :: 0 <= i < |pcs| ==> r[i] == if pcs[i].SyncWait? then SyncWoken else pcs[i]
  {
    seq(|pcs|, i requires 0 <= i < |pcs| => if pcs[i].SyncWait? then SyncWoken else pcs[i])
  }

  predicate Shaped(s: State) {
    |s.pcs| == |s.pipes| + 1 == |s.bar.threads|
  }

  /** Pipeline code runs in threads 0..n-1, kernel code in thread n. */
  predicate KindOk(s: State, t: nat)
    requires Shaped(s) && t < |s.pcs|
  {
    match s.pcs[t]
    case AtBarrier => true
    case Tick | Enabling(_) | KernelLock | Publish | Cast | KernelUnlock => t == |s.pipes|
    case _ => t < |s.pipes|
  }

  predicate Enabled(s: State, t: nat) {
    && Shaped(s) && t < |s.pcs| && KindOk(s, t)
    && match s.pcs[t]
       case SyncLock | SyncWoken | KernelLock => s.owner == None
       case SyncWait => false
       case AtBarrier => B.Enabled(s.bar, t)
       case _ => true
  }

  function SetPc(s: State, t: nat, pc: Pc): State
    requires t < |s.pcs|
  {
    s.(pcs := s.pcs[t := pc])
  }

  /** Where a thread resumes after the barrier. */
  function LoopTop(s: State, t: nat): Pc {
    if t < |s.pipes| then SyncLock else Tick
  }

  function Do(s: State, t: nat): State
    requires Enabled(s, t)
  {
    match s.pcs[t]
    case SyncLock => SetPc(s, t, SyncTest).(owner := Some(t))
    case SyncTest =>
      if s.timeslot <= s.pipes[t].stamp then SetPc(s, t, SyncWait).(owner := None)
      else SetPc(s, t, SyncUnlock).(pipes := s.pipes[t := s.pipes[t].(seen := s.timeslot)])
    case SyncWoken => SetPc(s, t, SyncTest).(owner := Some(t))
    case SyncUnlock => SetPc(s, t, Stamp).(owner := None)
    case Stamp => SetPc(s, t, RunSlot).(pipes := s.pipes[t := s.pipes[t].(stamp := s.timeslot)])
    case RunSlot =>
      var p := s.pipes[t].(finished := false);
      SetPc(s, t, EndSlot).(pipes := s.pipes[t := if p.enable then p.(ran := p.ran + [p.stamp]) else p])
    case EndSlot => SetPc(s, t, AtBarrier).(pipes := s.pipes[t := s.pipes[t].(tsCounter := s.clock, finished := true)])
    case Tick => SetPc(s, t, Enabling(0)).(clock := s.clock + 1)
    case Enabling(j) =>
      if j < |s.pipes| then SetPc(s, t, Enabling(j + 1)).(pipes := s.pipes[j := s.pipes[j].(enable := true)])
      else SetPc(s, t, KernelLock)
    case KernelLock => SetPc(s, t, Publish).(owner := Some(t))
    case Publish => SetPc(s, t, Cast).(timeslot := s.timeslot + 1)
    case Cast => s.(pcs := WakeAll(s.pcs)[t := KernelUnlock])
    case KernelUnlock => SetPc(s, t, AtBarrier).(owner := None)
    case AtBarrier =>
      SetPc(s, t, if s.bar.threads[t].pc.AtUnlock? then LoopTop(s, t) else AtBarrier).(bar := B.Do(s.bar, t))
  }

  /** `pthread_cond_wait` may return without a broadcast, on either condition variable. */
  predicate CanSpuriouslyWake(s: State, t: nat) {
    && Shaped(s) && t < |s.pcs|
    && (s.pcs[t].SyncWait? || (s.pcs[t].AtBarrier? && B.CanSpuriouslyWake(s.bar, t)))
  }

  function SpuriousWake(s: State, t: nat): State
    requires CanSpuriouslyWake(s, t)
  {
    if s.pcs[t].SyncWait? then SetPc(s, t, SyncWoken) else s.(bar := B.SetPc(s.bar, t, B.Woken))
  }

  predicate StepOf(s: State, c: Choice, s': State) {
    match c
    case Act(t) => Enabled(s, t) && s' == Do(s, t)
    case Spurious(t) => CanSpuriouslyWake(s, t) && s' == SpuriousWake(s, t)
  }

  /** `run` is what the choices in `sched` lead to, starting from `n` pipelines and nothing published. */
  predicate IsRun(n: nat, run: seq<State>, sched: seq<Choice>) {
    && |run| == |sched| + 1
    && run[0] == Init(n)
    && forall i :: 0 <= i < |sched| ==> StepOf(run[i], sched[i], run[i + 1])
  }

  /** The slots 1, 2, ..., k. */
  function UpTo(k: nat): seq<int> {
    seq(k, i => i + 1)
  }

  // ---------------------------------------------------------------- invariant

  /** How many slots thread `t` has completely gone through, barrier included. */
  function Laps(s: State, t: nat): nat
    requires t < |s.bar.threads|
  {
    |s.bar.threads[t].rets|
  }

  ghost predicate ThreadOk(s: State, t: nat)
    requires Shaped(s) && t < |s.pcs|
  {
    && KindOk(s, t)
    && (Holds(s.pcs[t]) <==> s.owner == Some(t))
    && (!s.pcs[t].AtBarrier? ==> s.bar.threads[t].pc.Outside?)
  }

  ghost predicate KernelOk(s: State)
    requires Shaped(s)
  {
    var n := |s.pipes|;
    var l, pc := Laps(s, n), s.pcs[n];
    match pc
    case Tick => s.timeslot == l && s.clock == l
    case Enabling(j) => s.timeslot == l && s.clock == l + 1 && j <= n && forall i :: 0 <= i < j ==> s.pipes[i].enable
    case KernelLock | Publish => s.timeslot == l && s.clock == l + 1 && forall i :: 0 <= i < n ==> s.pipes[i].enable
    case _ => s.timeslot == l + 1 && s.clock == l + 1
  }

  ghost predicate PipeOk(s: State, i: nat)
    requires Shaped(s) && i < |s.pipes|
  {
    var p, l := s.pipes[i], Laps(s, i);
    && (s.timeslot > 0 ==> p.enable)
    && match s.pcs[i]
       case SyncUnlock | Stamp =>
         p.stamp == l && p.ran == UpTo(l) && p.tsCounter == l && s.timeslot == l + 1 && p.seen == l + 1
       case RunSlot => p.stamp == l + 1 == s.timeslot && p.ran == UpTo(l) && p.tsCounter == l
       case EndSlot => p.stamp == l + 1 == s.timeslot && p.ran == UpTo(l + 1) && p.tsCounter == l && !p.finished
       case AtBarrier => p.stamp == l + 1 <= s.timeslot && p.ran == UpTo(l + 1) && p.tsCounter == l + 1 && p.finished
       case _ => p.stamp == l && p.ran == UpTo(l) && p.tsCounter == l && (l > 0 ==> p.finished)
  }

  /** A sleeper whose slot is out is about to be woken: no wake-up is lost. */
  ghost predicate WakeOk(s: State, i: nat)
    requires Shaped(s) && i < |s.pipes|
  {
    s.pcs[i].SyncWait? && s.timeslot > s.pipes[i].stamp ==> s.pcs[|s.pipes|].Cast?
  }

  ghost predicate Inv(s: State) {
    && Shaped(s)
    && B.Inv(s.bar)
    && KernelOk(s)
    && (s.owner.Some? ==> s.owner.value < |s.pcs|)
    && (forall t: nat {:trigger s.pcs[t]} :: t < |s.pcs| ==> ThreadOk(s, t))
    && (forall i: nat {:trigger s.pipes[i]} :: i < |s.pipes| ==> PipeOk(s, i) && WakeOk(s, i))
  }

  lemma InitInv(n: nat)
    ensures Inv(Init(n))
  {
    var s := Init(n);
    B.InitInv(n + 1);
    forall t: nat | t < n + 1 ensures ThreadOk(s, t) {
      assert s.bar.threads[t] == B.Thread(B.Outside, false, 0, []);
    }
    forall i: nat | i < n ensures PipeOk(s, i) && WakeOk(s, i) {
      assert s.bar.threads[i] == B.Thread(B.Outside, false, 0, []);
      assert s.pipes[i] == Pipe(0, false, false, 0, 0, []);
    }
  }

  // ------------------------------------------------- every step keeps it

  /** A thread outside the barrier has gone through exactly the completed rounds. */
  lemma OutsideLaps(s: State, t: nat)
    requires Inv(s) && t < |s.pcs| && !s.pcs[t].AtBarrier?
    ensures Laps(s, t) == |s.bar.serial|
  {
    assert ThreadOk(s, t) && B.ThreadOk(s.bar, t);
  }

  /** While a pipeline is between its wait and the barrier, the kernel has published that slot and not gone further. */
  lemma RunningSlot(s: State, i: nat)
    requires Inv(s) && i < |s.pipes|
    requires s.pcs[i].SyncUnlock? || s.pcs[i].Stamp? || s.pcs[i].RunSlot? || s.pcs[i].EndSlot?
    ensures var pc := s.pcs[|s.pipes|]; pc.Cast? || pc.KernelUnlock? || pc.AtBarrier?
    ensures s.clock == s.timeslot == Laps(s, i) + 1
  {
    OutsideLaps(s, i);
    assert PipeOk(s, i);
    assert ThreadOk(s, |s.pipes|) && B.ThreadOk(s.bar, |s.pipes|);
  }

  ghost predicate SyncPc(pc: Pc) {
    pc.SyncLock? || pc.SyncTest? || pc.SyncWoken? || pc.SyncUnlock?
  }

  lemma SyncStep(s: State, t: nat)
    requires Inv(s) && Enabled(s, t) && SyncPc(s.pcs[t])
    ensures Inv(Do(s, t))
  {
    var s' := Do(s, t);
    assert ThreadOk(s, t) && PipeOk(s, t) && WakeOk(s, t);
    OutsideLaps(s, t);
    assert ThreadOk(s, |s.pipes|) && B.ThreadOk(s.bar, |s.pipes|);
    forall u: nat | u < |s.pcs| ensures ThreadOk(s', u) {
      assert ThreadOk(s, u);
    }
    forall i: nat | i < |s.pipes| ensures PipeOk(s', i) && WakeOk(s', i) {
      assert PipeOk(s, i) && WakeOk(s, i);
    }
  }

  lemma StampStep(s: State, t: nat)
    requires Inv(s) && Enabled(s, t) && s.pcs[t].Stamp?
    ensures Inv(Do(s, t))
  {
    var s' := Do(s, t);
    assert ThreadOk(s, t) && PipeOk(s, t);
    RunningSlot(s, t);
    forall u: nat | u < |s.pcs| ensures ThreadOk(s', u) {
      assert ThreadOk(s, u);
    }
    forall i: nat | i < |s.pipes| ensures PipeOk(s', i) && WakeOk(s', i) {
      assert ThreadOk(s, i) && PipeOk(s, i) && WakeOk(s, i);
    }
  }

  lemma RunSlotStep(s: State, t: nat)
    requires Inv(s) && Enabled(s, t) && s.pcs[t].RunSlot?
    ensures Inv(Do(s, t))
  {
    var s' := Do(s, t);
    assert ThreadOk(s, t) && PipeOk(s, t);
    RunningSlot(s, t);
    assert UpTo(Laps(s, t)) + [Laps(s, t) + 1] == UpTo(Laps(s, t) + 1);
    forall u: nat | u < |s.pcs| ensures ThreadOk(s', u) {
      assert ThreadOk(s, u);
    }
    forall i: nat | i < |s.pipes| ensures PipeOk(s', i) && WakeOk(s', i) {
      assert ThreadOk(s, i) && PipeOk(s, i) && WakeOk(s, i);
    }
  }

  lemma EndSlotStep(s: State, t: nat)
    requires Inv(s) && Enabled(s, t) && s.pcs[t].EndSlot?
    ensures Inv(Do(s, t))
  {
    var s' := Do(s, t);
    assert ThreadOk(s, t) && PipeOk(s, t);
    RunningSlot(s, t);
    forall u: nat | u < |s.pcs| ensures ThreadOk(s', u) {
      assert ThreadOk(s, u);
    }
    forall i: nat | i < |s.pipes| ensures PipeOk(s', i) && WakeOk(s', i) {
      assert ThreadOk(s, i) && PipeOk(s, i) && WakeOk(s, i);
    }
  }

  lemma KernelStep(s: State, t: nat)
    requires Inv(s) && Enabled(s, t)
    requires s.pcs[t].Tick? || s.pcs[t].KernelLock? || s.pcs[t].KernelUnlock?
    ensures Inv(Do(s, t))
  {
    var s' := Do(s, t);
    assert ThreadOk(s, t);
    forall u: nat | u < |s.pcs| ensures ThreadOk(s', u) {
      assert ThreadOk(s, u);
    }
    forall i: nat | i < |s.pipes| ensures PipeOk(s', i) && WakeOk(s', i) {
      assert ThreadOk(s, i) && PipeOk(s, i) && WakeOk(s, i);
    }
  }

  lemma EnablingStep(s: State, t: nat)
    requires Inv(s) && Enabled(s, t)
    requires s.pcs[t].Enabling?
    ensures Inv(Do(s, t))
  {
    var s' := Do(s, t);
    assert ThreadOk(s, t);
    forall u: nat | u < |s.pcs| ensures ThreadOk(s', u) {
      assert ThreadOk(s, u);
    }
    forall i: nat | i < |s.pipes| ensures PipeOk(s', i) && WakeOk(s', i) {
      assert ThreadOk(s, i) && PipeOk(s, i) && WakeOk(s, i);
    }
  }

  lemma CastStep(s: State, t: nat)
    requires Inv(s) && Enabled(s, t)
    requires s.pcs[t].Cast?
    ensures Inv(Do(s, t))
  {
    var s' := Do(s, t);
    assert ThreadOk(s, t);
    forall u: nat | u < |s.pcs| ensures ThreadOk(s', u) {
      assert ThreadOk(s, u);
    }
    forall i: nat | i < |s.pipes| ensures PipeOk(s', i) && WakeOk(s', i) {
      assert ThreadOk(s, i) && PipeOk(s, i) && WakeOk(s, i);
    }
  }

  lemma PublishStep(s: State, t: nat)
    requires Inv(s) && Enabled(s, t) && s.pcs[t].Publish?
    ensures Inv(Do(s, t))
  {
    var s' := Do(s, t);
    assert ThreadOk(s, t);
    OutsideLaps(s, t);
    forall u: nat | u < |s.pcs| ensures ThreadOk(s', u) {
      assert ThreadOk(s, u);
    }
    forall i: nat | i < |s.pipes| ensures PipeOk(s', i) && WakeOk(s', i) {
      assert ThreadOk(s, i) && PipeOk(s, i) && WakeOk(s, i);
      if !s.pcs[i].AtBarrier? {
        OutsideLaps(s, i);
      }
    }
  }

  /** A step inside the barrier lets only its own thread return, and moves no thread that is outside. */
  lemma BarrierFrame(b: B.State, t: nat, u: nat)
    requires B.Enabled(b, t) && u < |b.threads|
    ensures |B.Do(b, t).threads| == |b.threads|
    ensures |B.Do(b, t).threads[u].rets| == |b.threads[u].rets| + if u == t && b.threads[t].pc.AtUnlock? then 1 else 0
    ensures u == t && b.threads[t].pc.AtUnlock? ==> B.Do(b, t).threads[u].pc.Outside?
    ensures u != t && b.threads[u].pc.Outside? ==> B.Do(b, t).threads[u].pc.Outside?
  {
  }

  lemma BarrierStepPipe(s: State, t: nat, i: nat)
    requires Inv(s) && Enabled(s, t) && s.pcs[t].AtBarrier? && i < |s.pipes|
    ensures Shaped(Do(s, t)) && PipeOk(Do(s, t), i) && WakeOk(Do(s, t), i)
  {
    assert PipeOk(s, i) && WakeOk(s, i);
    BarrierFrame(s.bar, t, i);
  }

  lemma BarrierStepThread(s: State, t: nat, u: nat)
    requires Inv(s) && Enabled(s, t) && s.pcs[t].AtBarrier? && u < |s.pcs|
    ensures Shaped(Do(s, t)) && ThreadOk(Do(s, t), u)
  {
    assert ThreadOk(s, u) && ThreadOk(s, t);
    BarrierFrame(s.bar, t, u);
  }

  lemma BarrierStep(s: State, t: nat)
    requires Inv(s) && Enabled(s, t) && s.pcs[t].AtBarrier?
    ensures Inv(Do(s, t))
  {
    var s' := Do(s, t);
    B.StepInv(s.bar, t, s'.bar);
    BarrierFrame(s.bar, t, |s.pipes|);
    forall u: nat | u < |s.pcs| ensures ThreadOk(s', u) {
      BarrierStepThread(s, t, u);
    }
    forall i: nat | i < |s.pipes| ensures PipeOk(s', i) && WakeOk(s', i) {
      BarrierStepPipe(s, t, i);
    }
  }

  lemma SpuriousStep(s: State, t: nat)
    requires Inv(s) && CanSpuriouslyWake(s, t)
    ensures Inv(SpuriousWake(s, t))
  {
    var s' := SpuriousWake(s, t);
    if s.pcs[t].AtBarrier? {
      B.StepInv(s.bar, t, s'.bar);
    }
    forall u: nat | u < |s.pcs| ensures ThreadOk(s', u) {
      assert ThreadOk(s, u);
    }
    forall i: nat | i < |s.pipes| ensures PipeOk(s', i) && WakeOk(s', i) {
      assert ThreadOk(s, i) && PipeOk(s, i) && WakeOk(s, i);
    }
  }

  lemma StepInv(s: State, c: Choice, s': State)
    requires Inv(s) && StepOf(s, c, s')
    ensures Inv(s') && |s'.pipes| == |s.pipes|
  {
    match c
    case Spurious(t) => SpuriousStep(s, t);
    case Act(t) =>
      match s.pcs[t]
      case SyncLock | SyncTest | SyncWoken | SyncUnlock => SyncStep(s, t);
      case Stamp => StampStep(s, t);
      case RunSlot => RunSlotStep(s, t);
      case EndSlot => EndSlotStep(s, t);
      case Tick | KernelLock | KernelUnlock => KernelStep(s, t);
      case Enabling(_) => EnablingStep(s, t);
      case Publish => PublishStep(s, t);
      case Cast => CastStep(s, t);
      case AtBarrier => BarrierStep(s, t);
  }

  lemma {:induction false} RunInv(n: nat, run: seq<State>, sched: seq<Choice>, k: nat)
    requires IsRun(n, run, sched) && k < |run|
    ensures Inv(run[k]) && |run[k].pipes| == n
  {
    if k == 0 {
      InitInv(n);
    } else {
      RunInv(n, run, sched, k - 1);
      assert StepOf(run[k - 1], sched[k - 1], run[k - 1 + 1]);
      StepInv(run[k - 1], sched[k - 1], run[k]);
    }
  }

  // -------------------------------------------------------------- main results

  /**
  Lock-step: at any point of any run, every pipeline has run the slots
  1, 2, 3, ... exactly once each and in order, up to the published slot or the
  one before it.
  */
  lemma LockStep(n: nat, run: seq<State>, sched: seq<Choice>, k: nat, i: nat)
    requires IsRun(n, run, sched) && k < |run| && i < n
    ensures |run[k].pipes| == n
    ensures run[k].pipes[i].ran == UpTo(|run[k].pipes[i].ran|)
    ensures run[k].timeslot - 1 <= |run[k].pipes[i].ran| <= run[k].timeslot
    ensures |run[k].pcs| == n + 1 && (run[k].pcs[i].EndSlot? ==> !run[k].pipes[i].finished)
  {
    RunInv(n, run, sched, k);
    var s := run[k];
    assert PipeOk(s, i) && ThreadOk(s, i) && ThreadOk(s, n);
    assert B.ThreadOk(s.bar, i) && B.ThreadOk(s.bar, n);
    if !s.pcs[i].AtBarrier? {
      OutsideLaps(s, i);
    }
  }

  /**
  The kernel never publishes the next slot before every pipeline has finished
  the current one: when it is about to publish, each pipeline has run it, has
  recorded its number as `ts_counter` and is marked finished.
  */
  lemma PublishWaitsForAll(n: nat, run: seq<State>, sched: seq<Choice>, k: nat, i: nat)
    requires IsRun(n, run, sched) && k < |run| && i < n
    requires |run[k].pcs| == n + 1 && run[k].pcs[n].Publish?
    ensures |run[k].pipes| == n
    ensures run[k].pipes[i].ran == UpTo(run[k].timeslot)
    ensures run[k].pipes[i].tsCounter == run[k].timeslot
    ensures run[k].timeslot > 0 ==> run[k].pipes[i].finished
  {
    RunInv(n, run, sched, k);
    var s := run[k];
    assert PipeOk(s, i) && ThreadOk(s, i) && ThreadOk(s, n);
    assert B.ThreadOk(s.bar, i);
    OutsideLaps(s, n);
  }

  /** The unlocked second read of `timeslot` gives the value that ended the wait. */
  lemma UnlockedReadIsStable(n: nat, run: seq<State>, sched: seq<Choice>, k: nat, i: nat)
    requires IsRun(n, run, sched) && k < |run| && i < n
    requires |run[k].pcs| == n + 1 && run[k].pcs[i].Stamp?
    ensures |run[k].pipes| == n && run[k].timeslot == run[k].pipes[i].seen
  {
    RunInv(n, run, sched, k);
    assert PipeOk(run[k], i);
  }

  /** Outside the broadcasting critical sections, nobody sleeps on a condition that already holds. */
  lemma NoLostWakeUp(n: nat, run: seq<State>, sched: seq<Choice>, k: nat, t: nat)
    requires IsRun(n, run, sched) && k < |run| && t <= n
    ensures Shaped(run[k]) && |run[k].pipes| == n
    ensures t < n && run[k].pcs[t].SyncWait? && run[k].owner == None ==> run[k].timeslot <= run[k].pipes[t].stamp
    ensures run[k].bar.threads[t].pc.Waiting? && run[k].bar.owner == None ==>
      run[k].bar.threads[t].saved == run[k].bar.cycle
  {
    RunInv(n, run, sched, k);
    var s := run[k];
    assert ThreadOk(s, n) && B.ThreadOk(s.bar, t);
    if t < n {
      assert WakeOk(s, t);
    }
  }

  lemma MissingElement(a: set<nat>, m: nat) returns (x: nat)
    requires |a| < m
    ensures x < m && x !in a
  {
    if m - 1 in a {
      x := MissingElement(a - {m - 1}, m - 1);
    } else {
      x := m - 1;
    }
  }

  ghost predicate Asleep(s: State, t: nat)
    requires Shaped(s) && t < |s.pcs|
  {
    s.pcs[t].SyncWait? || (s.pcs[t].AtBarrier? && s.bar.threads[t].pc.Waiting?)
  }

  /** If a pipeline waits for a slot and nobody is broadcasting, the kernel is still on its way to publishing it. */
  lemma KernelAwake(s: State, i: nat)
    requires Inv(s) && s.owner == None && s.bar.owner == None
    requires i < |s.pipes| && s.pcs[i].SyncWait?
    ensures !Asleep(s, |s.pipes|)
  {
    assert PipeOk(s, i) && WakeOk(s, i);
    OutsideLaps(s, i);
    assert ThreadOk(s, |s.pipes|) && B.ThreadOk(s.bar, |s.pipes|);
  }

  lemma SomebodyCanMove(s: State) returns (t: nat)
    requires Inv(s)
    ensures Enabled(s, t)
  {
    if s.owner.Some? {
      t := s.owner.value;
      assert ThreadOk(s, t);
    } else if s.bar.owner.Some? {
      t := s.bar.owner.value;
      assert ThreadOk(s, t) && B.ThreadOk(s.bar, t);
    } else {
      t := MissingElement(B.Arrived(s.bar), |s.pcs|);
      assert ThreadOk(s, t) && B.ThreadOk(s.bar, t);
      if s.pcs[t].SyncWait? {
        KernelAwake(s, t);
        t := |s.pipes|;
        assert ThreadOk(s, t);
      }
    }
  }

  /** The composed system never deadlocks: in every reachable state some thread can take an ordinary step, without help from a spurious wake-up. */
  lemma NoDeadlock(n: nat, run: seq<State>, sched: seq<Choice>, k: nat)
    requires IsRun(n, run, sched) && k < |run|
    ensures exists t: nat :: Enabled(run[k], t)
  {
    RunInv(n, run, sched, k);
    var t := SomebodyCanMove(run[k]);
  }
}
