/**
The reusable barrier of rtdal_lnx/src/barrier.c as a transition system: every
participating thread has its own program counter inside `barrier_wait`, the
mutex is explicit, and the condition variable's wait set is the set of threads
whose program counter is `Waiting`. Any number of threads, any interleaving,
spurious wake-ups included.
*/
module Barrier {
  import opened Wrappers
  import Arith

  /** Where a thread stands in `barrier_wait`. */
  datatype Pc =
    | Outside   // not in a call
    | AtLock    // about to take the mutex
    | AtRead    // about to remember the cycle
    | AtDec     // about to decrement the counter
    | AtFlip    // last one in: about to flip the cycle
    | AtReset   // last one in: about to restore the counter
    | AtCast    // last one in: about to broadcast
    | AtTest    // about to compare the remembered cycle with the current one
    | Waiting   // asleep on the condition variable, mutex released
    | Woken     // woken up, about to take the mutex again
    | AtUnlock  // about to release the mutex and return

  /** A thread: its program counter, its locals `cycle` and `status`, and what its calls have returned so far. */
  datatype Thread = Thread(pc: Pc, saved: bool, status: int, rets: seq<int>)

  /** `serial` is history: the thread that completed each finished round. */
  datatype State = State(
    threshold: int, counter: int, cycle: bool, owner: Option<nat>,
    threads: seq<Thread>, serial: seq<nat>)

  /** The program counters of a thread that owns the mutex. */
  predicate Holds(pc: Pc) {
    pc.AtRead? || pc.AtDec? || pc.AtFlip? || pc.AtReset? || pc.AtCast? || pc.AtTest? || pc.AtUnlock?
  }

  /** The program counters of a thread that has been counted and has not returned. */
  predicate Inside(pc: Pc) {
    pc.AtFlip? || pc.AtReset? || pc.AtCast? || pc.AtTest? || pc.Waiting? || pc.Woken? || pc.AtUnlock?
  }

  /** `barrier_init` for `m` participants, all of them still outside. */
  function Init(m: nat): State {
    State(m, m, false, None, seq(m, i => Thread(Outside, false, 0, [])), [])
  }

  /** A broadcast moves every thread of the wait set to the mutex queue. */
  function WakeAll(ths: seq<Thread>): (r: seq<Thread>)
    ensures |r| == |ths|
    ensures forall i :: 0 <= i < |ths| ==> r[i] == if ths[i].pc.Waiting? then ths[i].(pc := Woken) else ths[i]
  {
    seq(|ths|, i requires 0 <= i < |ths| => if ths[i].pc.Waiting? then ths[i].(pc := Woken) else ths[i])
  }

  /** Taking the mutex needs it free; sleeping threads cannot move by themselves. */
  predicate Enabled(s: State, t: nat) {
    && t < |s.threads|
    && !s.threads[t].pc.Waiting?
    && (s.threads[t].pc.AtLock? || s.threads[t].pc.Woken? ==> s.owner == None)
  }

  function SetPc(s: State, t: nat, pc: Pc): State
    requires t < |s.threads|
  {
    s.(threads := s.threads[t := s.threads[t].(pc := pc)])
  }

  /** The one step thread `t` takes from where it stands. */
  function Do(s: State, t: nat): State
    requires Enabled(s, t)
  {
    var th := s.threads[t];
    match th.pc
    case Outside => SetPc(s, t, AtLock)
    case AtLock => s.(owner := Some(t), threads := s.threads[t := th.(pc := AtRead, status := 0)])
    case AtRead => s.(threads := s.threads[t := th.(pc := AtDec, saved := s.cycle)])
    case AtDec => SetPc(s, t, if s.counter - 1 == 0 then AtFlip else AtTest).(counter := s.counter - 1)
    case AtFlip => SetPc(s, t, AtReset).(cycle := !s.cycle, serial := s.serial + [t])
    case AtReset => SetPc(s, t, AtCast).(counter := s.threshold)
    case AtCast => s.(threads := WakeAll(s.threads)[t := th.(pc := AtUnlock, status := -1)])
    case AtTest => if th.saved == s.cycle then SetPc(s, t, Waiting).(owner := None) else SetPc(s, t, AtUnlock)
    case Woken => SetPc(s, t, AtTest).(owner := Some(t))
    case AtUnlock => s.(owner := None, threads := s.threads[t := th.(pc := Outside, rets := th.rets + [th.status])])
  }

  /** `pthread_cond_wait` may return without a broadcast. */
  predicate CanSpuriouslyWake(s: State, t: nat) {
    t < |s.threads| && s.threads[t].pc.Waiting?
  }

  predicate StepOf(s: State, t: nat, s': State) {
    || (Enabled(s, t) && s' == Do(s, t))
    || (CanSpuriouslyWake(s, t) && s' == SetPc(s, t, Woken))
  }

  ghost predicate Next(s: State, s': State) {
    exists t: nat :: StepOf(s, t, s')
  }

  ghost predicate IsRun(m: nat, run: seq<State>) {
    && |run| > 0
    && run[0] == Init(m)
    && forall i :: 0 <= i < |run| - 1 ==> Next(run[i], run[i + 1])
  }

  /** How many times a thread has been counted in. */
  function Entered(th: Thread): nat {
    |th.rets| + if Inside(th.pc) then 1 else 0
  }

  /** The threads counted in the round that is still open. */
  ghost function Arrived(s: State): set<nat> {
    set t: nat | t < |s.threads| && Inside(s.threads[t].pc) && |s.threads[t].rets| == |s.serial|
  }

  // ---------------------------------------------------------------- invariant

  ghost predicate RoundOk(s: State, t: nat)
    requires t < |s.threads|
  {
    var th, r := s.threads[t], |s.serial|;
    && (!Inside(th.pc) ==> |th.rets| == r)
    && (th.pc.AtDec? ==> th.saved == s.cycle)
    && (th.pc.AtFlip? ==> |th.rets| == r && th.saved == s.cycle && s.counter == 0)
    && (th.pc.AtReset? || th.pc.AtCast? ==> |th.rets| == r - 1 && s.serial[r - 1] == t && th.saved != s.cycle)
    && (th.pc.AtReset? ==> s.counter == 0)
    && (th.pc.AtCast? ==> s.counter == s.threshold)
    && (th.pc.AtUnlock? ==> |th.rets| == r - 1 && th.saved != s.cycle)
    && (th.pc.AtTest? || th.pc.Waiting? || th.pc.Woken? ==>
          || (|th.rets| == r && th.saved == s.cycle)
          || (|th.rets| == r - 1 && th.saved != s.cycle && s.serial[r - 1] != t))
  }

  /** A sleeper whose round is over is about to be woken: no wake-up is lost. */
  ghost predicate WakeOk(s: State, t: nat)
    requires t < |s.threads|
  {
    s.threads[t].pc.Waiting? && s.threads[t].saved != s.cycle ==>
      && s.owner.Some? && s.owner.value < |s.threads|
      && (s.threads[s.owner.value].pc.AtReset? || s.threads[s.owner.value].pc.AtCast?)
  }

  ghost predicate StatusOk(s: State, t: nat)
    requires t < |s.threads|
  {
    var th, r := s.threads[t], |s.serial|;
    && |th.rets| <= r
    && (forall k :: 0 <= k < |th.rets| ==> th.rets[k] == if s.serial[k] == t then -1 else 0)
    && (th.pc.AtUnlock? ==> r > 0 && th.status == if s.serial[r - 1] == t then -1 else 0)
    && (!th.pc.Outside? && !th.pc.AtLock? && !th.pc.AtUnlock? ==> th.status == 0)
  }

  ghost predicate MutexOk(s: State, t: nat)
    requires t < |s.threads|
  {
    Holds(s.threads[t].pc) <==> s.owner == Some(t)
  }

  ghost predicate ThreadOk(s: State, t: nat)
    requires t < |s.threads|
  {
    MutexOk(s, t) && RoundOk(s, t) && WakeOk(s, t) && StatusOk(s, t)
  }

  ghost predicate CountOk(s: State) {
    && s.threshold == |s.threads|
    && (s.owner.Some? ==> s.owner.value < |s.threads|)
    && 0 <= s.counter
    && (s.counter == 0 ==>
          && s.owner.Some?
          && (s.threads[s.owner.value].pc.AtFlip? || s.threads[s.owner.value].pc.AtReset?))
    && (if s.owner.Some? && s.threads[s.owner.value].pc.AtReset?
        then Arrived(s) == {} && s.counter == 0
        else s.counter == |s.threads| - |Arrived(s)|)
    && (forall k :: 0 <= k < |s.serial| ==> s.serial[k] < |s.threads|)
  }

  ghost predicate Inv(s: State) {
    && |s.threads| > 0
    && CountOk(s)
    && forall t: nat {:trigger s.threads[t]} :: t < |s.threads| ==> ThreadOk(s, t)
  }

  lemma InitInv(m: nat)
    requires m > 0
    ensures Inv(Init(m))
  {
    var s := Init(m);
    assert Arrived(s) == {};
    forall t: nat | t < m ensures ThreadOk(s, t) {
      assert s.threads[t] == Thread(Outside, false, 0, []);
    }
  }

  lemma QuietThread(s: State, t: nat, u: nat)
    requires Inv(s) && Enabled(s, t) && u < |s.threads|
    requires (var pc := s.threads[t].pc; pc.Outside? || pc.AtLock? || pc.AtRead? || pc.Woken?)
    ensures |Do(s, t).threads| == |s.threads| && ThreadOk(Do(s, t), u)
  {
    assert ThreadOk(s, u) && ThreadOk(s, t);
  }

  /** Entering, locking, remembering the cycle and waking up change nobody's round. */
  lemma QuietStep(s: State, t: nat)
    requires Inv(s) && Enabled(s, t)
    requires var pc := s.threads[t].pc; pc.Outside? || pc.AtLock? || pc.AtRead? || pc.Woken?
    ensures Inv(Do(s, t))
  {
    var s' := Do(s, t);
    assert Arrived(s') == Arrived(s);
    forall u: nat | u < |s.threads| ensures ThreadOk(s', u) {
      QuietThread(s, t, u);
    }
  }

  lemma SpuriousStep(s: State, t: nat)
    requires Inv(s) && CanSpuriouslyWake(s, t)
    ensures Inv(SetPc(s, t, Woken))
  {
    var s' := SetPc(s, t, Woken);
    assert Arrived(s') == Arrived(s);
    forall u: nat | u < |s.threads| ensures ThreadOk(s', u) {
      assert ThreadOk(s, u) && ThreadOk(s, t);
    }
  }

  lemma DecThread(s: State, t: nat, u: nat)
    requires Inv(s) && Enabled(s, t) && u < |s.threads|
    requires s.threads[t].pc.AtDec?
    ensures |Do(s, t).threads| == |s.threads| && ThreadOk(Do(s, t), u)
  {
    assert ThreadOk(s, u) && ThreadOk(s, t);
  }

  lemma DecArrived(s: State, t: nat)
    requires Inv(s) && Enabled(s, t) && s.threads[t].pc.AtDec?
    ensures t !in Arrived(s) && Arrived(Do(s, t)) == Arrived(s) + {t}
  {
    assert ThreadOk(s, t);
  }

  lemma DecStep(s: State, t: nat)
    requires Inv(s) && Enabled(s, t) && s.threads[t].pc.AtDec?
    ensures Inv(Do(s, t))
  {
    var s' := Do(s, t);
    DecArrived(s, t);
    forall u: nat | u < |s.threads| ensures ThreadOk(s', u) {
      DecThread(s, t, u);
    }
  }

  lemma FlipStep(s: State, t: nat)
    requires Inv(s) && Enabled(s, t) && s.threads[t].pc.AtFlip?
    ensures Inv(Do(s, t))
  {
    var s' := Do(s, t);
    Arith.SubsetFull(Arrived(s), |s.threads|);
    assert forall u: nat :: u < |s.threads| ==> u in Arrived(s);
    assert Arrived(s') == {};
    forall u: nat | u < |s.threads| ensures ThreadOk(s', u) {
      assert ThreadOk(s, u) && ThreadOk(s, t) && u in Arrived(s);
    }
  }

  lemma ResetStep(s: State, t: nat)
    requires Inv(s) && Enabled(s, t) && s.threads[t].pc.AtReset?
    ensures Inv(Do(s, t))
  {
    var s' := Do(s, t);
    assert Arrived(s') == Arrived(s) == {};
    forall u: nat | u < |s.threads| ensures ThreadOk(s', u) {
      assert ThreadOk(s, u) && ThreadOk(s, t);
    }
  }

  lemma CastStep(s: State, t: nat)
    requires Inv(s) && Enabled(s, t) && s.threads[t].pc.AtCast?
    ensures Inv(Do(s, t))
  {
    var s' := Do(s, t);
    assert Arrived(s') == Arrived(s);
    forall u: nat | u < |s.threads| ensures ThreadOk(s', u) {
      assert ThreadOk(s, u) && ThreadOk(s, t);
    }
  }

  lemma TestThread(s: State, t: nat, u: nat)
    requires Inv(s) && Enabled(s, t) && u < |s.threads|
    requires s.threads[t].pc.AtTest?
    ensures |Do(s, t).threads| == |s.threads| && ThreadOk(Do(s, t), u)
  {
    assert ThreadOk(s, u) && ThreadOk(s, t);
  }

  lemma TestStep(s: State, t: nat)
    requires Inv(s) && Enabled(s, t) && s.threads[t].pc.AtTest?
    ensures Inv(Do(s, t))
  {
    var s' := Do(s, t);
    assert Arrived(s') == Arrived(s);
    forall u: nat | u < |s.threads| ensures ThreadOk(s', u) {
      TestThread(s, t, u);
    }
  }

  lemma UnlockStep(s: State, t: nat)
    requires Inv(s) && Enabled(s, t) && s.threads[t].pc.AtUnlock?
    ensures Inv(Do(s, t))
  {
    var s' := Do(s, t);
    assert Arrived(s') == Arrived(s);
    forall u: nat | u < |s.threads| ensures ThreadOk(s', u) {
      assert ThreadOk(s, u) && ThreadOk(s, t);
    }
  }

  lemma StepInv(s: State, t: nat, s': State)
    requires Inv(s) && StepOf(s, t, s')
    ensures Inv(s')
  {
    if Enabled(s, t) && s' == Do(s, t) {
      match s.threads[t].pc
      case Outside | AtLock | AtRead | Woken => QuietStep(s, t);
      case AtDec => DecStep(s, t);
      case AtFlip => FlipStep(s, t);
      case AtReset => ResetStep(s, t);
      case AtCast => CastStep(s, t);
      case AtTest => TestStep(s, t);
      case AtUnlock => UnlockStep(s, t);
    } else {
      SpuriousStep(s, t);
    }
  }

  lemma NextInv(s: State, s': State)
    requires Inv(s) && Next(s, s')
    ensures Inv(s') && |s'.threads| == |s.threads|
  {
    var t: nat :| StepOf(s, t, s');
    StepInv(s, t, s');
  }

  lemma {:induction false} RunInv(m: nat, run: seq<State>, k: nat)
    requires m > 0 && IsRun(m, run) && k < |run|
    ensures Inv(run[k]) && |run[k].threads| == m
  {
    if k == 0 {
      InitInv(m);
    } else {
      RunInv(m, run, k - 1);
      assert Next(run[k - 1], run[k - 1 + 1]);
      NextInv(run[k - 1], run[k]);
    }
  }

  // -------------------------------------------------------------- main results

  /**
  Nobody leaves a round before everybody has entered it: at any point of any
  run, no thread has returned more often than any other has been counted in.
  */
  lemma NobodyLeavesEarly(m: nat, run: seq<State>, k: nat, t: nat, u: nat)
    requires m > 0 && IsRun(m, run) && k < |run| && t < m && u < m
    ensures |run[k].threads| == m
    ensures |run[k].threads[t].rets| <= Entered(run[k].threads[u])
  {
    RunInv(m, run, k);
    assert ThreadOk(run[k], t) && ThreadOk(run[k], u);
  }

  /**
  One bit of cycle is enough for any number of rounds: a thread that waits sees
  a changed cycle exactly when its own round is over, and never more than one
  round has been completed since it remembered the cycle.
  */
  lemma OneBitIsEnough(m: nat, run: seq<State>, k: nat, t: nat)
    requires m > 0 && IsRun(m, run) && k < |run| && t < m
    requires t < |run[k].threads|
    requires var pc := run[k].threads[t].pc; pc.AtTest? || pc.Waiting? || pc.Woken?
    ensures run[k].threads[t].saved != run[k].cycle <==> |run[k].threads[t].rets| < |run[k].serial|
    ensures |run[k].serial| - |run[k].threads[t].rets| <= 1
  {
    RunInv(m, run, k);
    assert ThreadOk(run[k], t);
  }

  /** In every completed round exactly one thread returns -1, the others return 0. */
  lemma OneSerialThreadPerRound(m: nat, run: seq<State>, k: nat, r: nat)
    requires m > 0 && IsRun(m, run) && k < |run| && r < |run[k].serial|
    ensures |run[k].threads| == m && run[k].serial[r] < m
    ensures forall t: nat :: t < m && r < |run[k].threads[t].rets| ==>
      run[k].threads[t].rets[r] == if t == run[k].serial[r] then -1 else 0
  {
    RunInv(m, run, k);
    forall t: nat | t < m && r < |run[k].threads[t].rets|
      ensures run[k].threads[t].rets[r] == if t == run[k].serial[r] then -1 else 0
    {
      assert ThreadOk(run[k], t);
    }
  }
}
