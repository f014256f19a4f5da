/**
The process list of a pipeline, rtdal_lnx/src/pipeline.c: a linked list kept
sorted by execution position, and the time slot that walks along it.
*/
module PipelineList {
  class Process {
    const execPosition: int
    var runnable: bool
    var isRunning: bool
    var next: Process?
    var pipeline: Pipeline?
    /** When the process was last added, in the order of additions. */
    ghost var stamp: nat

    constructor (position: int)
      ensures execPosition == position && next == null && !isRunning && runnable
    {
      execPosition := position;
      runnable, isRunning, next, pipeline, stamp := true, false, null, null, 0;
    }
  }

  /** Process `i` of a list points to the one after it, and the last to none. */
  ghost predicate Linked(l: seq<Process>, i: nat)
    requires i < |l|
    reads l`next
  {
    l[i].next == if i + 1 < |l| then l[i + 1] else null
  }

  ghost predicate IsChain(l: seq<Process>)
    reads l`next
  {
    forall i: nat :: i < |l| ==> Linked(l, i)
  }

  /** By execution position, and by arrival among equals. */
  ghost predicate Before(p: Process, q: Process)
    reads p`stamp, q`stamp
  {
    p.execPosition < q.execPosition || (p.execPosition == q.execPosition && p.stamp < q.stamp)
  }

  ghost predicate Ordered(l: seq<Process>)
    reads l`stamp
  {
    forall i, j {:trigger Before(l[i], l[j])} :: 0 <= i < j < |l| ==> Before(l[i], l[j])
  }

  ghost predicate Distinct(l: seq<Process>) {
    forall i, j :: 0 <= i < j < |l| ==> l[i] != l[j]
  }

  lemma OrderedBefore(l: seq<Process>, i: nat, j: nat)
    requires Ordered(l) && i < j < |l|
    ensures Before(l[i], l[j])
  {
  }

  /** An ordered list holds no process twice. */
  lemma OrderedDistinct(l: seq<Process>)
    requires Ordered(l)
    ensures Distinct(l)
  {
    forall i: nat, j: nat | i < j < |l| ensures l[i] != l[j] {
      OrderedBefore(l, i, j);
    }
  }

  /** Processes in order, all added before `clock`. */
  ghost predicate WellOrdered(l: seq<Process>, clock: nat)
    reads l`stamp
  {
    && Ordered(l)
    && forall i :: 0 <= i < |l| ==> l[i].stamp < clock
  }

  /** The processes with a position up to `pos` come first: `k` of them. */
  ghost predicate SplitsAt(l: seq<Process>, pos: int, k: nat) {
    && k <= |l|
    && (forall i :: 0 <= i < k ==> l[i].execPosition <= pos)
    && forall i :: k <= i < |l| ==> l[i].execPosition > pos
  }

  /** `l` with `p` put in at `k`. */
  function Inserted<T>(l: seq<T>, k: nat, p: T): (r: seq<T>)
    requires k <= |l|
    ensures |r| == |l| + 1
  {
    l[..k] + [p] + l[k..]
  }

  /** `l` without its element at `k`. */
  function Without<T>(l: seq<T>, k: nat): (r: seq<T>)
    requires k < |l|
    ensures |r| == |l| - 1
  {
    l[..k] + l[k + 1..]
  }

  lemma HeadSplits(l: seq<Process>, pos: int)
    requires Ordered(l) && l != [] && pos < l[0].execPosition
    ensures SplitsAt(l, pos, 0)
  {
    forall j: nat | 0 < j < |l| ensures l[j].execPosition > pos {
      OrderedBefore(l, 0, j);
    }
  }

  lemma ChainInserted(l: seq<Process>, k: nat, p: Process)
    requires k <= |l|
    requires forall i: nat :: i < |l| && i + 1 != k ==> Linked(l, i)
    requires p.next == (if k < |l| then l[k] else null) && (k > 0 ==> l[k - 1].next == p)
    ensures IsChain(Inserted(l, k, p))
  {
    var l' := Inserted(l, k, p);
    forall i: nat | i < |l'| ensures Linked(l', i) {
      if i + 1 < k {
        assert Linked(l, i);
      } else if i > k {
        assert Linked(l, i - 1);
      }
    }
  }

  lemma OrderedInserted(l: seq<Process>, k: nat, p: Process)
    requires WellOrdered(l, p.stamp) && p !in l && SplitsAt(l, p.execPosition, k)
    ensures WellOrdered(Inserted(l, k, p), p.stamp + 1)
  {
  }

  lemma OrderedWithout(l: seq<Process>, k: nat, clock: nat)
    requires k < |l| && WellOrdered(l, clock)
    ensures WellOrdered(Without(l, k), clock)
  {
  }

  /** The place that `pipeline_add` documents: the position, but not beyond the end. */
  function DocumentedPlace(n: nat, pos: int): (r: int)
    ensures r <= n && r <= pos && (r == n || r == pos)
  {
    if n < pos then n else pos
  }

  /** The list around the documented place is split there by the position. */
  ghost predicate FitsDocumented(l: seq<Process>, pos: int) {
    var d := DocumentedPlace(|l|, pos);
    d >= 0 && (d == 0 || l[d - 1].execPosition <= pos) && (d == |l| || l[d].execPosition > pos)
  }

  /** A process is put in at the documented place exactly if its neighbours there have it between them. */
  lemma DocumentedPlaceIff(l: seq<Process>, pos: int, k: nat)
    requires Ordered(l) && SplitsAt(l, pos, k)
    ensures k == DocumentedPlace(|l|, pos) <==> FitsDocumented(l, pos)
  {
  }

  /** A process with position 3 goes before one with position 5, where the documentation has it at place 1. */
  lemma DocumentedPlaceMissed(p: Process)
    requires p.execPosition == 5
    ensures SplitsAt([p], 3, 0) && DocumentedPlace(|[p]|, 3) == 1
  {
  }

  lemma SameHead(l: seq<Process>, l': seq<Process>)
    requires Ordered(l) && Ordered(l') && l != [] && forall p :: p in l <==> p in l'
    ensures l' != [] && l[0] == l'[0]
  {
    assert l[0] in l' && l'[0] in l;
    var i: nat, j: nat :| i < |l'| && l'[i] == l[0] && j < |l| && l[j] == l'[0];
    if i > 0 {
      OrderedBefore(l', 0, i);
    }
    if j > 0 {
      OrderedBefore(l, 0, j);
    }
  }

  /** The order leaves no choice: the list is determined by the processes in it and their arrival. */
  lemma {:induction false} OrderDetermined(l: seq<Process>, l': seq<Process>)
    requires Ordered(l) && Ordered(l') && forall p :: p in l <==> p in l'
    ensures l == l'
  {
    if l == [] {
      if l' != [] {
        SameHead(l', l);
      }
    } else {
      SameHead(l, l');
      OrderedDistinct(l);
      OrderedDistinct(l');
      forall p ensures p in l[1..] <==> p in l'[1..] {
        assert p in l <==> p == l[0] || p in l[1..];
        assert p in l' <==> p == l'[0] || p in l'[1..];
      }
      OrderDetermined(l[1..], l'[1..]);
    }
  }

  /** Linking in a process that is there already: those between it and its new predecessor fall out of the chain. */
  lemma ChainReattached(l: seq<Process>, j: nat, k: nat)
    requires j + 1 < k <= |l|
    requires forall i: nat :: i < |l| && i != j && i + 1 != k ==> Linked(l, i)
    requires l[j].next == if k < |l| then l[k] else null
    ensures IsChain(l[..j + 1] + l[k..])
  {
    var l' := l[..j + 1] + l[k..];
    forall i: nat | i < |l'| ensures Linked(l', i) {
      if i < j {
        assert Linked(l, i);
      } else if i > j {
        assert l'[i] == l[k + (i - j - 1)];
        assert Linked(l, k + (i - j - 1));
      }
    }
  }

  lemma ChainWithout(l: seq<Process>, k: nat)
    requires k < |l|
    requires forall i: nat :: i < |l| && i + 1 != k && i != k ==> Linked(l, i)
    requires k > 0 ==> l[k - 1].next == if k + 1 < |l| then l[k + 1] else null
    ensures IsChain(Without(l, k))
  {
    var l' := Without(l, k);
    forall i: nat | i < |l'| ensures Linked(l', i) {
      if i + 1 < k {
        assert Linked(l, i);
      } else if i >= k {
        assert Linked(l, i + 1);
      }
    }
  }

  /** What becomes of the chain when a process in the list is linked in once more behind place `k - 1`. */
  ghost predicate LinkedTwice(l: seq<Process>, p: Process, k: nat)
    reads l`next
  {
    && 0 < k <= |l|
    && forall j: nat :: j < |l| && l[j] == p ==> if j + 1 == k then p.next == p else IsChain(l[..j + 1] + l[k..])
  }

  lemma LinkedNow(l: seq<Process>, p: Process, k: nat)
    requires k <= |l| && Ordered(l) && (p in l ==> k > 0)
    requires forall i: nat :: i < |l| && i + 1 != k && l[i] != p ==> Linked(l, i)
    requires forall i :: k <= i < |l| ==> l[i] != p
    requires k > 0 ==> l[k - 1].next == p
    requires k == 0 || l[k - 1] != p ==> p.next == if k < |l| then l[k] else null
    ensures p !in l ==> IsChain(Inserted(l, k, p))
    ensures p in l ==> LinkedTwice(l, p, k)
  {
    if p !in l {
      ChainInserted(l, k, p);
    } else {
      OrderedDistinct(l);
      forall j: nat | j < |l| && l[j] == p && j + 1 != k ensures IsChain(l[..j + 1] + l[k..]) {
        ChainReattached(l, j, k);
      }
    }
  }

  // ------------------------------------------------------------------ time slots

  ghost function RunnableOf(l: seq<Process>): set<Process>
    reads l`runnable
  {
    set p | p in l && p.runnable
  }

  /** The runnable processes in order. */
  ghost function Runnables(l: seq<Process>, r: set<Process>): seq<Process> {
    if l == [] then [] else (if l[0] in r then [l[0]] else []) + Runnables(l[1..], r)
  }

  /** The processes that one slot runs, when those in `f` fail: up to the first that fails. */
  ghost function Executed(l: seq<Process>, r: set<Process>, f: set<Process>): seq<Process> {
    if l == [] then [] else
      if l[0] !in r then Executed(l[1..], r, f) else
        [l[0]] + if l[0] in f then [] else Executed(l[1..], r, f)
  }

  /** The list after the slot: the first that failed has been taken out. */
  ghost function Remaining(l: seq<Process>, r: set<Process>, f: set<Process>): seq<Process> {
    if l == [] then [] else
      if l[0] in r && l[0] in f then l[1..] else [l[0]] + Remaining(l[1..], r, f)
  }

  /** No runnable process comes after one that fails. */
  ghost predicate OnlyLastFails(l: seq<Process>, r: set<Process>, f: set<Process>) {
    forall i, j :: 0 <= i < j < |l| ==> !(l[i] in r && l[i] in f && l[j] in r)
  }

  lemma {:induction false} RunnablesMembers(l: seq<Process>, r: set<Process>)
    ensures Runnables(l, r) == [] <==> forall j :: 0 <= j < |l| ==> l[j] !in r
  {
    if l != [] {
      RunnablesMembers(l[1..], r);
      assert forall j :: 0 < j < |l| ==> l[j] == l[1..][j - 1];
    }
  }

  lemma RunnablesFirst(p: Process, l: seq<Process>, r: set<Process>)
    ensures Runnables([p] + l, r) == (if p in r then [p] else []) + Runnables(l, r)
  {
    assert ([p] + l)[1..] == l;
  }

  lemma Associate<T>(x: seq<T>, y: seq<T>, z: seq<T>)
    ensures x + (y + z) == (x + y) + z
  {
  }

  lemma RunnablesStep(p: Process, t: seq<Process>, b: seq<Process>, r: set<Process>)
    requires Runnables(t + b, r) == Runnables(t, r) + Runnables(b, r)
    ensures Runnables([p] + (t + b), r) == Runnables([p] + t, r) + Runnables(b, r)
  {
    RunnablesFirst(p, t + b, r);
    RunnablesFirst(p, t, r);
    Associate(if p in r then [p] else [], Runnables(t, r), Runnables(b, r));
  }

  /** The runnable processes of a list are those of its parts. */
  lemma {:induction false} RunnablesConcat(a: seq<Process>, b: seq<Process>, r: set<Process>)
    ensures Runnables(a + b, r) == Runnables(a, r) + Runnables(b, r)
    decreases |a|
  {
    if a == [] {
      assert a + b == b;
    } else {
      var p, t := a[0], a[1..];
      RunnablesConcat(t, b, r);
      RunnablesStep(p, t, b, r);
      assert a == [p] + t;
      Associate([p], t, b);
    }
  }

  lemma RunnablesOne(p: Process, r: set<Process>)
    ensures Runnables([p], r) == if p in r then [p] else []
  {
    assert [p][1..] == [];
  }

  /** Process `k` is the first to run and fail. */
  ghost predicate FirstFailure(l: seq<Process>, r: set<Process>, f: set<Process>, k: nat) {
    k < |l| && l[k] in r && l[k] in f && forall i :: 0 <= i < k ==> !(l[i] in r && l[i] in f)
  }

  /** A slot runs the runnable processes up to the first that fails, and takes that one out. */
  lemma {:induction false} SlotUpToFailure(l: seq<Process>, r: set<Process>, f: set<Process>, k: nat)
    requires FirstFailure(l, r, f, k)
    ensures Executed(l, r, f) == Runnables(l[..k], r) + [l[k]]
    ensures Remaining(l, r, f) == Without(l, k)
  {
    if k == 0 {
      assert Without(l, 0) == l[1..];
    } else {
      var t := l[1..];
      assert forall i :: 0 < i < |l| ==> t[i - 1] == l[i];
      SlotUpToFailure(t, r, f, k - 1);
      assert l[..k][1..] == t[..k - 1];
      assert Without(l, k) == [l[0]] + Without(t, k - 1);
    }
  }

  /** Without a failure, a slot runs all runnable processes and leaves the list. */
  lemma {:induction false} SlotWithoutFailure(l: seq<Process>, r: set<Process>, f: set<Process>)
    requires forall i :: 0 <= i < |l| ==> !(l[i] in r && l[i] in f)
    ensures Executed(l, r, f) == Runnables(l, r) && Remaining(l, r, f) == l
  {
    if l != [] {
      var t := l[1..];
      assert forall i :: 0 <= i < |t| ==> t[i] == l[i + 1];
      SlotWithoutFailure(t, r, f);
      assert l == [l[0]] + t;
    }
  }

  lemma OnlyLastTail(l: seq<Process>, r: set<Process>, f: set<Process>)
    requires l != []
    ensures OnlyLastFails(l, r, f) <==>
      OnlyLastFails(l[1..], r, f) && !(l[0] in r && l[0] in f && exists j :: 0 <= j < |l[1..]| && l[1..][j] in r)
  {
    var t := l[1..];
    assert forall j :: 0 < j < |l| ==> l[j] == t[j - 1];
    if !OnlyLastFails(t, r, f) {
      var i, j :| 0 <= i < j < |t| && t[i] in r && t[i] in f && t[j] in r;
      assert l[i + 1] == t[i] && l[j + 1] == t[j];
    }
    if l[0] in r && l[0] in f && exists j :: 0 <= j < |t| && t[j] in r {
      var j :| 0 <= j < |t| && t[j] in r;
      assert l[j + 1] == t[j];
    }
  }

  /** A slot runs every runnable process exactly if no runnable process comes after one that fails. */
  lemma {:induction false} RunsAllIff(l: seq<Process>, r: set<Process>, f: set<Process>)
    ensures Executed(l, r, f) == Runnables(l, r) <==> OnlyLastFails(l, r, f)
  {
    if l != [] {
      var t := l[1..];
      RunsAllIff(t, r, f);
      OnlyLastTail(l, r, f);
      RunnablesMembers(t, r);
      if l[0] in r {
        assert Runnables(l, r) == [l[0]] + Runnables(t, r);
        assert Runnables(l, r)[1..] == Runnables(t, r);
        assert Executed(l, r, f)[1..] == if l[0] in f then [] else Executed(t, r, f);
      }
    }
  }

  /** Two runnable processes, the first of which fails: the second does not run. */
  lemma SecondNotRun(p: Process, q: Process)
    requires p != q
    ensures Executed([p, q], {p, q}, {p}) == [p] && Runnables([p, q], {p, q}) == [p, q]
  {
    var l := [p, q];
    assert l[1..] == [q] && l[1..][1..] == [];
    assert Runnables(l[1..], {p, q}) == [q] + Runnables(l[1..][1..], {p, q});
  }

  lemma SlotStep(l: seq<Process>, r: set<Process>, f: set<Process>, i: nat)
    requires i < |l|
    ensures Executed(l[i..], r, f) ==
      if l[i] !in r then Executed(l[i + 1..], r, f) else [l[i]] + if l[i] in f then [] else Executed(l[i + 1..], r, f)
    ensures Remaining(l[i..], r, f) ==
      if l[i] in r && l[i] in f then l[i + 1..] else [l[i]] + Remaining(l[i + 1..], r, f)
  {
    assert l[i..][1..] == l[i + 1..];
  }

  /** `i` processes have been passed: what they ran, and the rest, make up the slot. */
  ghost predicate Passed(l: seq<Process>, r: set<Process>, f: set<Process>, ran: seq<Process>, i: nat) {
    && i <= |l|
    && ran + Executed(l[i..], r, f) == Executed(l, r, f)
    && l[..i] + Remaining(l[i..], r, f) == Remaining(l, r, f)
  }

  lemma Regroup<T>(a: seq<T>, x: T, b: seq<T>, whole: seq<T>)
    requires a + ([x] + b) == whole
    ensures (a + [x]) + b == whole
  {
  }

  lemma PassedRan(l: seq<Process>, r: set<Process>, f: set<Process>, ran: seq<Process>, i: nat)
    requires i < |l| && Passed(l, r, f, ran, i) && !(l[i] in r && l[i] in f)
    ensures (if l[i] in r then ran + [l[i]] else ran) + Executed(l[i + 1..], r, f) == Executed(l, r, f)
  {
    SlotStep(l, r, f, i);
    if l[i] in r {
      Regroup(ran, l[i], Executed(l[i + 1..], r, f), Executed(l, r, f));
    }
  }

  lemma PassedRest(l: seq<Process>, r: set<Process>, f: set<Process>, ran: seq<Process>, i: nat)
    requires i < |l| && Passed(l, r, f, ran, i) && !(l[i] in r && l[i] in f)
    ensures l[..i + 1] + Remaining(l[i + 1..], r, f) == Remaining(l, r, f)
  {
    SlotStep(l, r, f, i);
    Regroup(l[..i], l[i], Remaining(l[i + 1..], r, f), Remaining(l, r, f));
    assert l[..i + 1] == l[..i] + [l[i]];
  }

  lemma PassedNext(l: seq<Process>, r: set<Process>, f: set<Process>, ran: seq<Process>, i: nat)
    requires i < |l| && Passed(l, r, f, ran, i) && !(l[i] in r && l[i] in f)
    ensures Passed(l, r, f, if l[i] in r then ran + [l[i]] else ran, i + 1)
  {
    PassedRan(l, r, f, ran, i);
    PassedRest(l, r, f, ran, i);
  }

  lemma PassedFailing(l: seq<Process>, r: set<Process>, f: set<Process>, ran: seq<Process>, i: nat)
    requires i < |l| && Passed(l, r, f, ran, i) && l[i] in r && l[i] in f
    ensures ran + [l[i]] == Executed(l, r, f) && Without(l, i) == Remaining(l, r, f)
  {
    SlotStep(l, r, f, i);
  }

  lemma PassedAll(l: seq<Process>, r: set<Process>, f: set<Process>, ran: seq<Process>)
    requires Passed(l, r, f, ran, |l|)
    ensures ran == Executed(l, r, f) && l == Remaining(l, r, f)
  {
    assert l[|l|..] == [] && l[..|l|] == l;
  }

  class Pipeline {
    var firstProcess: Process?
    var nofProcesses: int
    var enable: bool
    var finished: bool
    var tsCounter: int
    var runningProcess: Process?
    var runningProcessIdx: int
    /** The processes in list order. */
    ghost var list: seq<Process>
    /** How many additions there have been. */
    ghost var clock: nat

    ghost predicate Valid()
      reads this`firstProcess, this`nofProcesses, this`list, this`clock, list`next, list`stamp
    {
      && firstProcess == (if list == [] then null else list[0])
      && nofProcesses == |list|
      && IsChain(list) && WellOrdered(list, clock)
    }

    constructor ()
      ensures Valid() && list == [] && enable
    {
      firstProcess, nofProcesses, enable, finished, tsCounter := null, 0, true, true, 0;
      runningProcess, runningProcessIdx := null, 0;
      list, clock := [], 0;
    }

    /** Walks to the process after which one with position `pos` belongs. */
    method FindPlace(pos: int) returns (p: Process, i: nat)
      requires Valid() && list != [] && list[0].execPosition <= pos
      ensures i < |list| && p == list[i] && SplitsAt(list, pos, i + 1)
    {
      i := 0;
      p := firstProcess;
      while p.next != null && pos >= p.next.execPosition
        invariant i < |list| && p == list[i]
        invariant forall j :: 0 <= j <= i ==> list[j].execPosition <= pos
        decreases |list| - i
      {
        assert Linked(list, i);
        p := p.next;
        i := i + 1;
      }
      assert Linked(list, i);
      forall j | i + 1 <= j < |list| ensures list[j].execPosition > pos {
        if j > i + 1 {
          OrderedBefore(list, i + 1, j);
        }
      }
    }

    lemma DocumentedPlaceHere(pos: int)
      requires Valid()
      ensures forall k: nat :: SplitsAt(list, pos, k) ==> (k == DocumentedPlace(|list|, pos) <==> FitsDocumented(list, pos))
    {
      forall k: nat | SplitsAt(list, pos, k) ensures k == DocumentedPlace(|list|, pos) <==> FitsDocumented(list, pos) {
        DocumentedPlaceIff(list, pos, k);
      }
    }

    /** The first two cases of `pipeline_add`: a new head. */
    method LinkHead(process: Process)
      requires Valid() && SplitsAt(list, process.execPosition, 0)
      modifies this`firstProcess, process`next
      ensures process !in list && firstProcess == process && IsChain(Inserted(list, 0, process))
    {
      ghost var l := list;
      assert process !in l;
      if firstProcess == null {
        firstProcess := process;
        process.next := null;
      } else {
        process.next := firstProcess;
        firstProcess := process;
      }
      forall j: nat | j < |l| ensures Linked(l, j) {
        assert old(Linked(l, j));
      }
      LinkedNow(l, process, 0);
    }

    /** The last case of `pipeline_add`: behind process number `i`. */
    method LinkBehind(process: Process, p: Process, ghost i: nat)
      requires Valid() && i < |list| && p == list[i] && SplitsAt(list, process.execPosition, i + 1)
      modifies process`next, p`next
      ensures process !in list ==> IsChain(Inserted(list, i + 1, process))
      ensures process in list ==> LinkedTwice(list, process, i + 1)
    {
      ghost var l := list;
      assert Linked(l, i);
      OrderedDistinct(l);
      process.next := p.next;
      p.next := process;
      forall j: nat | j < |l| && j != i && l[j] != process ensures Linked(l, j) {
        assert old(Linked(l, j));
      }
      LinkedNow(l, process, i + 1);
    }

    /** The relinking of `pipeline_add`. */
    method LinkIn(process: Process) returns (i: nat, ghost k: nat)
      requires Valid()
      modifies this`firstProcess, process`next, list`next
      ensures SplitsAt(list, process.execPosition, k) && i == if k == 0 then 0 else k - 1
      ensures k == 0 <==> list == [] || process.execPosition < list[0].execPosition
      ensures process !in list ==> IsChain(Inserted(list, k, process)) && firstProcess == Inserted(list, k, process)[0]
      ensures process in list ==> firstProcess == old(firstProcess) && LinkedTwice(list, process, k)
    {
      i, k := 0, 0;
      if firstProcess == null || process.execPosition < firstProcess.execPosition {
        if firstProcess != null {
          HeadSplits(list, process.execPosition);
        }
        LinkHead(process);
      } else {
        var p;
        p, i := FindPlace(process.execPosition);
        k := i + 1;
        LinkBehind(process, p, i);
      }
    }

    /** Records the arrival of a process that has been linked in. */
    ghost method Record(process: Process, k: nat, l: seq<Process>)
      requires WellOrdered(list, clock) && process !in list && SplitsAt(list, process.execPosition, k) && nofProcesses == |list| + 1
      requires l == Inserted(list, k, process) && IsChain(l) && firstProcess == l[0]
      modifies this`list, this`clock, process`stamp
      ensures Valid() && list == l
    {
      var l0 := list;
      process.stamp := clock;
      clock := clock + 1;
      list := l;
      OrderedInserted(l0, k, process);
    }

    /**
    `pipeline_add`: the process goes behind all others of the same or an earlier
    position. What is returned is its place in the list only if it became the head.
    A process that is in the list already is counted twice, and the chain is cut
    short or closed into a loop at it.
    */
    method Add(process: Process) returns (i: nat, ghost k: nat)
      requires Valid()
      modifies this`firstProcess, this`nofProcesses, this`list, this`clock
      modifies process`next, process`pipeline, process`stamp, list`next
      ensures SplitsAt(old(list), process.execPosition, k)
      ensures i == if k == 0 then 0 else k - 1
      ensures i == k <==> old(list == [] || process.execPosition < list[0].execPosition)
      ensures k == DocumentedPlace(|old(list)|, process.execPosition) <==> old(FitsDocumented(list, process.execPosition))
      ensures process.pipeline == this && nofProcesses == old(nofProcesses) + 1
      ensures process !in old(list) ==> Valid() && list == Inserted(old(list), k, process)
      ensures process in old(list) ==> list == old(list) && firstProcess == old(firstProcess) && LinkedTwice(list, process, k)
    {
      DocumentedPlaceHere(process.execPosition);
      i, k := LinkIn(process);
      nofProcesses := nofProcesses + 1;
      process.pipeline := this;
      if process !in list {
        Record(process, k, Inserted(list, k, process));
      }
    }

    /** Walks to `proc`. */
    method Find(proc: Process) returns (prev: Process?, cur: Process?, ghost k: nat)
      requires Valid()
      ensures cur == null <==> proc !in list
      ensures cur != null ==> k < |list| && cur == proc == list[k] && prev == if k == 0 then null else list[k - 1]
    {
      prev := null;
      cur := firstProcess;
      k := 0;
      while cur != proc && cur != null
        invariant k <= |list| && cur == (if k < |list| then list[k] else null)
        invariant prev == if k == 0 then null else list[k - 1]
        invariant proc !in list[..k]
        decreases |list| - k
      {
        assert Linked(list, k);
        prev := cur;
        cur := cur.next;
        k := k + 1;
      }
      assert cur == null ==> list[..k] == list;
    }

    /** The relinking of `pipeline_remove`. */
    method LinkOut(prev: Process?, proc: Process, ghost k: nat)
      requires Valid() && k < |list| && proc == list[k] && prev == if k == 0 then null else list[k - 1]
      modifies this`firstProcess, this`nofProcesses, this`list, list`next
      ensures Valid() && list == Without(old(list), k) && proc.next == null
    {
      ghost var l := list;
      OrderedDistinct(l);
      assert Linked(l, k);
      if prev != null {
        prev.next := proc.next;
      } else {
        firstProcess := proc.next;
      }
      nofProcesses := nofProcesses - 1;
      proc.next := null;
      forall j: nat | j < |l| && j + 1 != k && j != k ensures Linked(l, j) {
        assert old(Linked(l, j));
      }
      ChainWithout(l, k);
      list := Without(l, k);
      OrderedWithout(l, k, clock);
    }

    /** `pipeline_remove`: -1 and no change if the process is not in the list. */
    method Remove(proc: Process) returns (r: int, ghost k: nat)
      requires Valid()
      modifies this`firstProcess, this`nofProcesses, this`list, list`next
      ensures Valid()
      ensures r == if old(proc in list) then 0 else -1
      ensures r == -1 ==> list == old(list) && unchanged(list`next)
      ensures r == 0 ==> k < |old(list)| && old(list)[k] == proc && list == Without(old(list), k) && proc.next == null
    {
      var prev, cur;
      prev, cur, k := Find(proc);
      if cur == null {
        return -1, k;
      }
      LinkOut(prev, proc, k);
      r := 0;
    }

    /** Removes process number `i`. */
    method TakeOut(proc: Process, ghost i: nat)
      requires Valid() && i < |list| && proc == list[i]
      modifies this`firstProcess, this`nofProcesses, this`list, list`next
      ensures Valid() && list == Without(old(list), i) && proc.next == null
    {
      OrderedDistinct(list);
      var r;
      ghost var k;
      r, k := Remove(proc);
    }

    /** `pipeline_run_thread_run_module`: a process that fails is taken out of the list. */
    method RunModule(proc: Process, fails: set<Process>, i: nat) returns (did: bool)
      requires Valid() && i < |list| && proc == list[i]
      modifies this`firstProcess, this`nofProcesses, this`list, list`next, proc`isRunning, this`runningProcess, this`runningProcessIdx
      ensures if did then runningProcess == proc && runningProcessIdx == i else unchanged(`runningProcess, `runningProcessIdx)
      ensures Valid() && did == proc.runnable && (did ==> !proc.isRunning)
      ensures !(did && proc in fails) ==> list == old(list) && unchanged(list`next)
      ensures did && proc in fails ==> list == Without(old(list), i) && proc.next == null
    {
      did := proc.runnable;
      if did {
        runningProcess := proc;
        runningProcessIdx := i;
        proc.isRunning := true;
        if proc in fails {
          TakeOut(proc, i);
        }
        proc.isRunning := false;
      }
    }

    /** The process that ran last is recorded with its place in the list. */
    predicate RunningAt(l: seq<Process>)
      reads this`runningProcess, this`runningProcessIdx
    {
      0 <= runningProcessIdx < |l| && l[runningProcessIdx] == runningProcess
    }

    /** Where the slot's loop stands: at process number `idx`, or done. */
    ghost predicate AtTurn(l: seq<Process>, r: set<Process>, f: set<Process>, ran: seq<Process>, idx: int, runProc: Process?)
      reads this`list, this`runningProcess, this`runningProcessIdx
    {
      && 0 <= idx <= |l| && (ran != [] ==> runningProcess == ran[|ran| - 1] && RunningAt(l))
      && (runProc != null ==> idx < |l| && runProc == l[idx] && list == l && Passed(l, r, f, ran, idx))
      && (runProc == null ==> ran == Executed(l, r, f) && list == Remaining(l, r, f))
    }

    lemma StartTurn(l: seq<Process>, r: set<Process>, f: set<Process>)
      requires Valid() && list == l
      ensures AtTurn(l, r, f, [], 0, firstProcess)
    {
      assert l[0..] == l;
    }

    /** One turn of the slot's loop. */
    method RunNext(proc: Process, fails: set<Process>, idx: nat, ran: seq<Process>, ghost l: seq<Process>, ghost r: set<Process>)
      returns (next: Process?, ran': seq<Process>, corrupted: bool)
      requires Valid() && AtTurn(l, r, fails, ran, idx, proc) && proc.runnable == (proc in r)
      modifies this`firstProcess, this`nofProcesses, this`list, list`next, proc`isRunning, this`runningProcess, this`runningProcessIdx
      ensures Valid() && !corrupted && idx < |l| && AtTurn(l, r, fails, ran', idx + 1, next)
    {
      corrupted, ran' := idx > nofProcesses, ran;
      if !corrupted {
        var did := RunModule(proc, fails, idx);
        if did {
          ran' := ran + [proc];
        }
        if did && proc in fails {
          PassedFailing(l, r, fails, ran, idx);
        } else {
          PassedNext(l, r, fails, ran, idx);
          assert Linked(l, idx);
          if idx + 1 == |l| {
            PassedAll(l, r, fails, ran');
          }
        }
      }
      next := proc.next;
    }

    /** Walks along the list, unless the pipeline is disabled. */
    method Walk(fails: set<Process>) returns (ran: seq<Process>, corrupted: bool)
      requires Valid() && enable
      modifies this`firstProcess, this`nofProcesses, this`list, list`next, list`isRunning, this`runningProcess, this`runningProcessIdx
      ensures Valid() && !corrupted && (ran != [] ==> runningProcess == ran[|ran| - 1] && RunningAt(old(list)))
      ensures ran == Executed(old(list), old(RunnableOf(list)), fails) && list == Remaining(old(list), old(RunnableOf(list)), fails)
    {
      ghost var l, r := list, RunnableOf(list);
      ran, corrupted := [], false;
      var runProc, idx := firstProcess, 0;
      StartTurn(l, r, fails);
      while runProc != null && !corrupted
        invariant Valid() && !corrupted && AtTurn(l, r, fails, ran, idx, runProc)
        decreases |l| - idx
      {
        runProc, ran, corrupted := RunNext(runProc, fails, idx, ran, l, r);
        idx := idx + 1;
      }
    }

    /**
    `pipeline_run_time_slot`: runs the runnable processes in list order up to the
    first that fails, and never finds the list corrupted. A disabled pipeline runs
    nothing.
    */
    method RunTimeSlot(fails: set<Process>, slot: int) returns (ran: seq<Process>, corrupted: bool)
      requires Valid()
      modifies this`firstProcess, this`nofProcesses, this`list, this`finished, list`next, list`isRunning
      modifies this`tsCounter, this`runningProcess, this`runningProcessIdx
      ensures Valid() && finished && !corrupted && tsCounter == slot
      ensures ran != [] ==> runningProcess == ran[|ran| - 1] && RunningAt(old(list))
      ensures enable ==> ran == Executed(old(list), old(RunnableOf(list)), fails) && list == Remaining(old(list), old(RunnableOf(list)), fails)
      ensures !enable ==> ran == [] && list == old(list)
    {
      finished := false;
      ran, corrupted := [], false;
      if enable {
        ran, corrupted := Walk(fails);
      }
      tsCounter := slot;
      finished := true;
    }
  }

  /** Two additions: the second process comes to stand at place 1, and 0 is returned. */
  method InsertBehindHead() returns (pipe: Pipeline, process: Process, returned: nat)
    ensures pipe.Valid() && |pipe.list| == 2 && pipe.list[1] == process && returned == 0
  {
    pipe := new Pipeline();
    var head := new Process(5);
    ghost var k;
    returned, k := pipe.Add(head);
    assert pipe.list == [head];
    process := new Process(7);
    returned, k := pipe.Add(process);
  }

  /** The same process added twice: it is counted twice and points to itself. */
  method AddTwice() returns (pipe: Pipeline, process: Process)
    ensures pipe.firstProcess == process && process.next == process && pipe.nofProcesses == 2
  {
    pipe := new Pipeline();
    process := new Process(5);
    var returned;
    ghost var k;
    returned, k := pipe.Add(process);
    assert pipe.list == [process];
    returned, k := pipe.Add(process);
    assert pipe.list[0] == process;
  }
}
