/**
  Counting semaphores: a count and a ring of five waiting processes. Interrupts are off during
  each operation, so a system of processes makes the steps Wait and Signal in any order.
 */
module Semaphore {
  import opened Options

  const MAX_WPROCESS := 5

  /** The fields of a semaphore_t; processes are named by their pids. */
  datatype Sem = Sem(count: int, wprocess: seq<int>, first: nat, free: nat) {
    ghost predicate Valid() {
      |wprocess| == MAX_WPROCESS && first < MAX_WPROCESS && free < MAX_WPROCESS
    }
  }

  function Next(i: nat): nat {
    if i + 1 > MAX_WPROCESS - 1 then 0 else i + 1
  }

  /** sem_wait by a process: it blocks if the count becomes negative. */
  function WaitStep(s: Sem, pid: int): (r: (Sem, bool))
    requires s.Valid()
    ensures r.0.Valid()
  {
    if s.count - 1 < 0 then
      (Sem(s.count - 1, s.wprocess[s.free := pid], s.first, Next(s.free)), true)
    else
      (s.(count := s.count - 1), false)
  }

  /** sem_signal: if the count was negative, the process at first is woken. */
  function SignalStep(s: Sem): (r: (Sem, Option<int>))
    requires s.Valid()
    ensures r.0.Valid()
  {
    if s.count < 0 then
      (Sem(s.count + 1, s.wprocess, Next(s.first), s.free), Some(s.wprocess[s.first]))
    else
      (s.(count := s.count + 1), None)
  }

  class Semaphore {
    var count: int
    const wprocess: array<int>
    var first: nat
    var free: nat

    ghost function Value(): Sem
      reads this, wprocess
    {
      Sem(count, wprocess[..], first, free)
    }

    ghost predicate Valid()
      reads this, wprocess
    {
      Value().Valid()
    }

    /** sem_init. */
    constructor (initCount: int)
      ensures Valid() && fresh(wprocess)
      ensures count == initCount && first == free == 0
    {
      wprocess := new int[MAX_WPROCESS](_ => 0);
      count := initCount;
      first := 0;
      free := 0;
    }

    method Signal() returns (woken: Option<int>)
      requires Valid()
      modifies this
      ensures Valid() && (Value(), woken) == SignalStep(old(Value()))
    {
      woken := None;
      count := count + 1;
      if count - 1 < 0 {
        woken := Some(wprocess[first]);
        first := first + 1;
        if first > MAX_WPROCESS - 1 {
          first := 0;
        }
      }
    }

    /** Blocks the calling process if blocks is returned. */
    method Wait(current: int) returns (blocks: bool)
      requires Valid()
      modifies this, wprocess
      ensures Valid() && (Value(), blocks) == WaitStep(old(Value()), current)
    {
      blocks := false;
      count := count - 1;
      if count < 0 {
        wprocess[free] := current;
        free := free + 1;
        if free > MAX_WPROCESS - 1 {
          free := 0;
        }
        blocks := true;
      }
    }

    /** sem_value. */
    method GetValue() returns (v: int)
      ensures v == count
    {
      v := count;
    }
  }

  // ---- Runs ------------------------------------------------------------------

  datatype Step = Wait(pid: int) | Signal

  /**
    A system around one semaphore: who is blocked, in order of arrival, who was woken so far, in
    order, and how many calls of sem_wait have returned and of sem_signal were made.
   */
  datatype System = System(sem: Sem, blocked: seq<int>, arrived: seq<int>, woken: seq<int>, passed: nat, signals: nat)

  ghost predicate RingIndex(s: Sem, i: nat, k: nat) {
    k == if s.first + i < MAX_WPROCESS then s.first + i else s.first + i - MAX_WPROCESS
  }

  /** The ring from first to free holds exactly the given processes. */
  ghost predicate RingHolds(s: Sem, waiting: seq<int>) {
    && s.Valid()
    && |waiting| <= MAX_WPROCESS
    && RingIndex(s, |waiting|, if |waiting| == MAX_WPROCESS then s.first else s.free)
    && (|waiting| == MAX_WPROCESS ==> s.free == s.first)
    && forall i, k :: 0 <= i < |waiting| && 0 <= k < MAX_WPROCESS && RingIndex(s, i, k) ==> s.wprocess[k] == waiting[i]
  }

  /** A process that is not blocked makes a step; a woken process returns from sem_wait. */
  ghost function Do(y: System, step: Step): System
    requires y.sem.Valid()
  {
    match step
    case Wait(pid) =>
      var (sem, blocks) := WaitStep(y.sem, pid);
      if blocks then y.(sem := sem, blocked := y.blocked + [pid], arrived := y.arrived + [pid])
      else y.(sem := sem, passed := y.passed + 1)
    case Signal =>
      var (sem, woken) := SignalStep(y.sem);
      if woken.Some? then
        y.(sem := sem, blocked := Without(y.blocked, woken.value), woken := y.woken + [woken.value],
           passed := y.passed + 1, signals := y.signals + 1)
      else y.(sem := sem, signals := y.signals + 1)
  }

  /** The processes left blocked when pid becomes ready. */
  function Without(blocked: seq<int>, pid: int): seq<int> {
    if blocked == [] then [] else if blocked[0] == pid then blocked[1..] else [blocked[0]] + Without(blocked[1..], pid)
  }

  function Initial(initCount: int): System {
    System(Sem(initCount, seq(MAX_WPROCESS, _ => 0), 0, 0), [], [], [], 0, 0)
  }

  ghost function Run(initCount: int, steps: seq<Step>): (y: System)
    ensures y.sem.Valid()
  {
    if steps == [] then Initial(initCount) else Do(Run(initCount, steps[..|steps| - 1]), steps[|steps| - 1])
  }

  /** No more than five processes are ever blocked, and a blocked process does not call sem_wait. */
  ghost predicate Fits(initCount: int, steps: seq<Step>) {
    steps == [] ||
    (var n := |steps| - 1;
     && Fits(initCount, steps[..n])
     && |Run(initCount, steps).blocked| <= MAX_WPROCESS
     && (steps[n].Wait? ==> steps[n].pid !in Run(initCount, steps[..n]).blocked))
  }

  ghost predicate Invariant(y: System, initCount: nat) {
    && RingHolds(y.sem, y.blocked)
    && |y.blocked| == (if y.sem.count < 0 then -y.sem.count else 0)
    && y.passed - y.signals == initCount - (if y.sem.count > 0 then y.sem.count else 0)
    && y.arrived == y.woken + y.blocked
  }

  lemma WaitKeeps(y: System, pid: int, initCount: nat)
    requires Invariant(y, initCount) && |Do(y, Wait(pid)).blocked| <= MAX_WPROCESS
    ensures Invariant(Do(y, Wait(pid)), initCount)
  {
    var y' := Do(y, Wait(pid));
    if y.sem.count - 1 < 0 {
      assert y.arrived + [pid] == y.woken + (y.blocked + [pid]);
      forall i, k | 0 <= i < |y'.blocked| && 0 <= k < MAX_WPROCESS && RingIndex(y'.sem, i, k)
        ensures y'.sem.wprocess[k] == y'.blocked[i]
      {
        assert RingIndex(y.sem, i, k);
      }
    }
  }

  lemma SignalKeeps(y: System, initCount: nat)
    requires Invariant(y, initCount)
    ensures Invariant(Do(y, Signal), initCount)
    ensures y.blocked != [] ==> Do(y, Signal).woken == y.woken + [y.blocked[0]] && Do(y, Signal).blocked == y.blocked[1..]
  {
    var y' := Do(y, Signal);
    if y.sem.count < 0 {
      assert RingIndex(y.sem, 0, y.sem.first);
      assert y.sem.wprocess[y.sem.first] == y.blocked[0];
      assert y.woken + y.blocked == y.woken + [y.blocked[0]] + y.blocked[1..];
      forall i, k | 0 <= i < |y'.blocked| && 0 <= k < MAX_WPROCESS && RingIndex(y'.sem, i, k)
        ensures y'.sem.wprocess[k] == y'.blocked[i]
      {
        assert RingIndex(y.sem, i + 1, k);
      }
    }
  }

  /** The invariant holds in every run with a non-negative initial count and at most five waiters. */
  lemma {:induction false} RunsKeepInvariant(initCount: nat, steps: seq<Step>)
    requires Fits(initCount, steps)
    ensures Invariant(Run(initCount, steps), initCount)
  {
    if steps != [] {
      var n := |steps| - 1;
      RunsKeepInvariant(initCount, steps[..n]);
      match steps[n]
      case Wait(pid) => WaitKeeps(Run(initCount, steps[..n]), pid, initCount);
      case Signal => SignalKeeps(Run(initCount, steps[..n]), initCount);
    }
  }

  /**
    Mutual exclusion and no lost signal: at most initCount callers are past sem_wait without a
    signal for them, and exactly that many while anyone is blocked. Waiters pass in order of arrival.
   */
  lemma AtMostInitCountInside(initCount: nat, steps: seq<Step>)
    requires Fits(initCount, steps)
    ensures var y := Run(initCount, steps);
            && y.passed <= initCount + y.signals
            && (y.blocked != [] ==> y.passed == initCount + y.signals)
            && |y.blocked| == (if y.sem.count < 0 then -y.sem.count else 0)
            && RingHolds(y.sem, y.blocked)
            && y.arrived == y.woken + y.blocked
  {
    RunsKeepInvariant(initCount, steps);
  }

  /** A sixth waiter overwrites the ring cell of the longest waiting one: the ring keeps its meaning exactly up to five. */
  lemma SixthWaiterOverwrites(y: System, pid: int, initCount: nat)
    requires Invariant(y, initCount) && y.sem.count <= 0 && pid !in y.blocked
    ensures var y' := Do(y, Wait(pid));
            && (RingHolds(y'.sem, y'.blocked) <==> |y.blocked| < MAX_WPROCESS)
            && (Do(y', Signal).woken == y.woken + [y'.blocked[0]] <==> |y.blocked| < MAX_WPROCESS)
  {
    var y' := Do(y, Wait(pid));
    if |y.blocked| < MAX_WPROCESS {
      WaitKeeps(y, pid, initCount);
      SignalKeeps(y', initCount);
    } else {
      assert y'.sem.wprocess[y'.sem.first] == pid;
      assert y'.blocked[0] in y.blocked;
      assert Do(y', Signal).woken[|y.woken|] == pid;
    }
  }

  /** Processes 1 to n call sem_wait, one after the other. */
  function Crowd(n: nat): seq<Step> {
    if n == 0 then [] else Crowd(n - 1) + [Wait(n)]
  }

  ghost predicate Standing(y: System, n: nat) {
    && n <= MAX_WPROCESS && |y.blocked| == n && (forall i :: 0 <= i < n ==> y.blocked[i] == i + 1) && y.woken == []
    && y.sem.Valid() && y.sem.count + n == 0 && y.sem.first == 0 && y.sem.free == (if n == MAX_WPROCESS then 0 else n)
    && forall i :: 0 <= i < n ==> y.sem.wprocess[i] == i + 1
  }

  lemma RunLast(initCount: int, steps: seq<Step>, step: Step)
    ensures Run(initCount, steps + [step]) == Do(Run(initCount, steps), step)
    ensures Fits(initCount, steps) && |Run(initCount, steps + [step]).blocked| <= MAX_WPROCESS
              && (step.Wait? ==> step.pid !in Run(initCount, steps).blocked) ==>
              Fits(initCount, steps + [step])
  {
    assert (steps + [step])[..|steps|] == steps && (steps + [step])[|steps|] == step;
  }

  lemma StandingStep(y: System, n: nat)
    requires Standing(y, n) && n < MAX_WPROCESS
    ensures Standing(Do(y, Wait(n + 1)), n + 1) && n + 1 !in y.blocked
  {
  }

  /** With initial count 0, up to five of them are blocked as they came. */
  lemma {:induction false} CrowdWaits(n: nat)
    requires n <= MAX_WPROCESS
    ensures Fits(0, Crowd(n)) && Standing(Run(0, Crowd(n)), n)
  {
    hide Run, Do, Standing;
    if n == 0 {
      NobodyStands();
    } else {
      CrowdWaits(n - 1);
      StandingStep(Run(0, Crowd(n - 1)), n - 1);
      RunLast(0, Crowd(n - 1), Wait(n));
      StandingCount(Run(0, Crowd(n)), n);
    }
  }

  lemma NobodyStands()
    ensures Standing(Run(0, []), 0)
  {
  }

  lemma StandingCount(y: System, n: nat)
    requires Standing(y, n)
    ensures |y.blocked| == n <= MAX_WPROCESS
  {
  }

  /** Six waiters and one signal: the sixth one is woken, and the first one is lost from the ring. */
  lemma SixWaiters()
    ensures var y := Run(0, Crowd(6) + [Signal]);
            y.woken == [6] && |y.blocked| == 5 && y.blocked[0] == 1 && !RingHolds(y.sem, y.blocked)
  {
    CrowdWaits(5);
    RunLast(0, Crowd(5), Wait(6));
    RunLast(0, Crowd(6), Signal);
    var five, six, y := Run(0, Crowd(5)), Run(0, Crowd(6)), Run(0, Crowd(6) + [Signal]);
    hide Run;
    assert six.sem.wprocess[0] == 6 && six.blocked == five.blocked + [6];
    WithoutLast(six.blocked, 6);
    assert RingIndex(y.sem, 4, 0) && y.sem.wprocess[0] == 6 && y.blocked[4] == 5;
  }

  lemma {:induction false} WithoutLast(blocked: seq<int>, pid: int)
    requires blocked != [] && blocked[|blocked| - 1] == pid && forall i :: 0 <= i < |blocked| - 1 ==> blocked[i] != pid
    ensures Without(blocked, pid) == blocked[..|blocked| - 1]
  {
    if |blocked| > 1 {
      WithoutLast(blocked[1..], pid);
    }
  }
}
