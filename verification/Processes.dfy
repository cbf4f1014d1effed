/** The process table as a value, and what one scheduling decision does to it. */
module Processes {
  import opened Options

  const MAX_PROCESSES := 32
  const W_CHILD := 2

  datatype Status = Blocked | Ready | Running | Finalized

  /** The fields of a PROCESS that scheduling reads and writes. */
  datatype Proc = Proc(pid: nat, parent: nat, priority: int, status: Status, lastCalled: int, waitingFlags: int)

  type Table = t: seq<Option<Proc>> | |t| == MAX_PROCESSES witness seq(MAX_PROCESSES, _ => None)

  /** A process that takes part in a decision: PNONE is priority 0. */
  predicate Runnable(p: Proc) {
    p.status != Blocked && p.status != Finalized && p.priority != 0
  }

  predicate Eligible(s: Option<Proc>) {
    s.Some? && Runnable(s.value)
  }

  /** What the sweep does to a slot: finalized processes leave the table, runnable ones age. */
  function AgedSlot(s: Option<Proc>): Option<Proc> {
    if s.None? || s.value.status == Finalized then None
    else if Runnable(s.value) then Some(s.value.(lastCalled := s.value.lastCalled + 1))
    else s
  }

  /** The table after the sweep over slots 1, 2, ... below n; slot 0 belongs to the idle process. */
  function AgedBelow(t: Table, n: nat): (r: Table)
    requires n <= MAX_PROCESSES
    ensures forall i :: 0 <= i < MAX_PROCESSES ==> r[i] == if 1 <= i < n then AgedSlot(t[i]) else t[i]
  {
    seq(MAX_PROCESSES, i requires 0 <= i < MAX_PROCESSES => if 1 <= i < n then AgedSlot(t[i]) else t[i])
  }

  function Bonus(p: Proc, withPriority: bool): int {
    if withPriority then p.priority * 2 else 0
  }

  function Score(p: Proc, withPriority: bool): int {
    Bonus(p, withPriority) + p.lastCalled
  }

  function BestScore(t: Table, best: nat, withPriority: bool): int
    requires best < MAX_PROCESSES && (best != 0 ==> Eligible(t[best]))
  {
    if best == 0 then 0 else Score(t[best].value, withPriority)
  }

  /** The slot the sweep would choose from slots 1, 2, ... below n of the aged table; 0 if none scores. */
  function Best(t: Table, n: nat, withPriority: bool): (best: nat)
    requires n <= MAX_PROCESSES
    ensures best == 0 || (best < n && Eligible(t[best]))
  {
    if n <= 1 then 0 else
      var best := Best(t, n - 1, withPriority);
      if Eligible(t[n - 1]) && Score(t[n - 1].value, withPriority) > BestScore(t, best, withPriority) then n - 1 else best
  }

  /** The choice is the first of the highest positive scores. */
  lemma {:induction false} BestIsFirstMaximum(t: Table, n: nat, withPriority: bool)
    requires n <= MAX_PROCESSES
    ensures var best := Best(t, n, withPriority);
            && BestScore(t, best, withPriority) >= 0
            && (forall i :: 1 <= i < n && Eligible(t[i]) ==>
                  Score(t[i].value, withPriority) <= BestScore(t, best, withPriority))
            && (forall i :: 1 <= i < best && Eligible(t[i]) ==>
                  Score(t[i].value, withPriority) < BestScore(t, best, withPriority))
            && (best != 0 ==> BestScore(t, best, withPriority) > 0)
  {
    if n > 1 {
      BestIsFirstMaximum(t, n - 1, withPriority);
    }
  }

  function Chosen(t: Table, withPriority: bool): (slot: nat)
    ensures slot < MAX_PROCESSES
  {
    Best(AgedBelow(t, MAX_PROCESSES), MAX_PROCESSES, withPriority)
  }

  function Started(s: Option<Proc>): Option<Proc> {
    if s.None? then None else Some(s.value.(status := Running, lastCalled := 0))
  }

  /** The table after getNextProcess: aged, with the chosen process running and its age reset. */
  function Decided(t: Table, withPriority: bool): Table {
    var aged := AgedBelow(t, MAX_PROCESSES);
    var slot := Chosen(t, withPriority);
    aged[slot := Started(aged[slot])]
  }

  /** The sweep, slot by slot. */
  lemma SweptSlots(t: Table)
    ensures var e := AgedBelow(t, MAX_PROCESSES);
            forall i :: 1 <= i < MAX_PROCESSES && t[i].Some? ==>
              if t[i].value.status == Finalized then e[i].None?
              else if t[i].value.status == Blocked || t[i].value.priority == 0 then e[i] == t[i]
              else e[i] == Some(t[i].value.(lastCalled := t[i].value.lastCalled + 1))
  {
  }

  /** A decision, slot by slot: who leaves the table, who runs, who has waited one decision more, and who is left alone. */
  lemma DecidedSlots(t: Table, withPriority: bool)
    ensures var e, c := Decided(t, withPriority), Chosen(t, withPriority);
            && (forall i :: 1 <= i < MAX_PROCESSES && (t[i].None? || t[i].value.status == Finalized) ==> e[i].None? && i != c)
            && (forall i :: 1 <= i < MAX_PROCESSES && t[i].Some? && (t[i].value.status == Blocked || t[i].value.priority == 0)
                            && t[i].value.status != Finalized ==>
                  e[i] == t[i] && i != c)
            && (forall i :: 1 <= i < MAX_PROCESSES && t[i].Some? && (t[i].value.status == Ready || t[i].value.status == Running)
                            && t[i].value.priority != 0 ==>
                  e[i] == Some(if i == c then t[i].value.(status := Running, lastCalled := 0)
                               else t[i].value.(lastCalled := t[i].value.lastCalled + 1)))
            && (t[0].Some? ==> e[0] == if c == 0 then Some(t[0].value.(status := Running, lastCalled := 0)) else t[0])
  {
    hide Best, BestScore;
  }

  /**
    Whom a decision chooses. Every runnable process has waited one decision more; twice the priority
    counts with it, if priorities are used. The first one of the highest positive sum is chosen, and
    slot 0 if there is none.
   */
  lemma ChosenSlot(t: Table, withPriority: bool)
    ensures var c := Chosen(t, withPriority);
            var sum := (p: Proc) => (if withPriority then 2 * p.priority else 0) + p.lastCalled + 1;
            && (forall i :: 1 <= i < MAX_PROCESSES && t[i].Some? && (t[i].value.status == Ready || t[i].value.status == Running)
                            && t[i].value.priority != 0 ==>
                  if c == 0 then sum(t[i].value) <= 0
                  else t[c].Some? && sum(t[i].value) <= sum(t[c].value) && (i < c ==> sum(t[i].value) < sum(t[c].value)))
            && (c != 0 ==> t[c].Some? && sum(t[c].value) > 0)
  {
    var aged, c := AgedBelow(t, MAX_PROCESSES), Chosen(t, withPriority);
    BestIsFirstMaximum(aged, MAX_PROCESSES, withPriority);
    forall i | 1 <= i < MAX_PROCESSES && Eligible(aged[i])
      ensures t[i].Some? && aged[i] == Some(t[i].value.(lastCalled := t[i].value.lastCalled + 1))
    {
    }
  }
}
