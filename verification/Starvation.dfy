/**
  No starvation: a process that stays runnable is chosen within a bounded number of decisions,
  whatever happens to the other processes in between.
 */
module Starvation {
  import opened Options
  import opened Processes
  import opened KillTree

  const SKY_HIGH := 6

  /** How far a competitor's bonus can exceed that of a process of priority at least least. */
  function Handicap(least: int, withPriority: bool): int {
    if withPriority then 2 * SKY_HIGH - 2 * least else 0
  }

  /** The process in slot t waits: runnable, and of at least the given priority. */
  ghost predicate Waits(s: Table, t: nat, least: int) {
    t < MAX_PROCESSES && Eligible(s[t]) && s[t].value.priority >= least
  }

  /**
    What may happen between two decisions. The process in slot t stays and keeps waiting; any
    other slot may be emptied, may get a new process (never called yet), or may hold the same
    process with any status, any priority up to SKY_HIGH, and its age kept or reset.
   */
  ghost predicate Between(s: Table, e: Table, t: nat, least: int) {
    && Waits(s, t, least) && Waits(e, t, least)
    && e[t].value.lastCalled == s[t].value.lastCalled
    && forall i :: 1 <= i < MAX_PROCESSES && i != t && e[i].Some? ==>
         && e[i].value.priority <= SKY_HIGH
         && (e[i].value.lastCalled <= 0 || (s[i].Some? && e[i].value.lastCalled <= s[i].value.lastCalled))
  }

  /** A competitor that could still be preferred to slot t. */
  ghost predicate Ahead(s: Table, t: nat, handicap: int, i: nat)
    requires t < MAX_PROCESSES && s[t].Some?
  {
    1 <= i < MAX_PROCESSES && i != t && s[i].Some? && handicap + s[i].value.lastCalled >= s[t].value.lastCalled
  }

  ghost function Rivals(s: Table, t: nat, handicap: int): set<nat>
    requires t < MAX_PROCESSES && s[t].Some?
  {
    set i: nat | 1 <= i < MAX_PROCESSES && Ahead(s, t, handicap, i)
  }

  /** An upper bound on the number of decisions until slot t is chosen. */
  ghost function Budget(s: Table, t: nat, handicap: int): int
    requires t < MAX_PROCESSES && s[t].Some?
  {
    if s[t].value.lastCalled <= handicap then handicap - s[t].value.lastCalled + 31
    else |Rivals(s, t, handicap)| + 1
  }

  function SlotsBelow(n: nat): set<nat> {
    if n <= 1 then {} else SlotsBelow(n - 1) + {n - 1}
  }

  lemma {:induction false} SlotsBelowSize(n: nat)
    requires n >= 1
    ensures |SlotsBelow(n)| == n - 1
    ensures forall i :: i in SlotsBelow(n) <==> 1 <= i < n
  {
    if n > 1 {
      SlotsBelowSize(n - 1);
    }
  }

  lemma SubsetSize(a: set<nat>, b: set<nat>)
    requires a <= b
    ensures |a| <= |b|
  {
    assert b == a + (b - a);
  }

  /** There are at most 30 rivals, slot 0 and slot t excluded. */
  lemma RivalsBound(s: Table, t: nat, handicap: int)
    requires 1 <= t < MAX_PROCESSES && s[t].Some?
    ensures |Rivals(s, t, handicap)| <= 30
  {
    SlotsBelowSize(MAX_PROCESSES);
    SubsetSize(Rivals(s, t, handicap), SlotsBelow(MAX_PROCESSES) - {t});
  }

  lemma BudgetBounds(s: Table, t: nat, handicap: nat)
    requires 1 <= t < MAX_PROCESSES && s[t].Some? && s[t].value.lastCalled >= 0
    ensures 1 <= Budget(s, t, handicap) <= handicap + 31
  {
    RivalsBound(s, t, handicap);
  }

  /** A decision that passes over a waiting process chooses one of its rivals. */
  lemma PassedOverByRival(e: Table, t: nat, least: int, withPriority: bool)
    requires 1 <= t && Waits(e, t, least) && 1 <= least <= SKY_HIGH
    requires e[t].value.lastCalled >= 0 && Chosen(e, withPriority) != t
    requires forall i :: 1 <= i < MAX_PROCESSES && i != t && e[i].Some? ==> e[i].value.priority <= SKY_HIGH
    ensures Chosen(e, withPriority) != 0
    ensures Ahead(e, t, Handicap(least, withPriority), Chosen(e, withPriority))
  {
    var aged := AgedBelow(e, MAX_PROCESSES);
    BestIsFirstMaximum(aged, MAX_PROCESSES, withPriority);
    assert Eligible(aged[t]) && Score(aged[t].value, withPriority) > 0;
  }

  /** Time passing and one decision for another process bring slot t strictly closer to its turn. */
  lemma DecisionSpendsBudget(s: Table, e: Table, t: nat, least: int, withPriority: bool)
    requires 1 <= t && 1 <= least <= SKY_HIGH && Between(s, e, t, least)
    requires s[t].value.lastCalled >= 0 && Chosen(e, withPriority) != t
    ensures var s' := Decided(e, withPriority);
            && Waits(s', t, least)
            && s'[t].value.lastCalled == s[t].value.lastCalled + 1
            && Budget(s', t, Handicap(least, withPriority)) < Budget(s, t, Handicap(least, withPriority))
  {
    var d := Handicap(least, withPriority);
    var s', w := Decided(e, withPriority), Chosen(e, withPriority);
    PassedOverByRival(e, t, least, withPriority);
    if s[t].value.lastCalled >= d {
      forall i | i in Rivals(s', t, d)
        ensures i in Rivals(e, t, d) - {w}
      {
        assert Ahead(s', t, d, i);
        assert Ahead(e, t, d, i);
      }
      assert w in Rivals(e, t, d);
      SubsetSize(Rivals(s', t, d), Rivals(e, t, d) - {w});
      assert |Rivals(e, t, d) - {w}| == |Rivals(e, t, d)| - 1;
      RivalsBound(e, t, d);
      if s[t].value.lastCalled > d {
        forall i | i in Rivals(e, t, d)
          ensures i in Rivals(s, t, d)
        {
          assert Ahead(e, t, d, i);
          assert Ahead(s, t, d, i);
        }
        SubsetSize(Rivals(e, t, d), Rivals(s, t, d));
      }
    }
  }

  /** A run: between decision k and the next anything allowed happens, turning states[k] into seen[k]. */
  ghost predicate IsRun(states: seq<Table>, seen: seq<Table>, t: nat, least: int, withPriority: bool) {
    && |states| == |seen| + 1
    && forall k :: 0 <= k < |seen| ==>
         Between(states[k], seen[k], t, least) && states[k + 1] == Decided(seen[k], withPriority)
  }

  lemma {:induction false} PassedOver(states: seq<Table>, seen: seq<Table>, t: nat, least: int, withPriority: bool, n: nat)
    requires 1 <= t < MAX_PROCESSES && 1 <= least <= SKY_HIGH && IsRun(states, seen, t, least, withPriority)
    requires Waits(states[0], t, least) && states[0][t].value.lastCalled >= 0 && n <= |seen|
    requires forall k :: 0 <= k < n ==> Chosen(seen[k], withPriority) != t
    ensures Waits(states[n], t, least) && states[n][t].value.lastCalled == states[0][t].value.lastCalled + n
    ensures Budget(states[n], t, Handicap(least, withPriority)) + n <= Budget(states[0], t, Handicap(least, withPriority))
  {
    if n > 0 {
      PassedOver(states, seen, t, least, withPriority, n - 1);
      DecisionSpendsBudget(states[n - 1], seen[n - 1], t, least, withPriority);
    }
  }

  /**
    No starvation: of Handicap + 31 consecutive decisions, one chooses the waiting process. With
    priorities that is 43 - 2 * least, so 41 for the lowest priority; without, 31.
   */
  lemma NoStarvation(states: seq<Table>, seen: seq<Table>, t: nat, least: int, withPriority: bool)
    requires 1 <= t < MAX_PROCESSES && 1 <= least <= SKY_HIGH && IsRun(states, seen, t, least, withPriority)
    requires Waits(states[0], t, least) && states[0][t].value.lastCalled >= 0
    requires |seen| >= if withPriority then 43 - 2 * least else 31
    ensures exists k :: 0 <= k < (if withPriority then 43 - 2 * least else 31) && Chosen(seen[k], withPriority) == t
  {
    var d := Handicap(least, withPriority);
    var n := d + 31;
    if forall k :: 0 <= k < n ==> Chosen(seen[k], withPriority) != t {
      PassedOver(states, seen, t, least, withPriority, n);
      BudgetBounds(states[0], t, d);
      BudgetBounds(states[n], t, d);
    }
  }

  /** The creator of a foreground process, which waits for it to end. */
  function Resting(p: Proc): Proc {
    p.(lastCalled := 0, status := Blocked, waitingFlags := W_CHILD)
  }

  // ---- What the scheduler's own operations do between decisions ---------------

  ghost predicate PrioritiesOk(s: Table) {
    forall i :: 1 <= i < MAX_PROCESSES && s[i].Some? ==> s[i].value.priority <= SKY_HIGH
  }

  lemma BetweenTransitive(a: Table, b: Table, c: Table, t: nat, least: int)
    requires Between(a, b, t, least) && Between(b, c, t, least)
    ensures Between(a, c, t, least)
  {
    assert forall i :: 1 <= i < MAX_PROCESSES && i != t && c[i].Some? ==> c[i].value.lastCalled <= 0 || b[i].Some?;
  }

  /** Blocking or waking another process, or waking this one, leaves it waiting. */
  lemma SetStatusBetween(s: Table, pid: nat, status: Status, t: nat, least: int)
    requires Waits(s, t, least) && PrioritiesOk(s) && KinOk(KinOf(s))
    requires s[t].value.pid != pid || status == Ready || status == Running
    ensures Between(s, WithStatus(s, pid, status), t, least)
    ensures PrioritiesOk(WithStatus(s, pid, status))
  {
  }

  /** Changing another process's priority, or raising this one's, leaves it waiting. */
  lemma SetPriorityBetween(s: Table, pid: nat, priority: int, t: nat, least: int)
    requires Waits(s, t, least) && PrioritiesOk(s) && KinOk(KinOf(s)) && priority <= SKY_HIGH && 1 <= least
    requires s[t].value.pid != pid || priority >= least
    ensures Between(s, WithPriority(s, pid, priority), t, least)
    ensures PrioritiesOk(WithPriority(s, pid, priority))
  {
  }

  /** Killing a process leaves every process waiting that is not in its family. */
  lemma KillBetween(s: Table, pid: nat, t: nat, least: int)
    requires Waits(s, t, least) && PrioritiesOk(s)
    requires !Killable(KinOf(s), pid) || !Under(KinOf(s), s[t].value.pid, pid)
    ensures Between(s, KillTable(s, pid), t, least)
    ensures PrioritiesOk(KillTable(s, pid))
  {
    forall i | 0 <= i < MAX_PROCESSES && s[i].Some?
      ensures KillTable(s, pid)[i].Some? && KillTable(s, pid)[i].value.priority == s[i].value.priority
      ensures KillTable(s, pid)[i].value.lastCalled == s[i].value.lastCalled
    {
    }
  }

  /** Creating a process in an empty slot leaves every process waiting. */
  lemma CreateBetween(s: Table, slot: nat, p: Proc, t: nat, least: int)
    requires Waits(s, t, least) && PrioritiesOk(s)
    requires slot < MAX_PROCESSES && s[slot].None? && p.lastCalled == 0 && p.priority <= SKY_HIGH
    ensures Between(s, s[slot := Some(p)], t, least)
    ensures PrioritiesOk(s[slot := Some(p)])
  {
  }

  /** A foreground creation: the process is made, its creator's age is reset, and the creator blocked. */
  lemma ForegroundBetween(s: Table, slot: nat, p: Proc, c: nat, t: nat, least: int)
    requires Waits(s, t, least) && PrioritiesOk(s)
    requires slot < MAX_PROCESSES && s[slot].None? && p.lastCalled == 0 && p.priority <= SKY_HIGH
    requires c < MAX_PROCESSES && s[c].Some? && c != t
    ensures var made := s[slot := Some(p)];
            var rested := made[c := Some(Resting(made[c].value))];
            Between(s, rested, t, least) && PrioritiesOk(rested)
  {
    var made := s[slot := Some(p)];
    CreateBetween(s, slot, p, t, least);
    RestingBetween(made, c, t, least);
    BetweenTransitive(s, made, made[c := Some(Resting(made[c].value))], t, least);
  }

  /** A process that rests until its child ends leaves every other process waiting. */
  lemma RestingBetween(s: Table, c: nat, t: nat, least: int)
    requires Waits(s, t, least) && PrioritiesOk(s) && c < MAX_PROCESSES && s[c].Some? && c != t
    ensures Between(s, s[c := Some(Resting(s[c].value))], t, least)
    ensures PrioritiesOk(s[c := Some(Resting(s[c].value))])
  {
  }

  lemma NothingBetween(s: Table, t: nat, least: int)
    requires Waits(s, t, least) && PrioritiesOk(s)
    ensures Between(s, s, t, least)
  {
  }

  /** A decision changes no priority. */
  lemma DecidedKeepsPriorities(s: Table, withPriority: bool)
    requires PrioritiesOk(s)
    ensures PrioritiesOk(Decided(s, withPriority))
  {
    hide Chosen;
  }

  /** A waiting process waits on after a decision, whether it was chosen or not. */
  lemma DecidedKeepsWaiting(s: Table, t: nat, least: int, withPriority: bool)
    requires Waits(s, t, least)
    ensures Waits(Decided(s, withPriority), t, least)
  {
    hide Chosen;
  }
}
