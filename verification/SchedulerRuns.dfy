/**
  No starvation over runs of the scheduler's own operations: any sequence of them between two
  decisions, foreground creations included, leaves a waiting process that it does not stop waiting.
 */
module SchedulerRuns {
  import opened Options
  import opened Processes
  import opened KillTree
  import opened Starvation

  /** The process table and the next pid. */
  datatype System = System(table: Table, nextPID: nat)

  /** Calls between two decisions; the creator of a process is given by its slot. */
  datatype Action =
    | SettingStatus(pid: nat, status: Status)
    | SettingPriority(pid: nat, priority: int)
    | Killing(pid: nat)
    | Scheduling(creator: nat, foreground: bool, status: Status, priority: int)

  function FirstEmpty(t: seq<Option<Proc>>): (slot: nat)
    ensures slot <= |t| && (slot < |t| ==> t[slot].None?) && forall i :: 0 <= i < slot ==> t[i].Some?
  {
    if t == [] || t[0].None? then 0 else 1 + FirstEmpty(t[1..])
  }

  ghost function Acted(s: System, a: Action): System
    requires a.Scheduling? ==> a.creator < MAX_PROCESSES && s.table[a.creator].Some?
  {
    match a
    case SettingStatus(pid, status) => s.(table := WithStatus(s.table, pid, status))
    case SettingPriority(pid, priority) => s.(table := WithPriority(s.table, pid, priority))
    case Killing(pid) => s.(table := KillTable(s.table, pid))
    case Scheduling(c, foreground, status, priority) =>
      var slot := FirstEmpty(s.table);
      if slot == MAX_PROCESSES then s
      else
        var made := s.table[slot := Some(Proc(s.nextPID, s.table[c].value.pid, priority, status, 0, -1))];
        System(if foreground then made[c := Some(Resting(made[c].value))] else made, s.nextPID + 1)
  }

  /** Priorities are at most SKY_HIGH, families are in order, and the next pid is new. */
  ghost predicate Good(s: System) {
    && PrioritiesOk(s.table) && KinOk(KinOf(s.table))
    && forall i :: 0 <= i < MAX_PROCESSES && s.table[i].Some? ==> s.table[i].value.pid < s.nextPID
  }

  /** The call is legal, and does not stop the process in slot t from waiting. */
  ghost predicate Harmless(s: System, a: Action, t: nat, least: int)
    requires t < MAX_PROCESSES && s.table[t].Some?
  {
    match a
    case SettingStatus(pid, status) => s.table[t].value.pid != pid || status == Ready || status == Running
    case SettingPriority(pid, priority) => priority <= SKY_HIGH && (s.table[t].value.pid != pid || priority >= least)
    case Killing(pid) => !Killable(KinOf(s.table), pid) || !Under(KinOf(s.table), s.table[t].value.pid, pid)
    case Scheduling(c, foreground, status, priority) =>
      c < MAX_PROCESSES && s.table[c].Some? && priority <= SKY_HIGH && (foreground ==> c != t)
  }

  lemma ActionBetween(s: System, a: Action, t: nat, least: int)
    requires Good(s) && Waits(s.table, t, least) && 1 <= least && Harmless(s, a, t, least)
    ensures Between(s.table, Acted(s, a).table, t, least) && Good(Acted(s, a))
  {
    hide Between, Waits, PrioritiesOk, KinOk, KillTable, WithStatus, WithPriority, FirstEmpty;
    match a
    case SettingStatus(pid, status) =>
      SetStatusBetween(s.table, pid, status, t, least);
      StatusKeepsKin(s, pid, status);
    case SettingPriority(pid, priority) =>
      SetPriorityBetween(s.table, pid, priority, t, least);
      PriorityKeepsKin(s, pid, priority);
    case Killing(pid) =>
      KillBetween(s.table, pid, t, least);
      KillKeepsKin(s, pid);
    case Scheduling(c, foreground, status, priority) =>
      ScheduleBetween(s, a, t, least);
  }

  lemma ScheduleBetween(s: System, a: Action, t: nat, least: int)
    requires Good(s) && Waits(s.table, t, least) && Harmless(s, a, t, least) && a.Scheduling?
    ensures Between(s.table, Acted(s, a).table, t, least) && Good(Acted(s, a))
  {
    hide Between, Waits, PrioritiesOk, KinOk, FirstEmpty;
    var slot, c := FirstEmpty(s.table), a.creator;
    if slot == MAX_PROCESSES {
      NothingBetween(s.table, t, least);
    } else {
      var p := Proc(s.nextPID, s.table[c].value.pid, a.priority, a.status, 0, -1);
      var made := s.table[slot := Some(p)];
      KinCreate(s.table, slot, p);
      if a.foreground {
        ForegroundBetween(s.table, slot, p, c, t, least);
        KinUpdate(made, c, Resting(made[c].value));
      } else {
        CreateBetween(s.table, slot, p, t, least);
      }
    }
  }

  lemma SameKin(s: Table, e: Table, next: nat)
    requires KinOf(e) == KinOf(s) && forall i :: 0 <= i < MAX_PROCESSES && s[i].Some? ==> s[i].value.pid < next
    ensures forall i :: 0 <= i < MAX_PROCESSES && e[i].Some? ==> e[i].value.pid < next
  {
    forall i | 0 <= i < MAX_PROCESSES && e[i].Some? ensures e[i].value.pid < next {
      assert KinOf(e)[i] == KinOf(s)[i];
    }
  }

  lemma StatusKeepsKin(s: System, pid: nat, status: Status)
    requires Good(s)
    ensures var e := WithStatus(s.table, pid, status);
            KinOk(KinOf(e)) && forall i :: 0 <= i < MAX_PROCESSES && e[i].Some? ==> e[i].value.pid < s.nextPID
  {
    hide KinOk, PrioritiesOk, KinOf;
    var slot := SlotFrom(KinOf(s.table), pid, 0);
    if slot != -1 {
      SlotTaken(s.table, slot);
      KinUpdate(s.table, slot, s.table[slot].value.(status := status, waitingFlags := -1));
    }
    SameKin(s.table, WithStatus(s.table, pid, status), s.nextPID);
  }

  lemma SlotTaken(t: Table, slot: nat)
    requires slot < MAX_PROCESSES && KinOf(t)[slot].Some?
    ensures t[slot].Some?
  {
  }

  lemma PriorityKeepsKin(s: System, pid: nat, priority: int)
    requires Good(s)
    ensures var e := WithPriority(s.table, pid, priority);
            KinOk(KinOf(e)) && forall i :: 0 <= i < MAX_PROCESSES && e[i].Some? ==> e[i].value.pid < s.nextPID
  {
    hide KinOk, PrioritiesOk, KinOf;
    var slot := SlotFrom(KinOf(s.table), pid, 0);
    if slot != -1 {
      SlotTaken(s.table, slot);
      KinUpdate(s.table, slot, s.table[slot].value.(priority := priority));
    }
    SameKin(s.table, WithPriority(s.table, pid, priority), s.nextPID);
  }

  lemma KillKeepsKin(s: System, pid: nat)
    requires Good(s)
    ensures var e := KillTable(s.table, pid);
            KinOk(KinOf(e)) && forall i :: 0 <= i < MAX_PROCESSES && e[i].Some? ==> e[i].value.pid < s.nextPID
  {
    hide KinOk, PrioritiesOk;
    var e := KillTable(s.table, pid);
    forall i | 0 <= i < MAX_PROCESSES ensures KinOf(e)[i] == KinOf(s.table)[i] {
      KilledKin(KinOf(s.table), pid, s.table[i]);
    }
    assert KinOf(e) == KinOf(s.table);
    SameKin(s.table, e, s.nextPID);
  }

  lemma KilledKin(k: Kin, pid: nat, s: Option<Proc>)
    ensures var e := AfterKill(k, pid, s);
            e.Some? == s.Some? && (s.Some? ==> e.value.pid == s.value.pid && e.value.parent == s.value.parent)
  {
    hide Under, Killable;
  }

  // ---- Sequences of calls ----------------------------------------------------

  ghost predicate AllHarmless(s: System, calls: seq<Action>, t: nat, least: int)
    requires Good(s) && Waits(s.table, t, least) && 1 <= least
    decreases |calls|
  {
    calls == [] ||
    (Harmless(s, calls[0], t, least) &&
     (ActionBetween(s, calls[0], t, least); AllHarmless(Acted(s, calls[0]), calls[1..], t, least)))
  }

  ghost function ActedAll(s: System, calls: seq<Action>, t: nat, least: int): System
    requires Good(s) && Waits(s.table, t, least) && 1 <= least && AllHarmless(s, calls, t, least)
    decreases |calls|
  {
    if calls == [] then s
    else
      ActionBetween(s, calls[0], t, least);
      ActedAll(Acted(s, calls[0]), calls[1..], t, least)
  }

  lemma {:induction false} ActionsBetween(s: System, calls: seq<Action>, t: nat, least: int)
    requires Good(s) && Waits(s.table, t, least) && 1 <= least && AllHarmless(s, calls, t, least)
    ensures var e := ActedAll(s, calls, t, least); Between(s.table, e.table, t, least) && Good(e)
    decreases |calls|
  {
    hide Good, Waits, Between, Acted, PrioritiesOk;
    if calls == [] {
      StaysBetween(s, t, least);
    } else {
      ActionBetween(s, calls[0], t, least);
      BetweenWaits(s.table, Acted(s, calls[0]).table, t, least);
      ActionsBetween(Acted(s, calls[0]), calls[1..], t, least);
      BetweenTransitive(s.table, Acted(s, calls[0]).table, ActedAll(s, calls, t, least).table, t, least);
    }
  }

  lemma StaysBetween(s: System, t: nat, least: int)
    requires Good(s) && Waits(s.table, t, least)
    ensures Between(s.table, s.table, t, least)
  {
    NothingBetween(s.table, t, least);
  }

  lemma BetweenWaits(s: Table, e: Table, t: nat, least: int)
    requires Between(s, e, t, least)
    ensures Waits(s, t, least) && Waits(e, t, least)
  {
  }

  /** A system in which the process in slot t waits. */
  ghost predicate Alive(s: System, t: nat, least: int) {
    Good(s) && Waits(s.table, t, least)
  }

  /** Every round of calls is harmless; each is followed by a decision. */
  ghost predicate AllRounds(s: System, rounds: seq<seq<Action>>, t: nat, least: int, withPriority: bool)
    requires Alive(s, t, least) && 1 <= least
    decreases |rounds|
  {
    rounds == [] ||
    (AllHarmless(s, rounds[0], t, least) &&
     (RoundKeeps(s, rounds[0], t, least, withPriority);
      AllRounds(Round(s, rounds[0], t, least, withPriority), rounds[1..], t, least, withPriority)))
  }

  ghost function Round(s: System, calls: seq<Action>, t: nat, least: int, withPriority: bool): System
    requires Alive(s, t, least) && 1 <= least && AllHarmless(s, calls, t, least)
  {
    var e := ActedAll(s, calls, t, least);
    e.(table := Decided(e.table, withPriority))
  }

  lemma RoundKeeps(s: System, calls: seq<Action>, t: nat, least: int, withPriority: bool)
    requires Alive(s, t, least) && 1 <= least && AllHarmless(s, calls, t, least)
    ensures Alive(Round(s, calls, t, least, withPriority), t, least)
    ensures Between(s.table, ActedAll(s, calls, t, least).table, t, least)
  {
    hide Between, Waits, KinOk, PrioritiesOk, AllHarmless, ActedAll, Decided;
    var e := ActedAll(s, calls, t, least);
    ActionsBetween(s, calls, t, least);
    BetweenWaits(s.table, e.table, t, least);
    DecidedKeepsWaiting(e.table, t, least, withPriority);
    DecidedKeepsPriorities(e.table, withPriority);
    KinDecided(e.table, withPriority);
    DecidedPids(e.table, e.nextPID, withPriority);
  }

  lemma DecidedPids(s: Table, next: nat, withPriority: bool)
    requires forall i :: 0 <= i < MAX_PROCESSES && s[i].Some? ==> s[i].value.pid < next
    ensures var e := Decided(s, withPriority); forall i :: 0 <= i < MAX_PROCESSES && e[i].Some? ==> e[i].value.pid < next
  {
    hide Chosen;
  }

  /** The tables before the decisions, and the tables they leave. */
  ghost function Tables(s: System, rounds: seq<seq<Action>>, t: nat, least: int, withPriority: bool): (r: (seq<Table>, seq<Table>))
    requires Alive(s, t, least) && 1 <= least && AllRounds(s, rounds, t, least, withPriority)
    ensures |r.0| == |rounds| + 1 && |r.1| == |rounds| && r.0[0] == s.table
    decreases |rounds|
  {
    if rounds == [] then ([s.table], [])
    else
      RoundKeeps(s, rounds[0], t, least, withPriority);
      var rest := Tables(Round(s, rounds[0], t, least, withPriority), rounds[1..], t, least, withPriority);
      ([s.table] + rest.0, [ActedAll(s, rounds[0], t, least).table] + rest.1)
  }

  lemma {:induction false} TablesAreRun(s: System, rounds: seq<seq<Action>>, t: nat, least: int, withPriority: bool)
    requires Alive(s, t, least) && 1 <= least && AllRounds(s, rounds, t, least, withPriority)
    ensures var r := Tables(s, rounds, t, least, withPriority); IsRun(r.0, r.1, t, least, withPriority)
    decreases |rounds|
  {
    hide Good, Waits, Between, AllHarmless, ActedAll, Decided;
    if rounds != [] {
      RoundKeeps(s, rounds[0], t, least, withPriority);
      var next := Round(s, rounds[0], t, least, withPriority);
      TablesAreRun(next, rounds[1..], t, least, withPriority);
      var r, rest := Tables(s, rounds, t, least, withPriority), Tables(next, rounds[1..], t, least, withPriority);
      assert r == ([s.table] + rest.0, [ActedAll(s, rounds[0], t, least).table] + rest.1);
      forall k | 0 <= k < |r.1|
        ensures Between(r.0[k], r.1[k], t, least) && r.0[k + 1] == Decided(r.1[k], withPriority)
      {
        assert k > 0 ==> r.0[k] == rest.0[k - 1] && r.1[k] == rest.1[k - 1] && r.0[k + 1] == rest.0[k];
      }
    }
  }

  /**
    No starvation by the scheduler's own calls: whatever statuses and priorities are set, processes
    killed, or created in the foreground or not, as long as none of the calls stops the process in
    slot t from waiting, one of the first 43 - 2 * least decisions chooses it, or 31 without priorities.
   */
  lemma NoStarvationByCalls(s: System, rounds: seq<seq<Action>>, t: nat, least: int, withPriority: bool)
    requires 1 <= t < MAX_PROCESSES && 1 <= least <= SKY_HIGH && Alive(s, t, least) && s.table[t].value.lastCalled >= 0
    requires AllRounds(s, rounds, t, least, withPriority)
    requires |rounds| >= if withPriority then 43 - 2 * least else 31
    ensures var seen := Tables(s, rounds, t, least, withPriority).1;
            exists k :: 0 <= k < (if withPriority then 43 - 2 * least else 31) && Chosen(seen[k], withPriority) == t
  {
    hide AllRounds, Tables, IsRun, Good, Chosen;
    TablesAreRun(s, rounds, t, least, withPriority);
    var r := Tables(s, rounds, t, least, withPriority);
    NoStarvation(r.0, r.1, t, least, withPriority);
  }
}
