/** The scheduler: the table of process objects, the next-process decision, and kill. */
module Scheduler {
  import opened Options
  import opened Processes
  import opened KillTree

  class Process {
    var pid: nat
    var parent: nat
    var priority: int
    var status: Status
    var lastCalled: int
    var waitingFlags: int

    ghost function Value(): Proc
      reads this
    {
      Proc(pid, parent, priority, status, lastCalled, waitingFlags)
    }

    /** The fields process_initialize sets for scheduling. */
    constructor (pid: nat, parent: nat, priority: int, status: Status)
      ensures Value() == Proc(pid, parent, priority, status, 0, -1)
    {
      this.pid := pid;
      this.parent := parent;
      this.priority := priority;
      this.status := status;
      this.lastCalled := 0;
      this.waitingFlags := -1;
    }
  }

  class Scheduler {
    const allProcess: array<Process?>
    var current: Process?
    var nextPID: nat
    var usePriority: bool

    ghost function Objects(): set<object>
      reads allProcess
    {
      set i: nat | i < allProcess.Length && allProcess[i] != null :: allProcess[i]
    }

    ghost function SlotValue(i: nat): Option<Proc>
      requires i < allProcess.Length
      reads allProcess, Objects()
    {
      if allProcess[i] == null then None else Some(allProcess[i].Value())
    }

    /** The process table as a value. */
    ghost function Table(): (t: Table)
      requires allProcess.Length == MAX_PROCESSES
      reads allProcess, Objects()
      ensures forall i :: 0 <= i < MAX_PROCESSES ==> t[i] == SlotValue(i)
    {
      seq(MAX_PROCESSES, i requires 0 <= i < MAX_PROCESSES reads allProcess, Objects() => SlotValue(i))
    }

    ghost predicate Valid()
      reads this, allProcess, Objects()
    {
      && allProcess.Length == MAX_PROCESSES
      && (forall i, j :: 0 <= i < MAX_PROCESSES && 0 <= j < MAX_PROCESSES && allProcess[i] != null && allProcess[i] == allProcess[j] ==>
            i == j)
      && allProcess[0] != null
      && KinOk(KinOf(Table()))
      && forall i :: 0 <= i < MAX_PROCESSES && allProcess[i] != null ==> allProcess[i].pid < nextPID
    }

    /** scheduler_init: the idle process, pid 0, in slot 0. */
    constructor (withPriority: bool)
      ensures Valid() && usePriority == withPriority && current == null && fresh(Objects()) && fresh(allProcess)
      ensures forall i :: 0 <= i < MAX_PROCESSES ==> Table()[i] == if i == 0 then Some(Proc(0, 0, 1, Ready, 0, -1)) else None
    {
      allProcess := new Process?[MAX_PROCESSES](_ => null);
      current := null;
      usePriority := withPriority;
      nextPID := 1;
      new;
      var idle := new Process(0, 0, 1, Ready);
      allProcess[0] := idle;
    }

    /** The body of _nextTask's sweep: drops a finalized process, ages a runnable one and scores it. */
    method Examine(i: nat) returns (runnable: bool, temp: int)
      requires Valid() && 1 <= i < MAX_PROCESSES
      modifies allProcess, Objects()
      ensures forall j :: 0 <= j < MAX_PROCESSES && j != i ==> allProcess[j] == old(allProcess[j])
      ensures allProcess[i] == null || allProcess[i] == old(allProcess[i])
      ensures Valid() && Objects() <= old(Objects())
      ensures Table() == old(Table())[i := AgedSlot(old(Table())[i])]
      ensures old(Table())[i].Some? && old(Table())[i].value.status == Finalized ==> Table()[i].None? && allProcess[i] == null
      ensures runnable == Eligible(Table()[i]) && (runnable ==> allProcess[i] != null)
      ensures runnable ==> temp == Score(Table()[i].value, usePriority)
    {
      KinAged(Table(), Table()[i := AgedSlot(Table()[i])], i);
      var process := allProcess[i];
      if process == null {
        return false, 0;
      }
      if process.status == Finalized {
        ghost var t := Table();
        allProcess[i] := null;
        assert Table() == t[i := None];
        return false, 0;
      }
      if process.status != Blocked && process.priority != 0 {
        ghost var t := Table();
        process.lastCalled := process.lastCalled + 1;
        assert Table() == t[i := AgedSlot(t[i])];
        if usePriority {
          return true, process.priority * 2 + process.lastCalled;
        } else {
          return true, process.lastCalled;
        }
      }
      return false, 0;
    }

    /** _nextTask: ages the runnable processes, drops the finalized ones, picks the best score. */
    method NextTask() returns (next: Process)
      requires Valid()
      modifies allProcess, Objects()
      ensures Valid() && Objects() <= old(Objects())
      ensures forall i :: 0 <= i < MAX_PROCESSES ==> allProcess[i] == null || allProcess[i] == old(allProcess[i])
      ensures Table() == AgedBelow(old(Table()), MAX_PROCESSES)
      ensures forall i :: 1 <= i < MAX_PROCESSES && old(Table())[i].Some? ==>
        if old(Table())[i].value.status == Finalized then Table()[i].None?
        else if old(Table())[i].value.status == Blocked || old(Table())[i].value.priority == 0 then Table()[i] == old(Table())[i]
        else Table()[i] == Some(old(Table())[i].value.(lastCalled := old(Table())[i].value.lastCalled + 1))
      ensures next == allProcess[Chosen(old(Table()), usePriority)]
    {
      hide Table, SlotValue, KinOk, KinOf, Score, AgedSlot;
      ghost var t := Table();
      ghost var aged := AgedBelow(t, MAX_PROCESSES);
      var nextReady: Process? := null;
      var bestScore := 0;
      for i := 1 to MAX_PROCESSES
        invariant Valid() && Objects() <= old(Objects()) && Table() == AgedBelow(t, i)
        invariant forall j :: 0 <= j < MAX_PROCESSES ==> allProcess[j] == old(allProcess[j]) || (allProcess[j] == null && 1 <= j < i)
        invariant (nextReady == null) == (Best(aged, i, usePriority) == 0)
        invariant nextReady != null ==> nextReady == allProcess[Best(aged, i, usePriority)]
        invariant bestScore == BestScore(aged, Best(aged, i, usePriority), usePriority)
      {
        ghost var before := Table();
        var runnable, temp := Examine(i);
        assert Table() == AgedBelow(t, i + 1);
        assert Table()[i] == aged[i];
        ghost var best := Best(aged, i, usePriority);
        assert Best(aged, i + 1, usePriority) ==
          if Eligible(aged[i]) && Score(aged[i].value, usePriority) > BestScore(aged, best, usePriority) then i else best;
        if runnable && temp > bestScore {
          bestScore := temp;
          nextReady := allProcess[i];
        }
      }
      assert AgedBelow(t, MAX_PROCESSES) == aged;
      SweptSlots(t);
      if nextReady == null {
        next := allProcess[0];
      } else {
        next := nextReady;
      }
    }

    /**
      getNextProcess: the chosen process runs and its age is reset. Finalized processes leave the table,
      other runnable ones have waited one decision more, and blocked ones are left alone.
     */
    method GetNextProcess() returns (next: Process)
      requires Valid()
      modifies this, allProcess, Objects()
      ensures Valid() && next == current == allProcess[Chosen(old(Table()), usePriority)]
      ensures usePriority == old(usePriority) && nextPID == old(nextPID)
      ensures Table() == Decided(old(Table()), usePriority)
      ensures forall i :: 1 <= i < MAX_PROCESSES && (old(Table())[i].None? || old(Table())[i].value.status == Finalized) ==>
        Table()[i].None?
      ensures forall i | 1 <= i < MAX_PROCESSES && old(Table())[i].Some? && old(Table())[i].value.status != Finalized
                         && (old(Table())[i].value.status == Blocked || old(Table())[i].value.priority == 0) ::
                Table()[i] == old(Table())[i] && allProcess[i] != next
      ensures forall i | 1 <= i < MAX_PROCESSES && old(Table())[i].Some? && old(Table())[i].value.priority != 0
                         && (old(Table())[i].value.status == Ready || old(Table())[i].value.status == Running) ::
                Table()[i] == Some(if allProcess[i] == next then old(Table())[i].value.(status := Running, lastCalled := 0)
                                      else old(Table())[i].value.(lastCalled := old(Table())[i].value.lastCalled + 1))
      ensures old(Table())[0].Some? &&
        Table()[0] == if allProcess[0] == next then Some(old(Table())[0].value.(status := Running, lastCalled := 0)) else old(Table())[0]
    {
      hide KinOk, Best;
      ghost var t := Table();
      next := NextTask();
      ghost var slot := Chosen(t, usePriority);
      ghost var aged := Table();
      next.status := Running;
      next.lastCalled := 0;
      current := next;
      assert Table() == aged[slot := Started(aged[slot])] == Decided(t, usePriority);
      KinDecided(t, usePriority);
      DecidedSlots(t, usePriority);
      hide Decided, Chosen;
      assert t[0] == old(SlotValue(0));
      assert forall i :: 0 <= i < MAX_PROCESSES ==> (allProcess[i] == next <==> i == slot);
    }

    /** A decision makes room: a process can be created after it if some process was finalized before. */
    method DecideThenCreate(status: Status, priority: int) returns (created: bool)
      requires Valid() && exists i :: 1 <= i < MAX_PROCESSES && Table()[i].Some? && Table()[i].value.status == Finalized
      modifies this, allProcess, Objects()
      ensures Valid() && created
    {
      ghost var t := Table();
      ghost var i :| 1 <= i < MAX_PROCESSES && t[i].Some? && t[i].value.status == Finalized;
      hide Decided, Chosen, KinOk, KinOf;
      var _ := GetNextProcess();
      assert Table()[i].None?;
      ghost var slot;
      created, slot := Create(status, priority);
    }

    /** scheduler_setStatus. */
    method SetStatus(pid: nat, status: Status)
      requires Valid()
      modifies Objects()
      ensures Valid() && Table() == WithStatus(old(Table()), pid, status)
      ensures forall i | 0 <= i < MAX_PROCESSES && old(Table())[i].Some? && old(Table())[i].value.pid == pid ::
                Table()[i] == Some(old(Table())[i].value.(status := status, waitingFlags := -1))
      ensures forall i | 0 <= i < MAX_PROCESSES && (old(Table())[i].None? || old(Table())[i].value.pid != pid) ::
                Table()[i] == old(Table())[i]
    {
      ghost var t := Table();
      StatusSlots(t, pid, status);
      for i := 0 to MAX_PROCESSES
        invariant forall j :: 0 <= j < i ==> t[j].None? || t[j].value.pid != pid
        invariant Valid() && Table() == t
      {
        if allProcess[i] != null && allProcess[i].pid == pid {
          ScanFinds(t, pid, i);
          KinUpdate(t, i, t[i].value.(status := status, waitingFlags := -1));
          allProcess[i].status := status;
          allProcess[i].waitingFlags := -1;
          assert Table() == t[i := Some(t[i].value.(status := status, waitingFlags := -1))];
          return;
        }
      }
      ScanFails(t, pid);
    }

    /** setPriority: 0 on success, -1 for an unknown pid or for taking the idle process's priority away. */
    method SetPriority(pid: nat, newPriority: int) returns (result: int)
      requires Valid()
      modifies Objects()
      ensures Valid() && Table() == WithPriority(old(Table()), pid, newPriority)
      ensures result == 0 || result == -1
      ensures result == 0 <==>
        (exists i :: 0 <= i < MAX_PROCESSES && old(Table())[i].Some? && old(Table())[i].value.pid == pid) && !(pid == 0 && newPriority == 0)
      ensures result == -1 ==> Table() == old(Table())
      ensures result == 0 ==> forall i :: 0 <= i < MAX_PROCESSES ==>
        Table()[i] == if old(Table())[i].Some? && old(Table())[i].value.pid == pid
                      then Some(old(Table())[i].value.(priority := newPriority)) else old(Table())[i]
    {
      ghost var t := Table();
      PrioritySlots(t, pid, newPriority);
      var p := GetProcess(pid);
      if p == null || (p.pid == 0 && newPriority == 0) {
        return -1;
      }
      ghost var slot := SlotFrom(KinOf(t), pid, 0);
      KinUpdate(t, slot, t[slot].value.(priority := newPriority));
      p.priority := newPriority;
      assert Table() == t[slot := Some(t[slot].value.(priority := newPriority))];
      return 0;
    }

    /** scheduler_getProcess. */
    method GetProcess(pid: nat) returns (p: Process?)
      requires Valid()
      ensures p == null <==> SlotFrom(KinOf(Table()), pid, 0) == -1
      ensures p != null ==> p == allProcess[SlotFrom(KinOf(Table()), pid, 0)]
      ensures p != null ==> p.pid == pid && exists i :: 0 <= i < MAX_PROCESSES && allProcess[i] == p
      ensures p == null ==> forall i :: 0 <= i < MAX_PROCESSES && allProcess[i] != null ==> allProcess[i].pid != pid
    {
      for i := 0 to MAX_PROCESSES
        invariant forall j :: 0 <= j < i ==> Table()[j].None? || Table()[j].value.pid != pid
        invariant forall j :: 0 <= j < i && allProcess[j] != null ==> allProcess[j].pid != pid
      {
        if allProcess[i] != null && allProcess[i].pid == pid {
          ScanFinds(Table(), pid, i);
          return allProcess[i];
        }
      }
      ScanFails(Table(), pid);
      return null;
    }

    /** kill: the process and everything under it is finalized, its parent is ready. */
    method Kill(pid: nat)
      requires Valid()
      modifies Objects()
      ensures Valid() && Table() == KillTable(old(Table()), pid)
      ensures KilledFamily(old(Table()), Table(), pid)
      decreases if pid < nextPID then nextPID - pid else 0, 2
    {
      KillSlots(Table(), pid);
      hide KillTable, KinOk, KinOf;
      ghost var t := Table();
      ghost var slot := SlotFrom(KinOf(t), pid, 0);
      OnlySlot(t, pid);
      KillableAt(t, pid);
      KillKeepsPids(t, pid);
      for i := 0 to MAX_PROCESSES
        invariant Valid() && Table() == if 0 <= slot < i then KillTable(t, pid) else t
      {
        if allProcess[i] != null && allProcess[i].pid == pid {
          assert SlotValue(i) == Table()[i] && t[i].Some? && t[i].value.pid == pid;
          assert i == slot && Table() == t;
          if allProcess[i].parent == 0 {
            NotKillable(t, pid);
            return;
          }
          KillFamily(i, pid);
        }
      }
      if slot == -1 {
        NotKillable(t, pid);
      }
    }

    /** What kill does once it has found the process. */
    method KillFamily(i: nat, pid: nat)
      requires Valid() && i < MAX_PROCESSES && allProcess[i] != null
      requires allProcess[i].pid == pid && pid < nextPID && allProcess[i].parent != 0
      modifies Objects()
      ensures Valid() && Table() == KillTable(old(Table()), pid)
      decreases nextPID - pid, 1
    {
      hide KillTable, KinOf, ChildrenTable;
      ghost var t := Table();
      KillableAt(t, pid);
      OnlySlot(t, pid);
      assert t[i] == SlotValue(i);
      KillComposed(t, pid, i);
      KillChildren(pid);
      assert Table()[i] == SlotValue(i);
      SetStatus(allProcess[i].parent, Ready);
      Finalize(allProcess[i], i);
    }

    method Finalize(p: Process, ghost i: nat)
      requires Valid() && i < MAX_PROCESSES && allProcess[i] == p
      modifies p
      ensures Valid() && Table()[i].Some?
      ensures Table() == old(Table())[i := Some(old(Table())[i].value.(status := Finalized))]
    {
      ghost var t := Table();
      KinUpdate(t, i, t[i].value.(status := Finalized));
      p.status := Finalized;
      assert Table() == t[i := Some(t[i].value.(status := Finalized))];
    }

    /** killChildren. */
    method KillChildren(pid: nat)
      requires Valid() && pid != 0 && pid < nextPID
      modifies Objects()
      ensures Valid() && Table() == ChildrenTable(old(Table()), pid, MAX_PROCESSES)
      decreases nextPID - pid, 0
    {
      ghost var t := Table();
      ChildrenNone(t, pid);
      for i := 0 to MAX_PROCESSES
        invariant Valid() && Table() == ChildrenTable(t, pid, i)
      {
        KinKept(t, pid, i);
        if allProcess[i] != null && allProcess[i].parent == pid {
          ChildrenKill(t, pid, i);
          Kill(allProcess[i].pid);
        } else {
          ChildrenSkip(t, pid, i);
        }
      }
    }

    /** The first empty slot gets a new process, whose parent is the running one. */
    method Create(status: Status, priority: int) returns (created: bool, ghost slot: nat)
      requires Valid() && (current == null || current.pid < nextPID)
      modifies this`nextPID, allProcess
      ensures Valid()
      ensures forall j :: 0 <= j < MAX_PROCESSES ==> allProcess[j] == old(allProcess[j]) || (created && j == slot)
      ensures !created ==> nextPID == old(nextPID) && Table() == old(Table())
      ensures !created ==> forall j :: 0 <= j < MAX_PROCESSES ==> Table()[j].Some?
      ensures created ==> slot < MAX_PROCESSES && old(allProcess[slot]) == null && old(Table())[slot].None?
      ensures created ==> forall j :: 0 <= j < slot ==> old(Table())[j].Some?
      ensures created ==> nextPID == old(nextPID) + 1
      ensures created ==>
        Table() == old(Table())[slot := Some(Proc(old(nextPID), if current == null then 0 else current.pid, priority, status, 0, -1))]
    {
      hide KinOf, KinOk;
      ghost var t := Table();
      var i := 0;
      while i < MAX_PROCESSES && allProcess[i] != null
        invariant 0 <= i <= MAX_PROCESSES
        invariant forall j :: 0 <= j < i ==> allProcess[j] != null
        decreases MAX_PROCESSES - i
      {
        i := i + 1;
      }
      assert forall j :: 0 <= j < MAX_PROCESSES ==> t[j] == SlotValue(j);
      if i == MAX_PROCESSES {
        return false, 0;
      }
      created, slot := true, i;
      var parent := if current == null then 0 else current.pid;
      KinCreate(t, i, Proc(nextPID, parent, priority, status, 0, -1));
      var newProcess := new Process(nextPID, parent, priority, status);
      nextPID := nextPID + 1;
      allProcess[i] := newProcess;
      assert Table() == t[i := Some(newProcess.Value())];
    }

    /** scheduler_schedule: a new process; a foreground one blocks its creator, the process in slot c. */
    method Schedule(foreground: bool, status: Status, priority: int, ghost c: nat) returns (created: bool, ghost slot: nat)
      requires Valid() && (current != null ==> c < MAX_PROCESSES && allProcess[c] == current)
      modifies this`nextPID, allProcess, Objects()
      ensures Valid()
      ensures !created ==> nextPID == old(nextPID) && Table() == old(Table())
      ensures !created ==> forall j :: 0 <= j < MAX_PROCESSES ==> Table()[j].Some?
      ensures created ==> slot < MAX_PROCESSES && old(Table())[slot].None?
      ensures created ==> forall j :: 0 <= j < slot ==> old(Table())[j].Some?
      ensures created ==> nextPID == old(nextPID) + 1
      ensures created ==>
        var made := old(Table())[slot :=
          Some(Proc(old(nextPID), if current == null then 0 else current.pid, priority, status, 0, -1))];
        Table() ==
          if foreground && current != null
          then made[c := Some(old(current.Value()).(lastCalled := 0, status := Blocked, waitingFlags := W_CHILD))]
          else made
    {
      hide KinOf, KinOk;
      created, slot := Create(status, priority);
      if created && foreground && current != null {
        ghost var made := Table();
        assert made[c] == SlotValue(c);
        KinUpdate(made, c, current.Value().(lastCalled := 0, status := Blocked, waitingFlags := W_CHILD));
        current.lastCalled := 0;
        BlockCurrent(W_CHILD);
        assert Table() == made[c := Some(made[c].value.(lastCalled := 0, status := Blocked, waitingFlags := W_CHILD))];
      }
    }

    /** scheduler_blockCurrent, without the switch that follows. */
    method BlockCurrent(waitFlag: int)
      requires current != null
      modifies current`status, current`waitingFlags
      ensures current.status == Blocked && current.waitingFlags == waitFlag
    {
      current.status := Blocked;
      current.waitingFlags := waitFlag;
    }

    /** clean: what a process does when its function returns, before the switch. */
    method Clean(ghost c: nat)
      requires Valid() && current != null && c < MAX_PROCESSES && allProcess[c] == current
      modifies Objects()
      ensures Valid()
      ensures Table() == WithStatus(old(Table())[c := Some(old(current.Value()).(status := Finalized))], old(current.parent), Ready)
      ensures old(current.parent) != old(current.pid) ==> Table()[c] == Some(old(current.Value()).(status := Finalized))
      ensures forall i | 0 <= i < MAX_PROCESSES && i != c ::
                Table()[i] == if old(Table())[i].Some? && old(Table())[i].value.pid == old(current.parent)
                              then Some(old(Table())[i].value.(status := Ready, waitingFlags := -1)) else old(Table())[i]
    {
      assert Table()[c] == Some(current.Value());
      Finalize(current, c);
      SetStatus(current.parent, Ready);
    }
  }
}
