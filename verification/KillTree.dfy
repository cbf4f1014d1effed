/** What killing a process does to the process table: its whole family below it is finalized. */
module KillTree {
  import opened Options
  import opened Processes

  /** Who is whose child: pid and parent of each slot. */
  type Kin = seq<Option<(nat, nat)>>

  function KinOf(t: Table): (k: Kin)
    ensures |k| == MAX_PROCESSES
  {
    seq(MAX_PROCESSES, i requires 0 <= i < MAX_PROCESSES =>
      if t[i].None? then None else Some((t[i].value.pid, t[i].value.parent)))
  }

  /** Pids are unique, and a parent was created before its children. */
  ghost predicate KinOk(k: Kin) {
    && (forall i, j :: 0 <= i < |k| && 0 <= j < |k| && k[i].Some? && k[j].Some? && k[i].value.0 == k[j].value.0 ==> i == j)
    && (forall i :: 0 <= i < |k| && k[i].Some? ==>
          k[i].value.1 < k[i].value.0 || (k[i].value.0 == 0 && k[i].value.1 == 0))
  }

  /** The first slot from i on that holds pid, or -1: the scan of scheduler_getProcess. */
  function SlotFrom(k: Kin, pid: nat, i: nat): (slot: int)
    requires i <= |k|
    ensures slot == -1 || (i <= slot < |k| && k[slot].Some? && k[slot].value.0 == pid)
    ensures slot == -1 ==> forall j :: i <= j < |k| && k[j].Some? ==> k[j].value.0 != pid
    ensures forall j :: i <= j < slot && k[j].Some? ==> k[j].value.0 != pid
    decreases |k| - i
  {
    if i == |k| then -1
    else if k[i].Some? && k[i].value.0 == pid then i
    else SlotFrom(k, pid, i + 1)
  }

  /** pid is root, or its chain of parents leads through the table to root. */
  ghost predicate Under(k: Kin, pid: nat, root: nat)
    decreases pid
  {
    || pid == root
    || (var slot := SlotFrom(k, pid, 0);
        slot != -1 && k[slot].value.1 < pid && Under(k, k[slot].value.1, root))
  }

  ghost predicate ChildAt(k: Kin, i: nat, pid: nat) {
    i < |k| && k[i].Some? && k[i].value.1 == pid
  }

  /** Some slot below n holds a child of pid, and q is under that child. */
  ghost predicate UnderChildBelow(k: Kin, q: nat, pid: nat, n: nat)
    requires n <= |k|
  {
    exists c :: 0 <= c < n && ChildAt(k, c, pid) && Under(k, q, k[c].value.0)
  }

  ghost predicate HasChildBelow(k: Kin, pid: nat, n: nat)
    requires n <= |k|
  {
    exists c :: 0 <= c < n && ChildAt(k, c, pid)
  }

  /** A finalized process keeps its waiting flags unless one of its own children was killed before it. */
  ghost function Killed(k: Kin, p: Proc): Proc {
    p.(status := Finalized, waitingFlags := if HasChildBelow(k, p.pid, |k|) then -1 else p.waitingFlags)
  }

  function Woken(p: Proc): Proc {
    p.(status := Ready, waitingFlags := -1)
  }

  /** A slot after killChildren(pid) has looked at the slots below n. */
  ghost function AfterChildren(k: Kin, pid: nat, n: nat, s: Option<Proc>): Option<Proc>
    requires n <= |k|
  {
    if s.None? then s
    else if UnderChildBelow(k, s.value.pid, pid, n) then Some(Killed(k, s.value))
    else if s.value.pid == pid && HasChildBelow(k, pid, n) then Some(Woken(s.value))
    else s
  }

  /** kill refuses processes without a parent other than the idle process, and ignores unknown pids. */
  predicate Killable(k: Kin, pid: nat) {
    var slot := SlotFrom(k, pid, 0);
    slot != -1 && k[slot].value.1 != 0
  }

  /** A slot after kill(pid): its family is finalized, its parent is ready, the others are untouched. */
  ghost function AfterKill(k: Kin, pid: nat, s: Option<Proc>): Option<Proc> {
    if s.None? || !Killable(k, pid) then s
    else if Under(k, s.value.pid, pid) then Some(Killed(k, s.value))
    else if s.value.pid == k[SlotFrom(k, pid, 0)].value.1 then Some(Woken(s.value))
    else s
  }

  ghost function KillTable(t: Table, pid: nat): Table {
    seq(MAX_PROCESSES, i requires 0 <= i < MAX_PROCESSES => AfterKill(KinOf(t), pid, t[i]))
  }

  ghost function ChildrenTable(t: Table, pid: nat, n: nat): Table
    requires n <= MAX_PROCESSES
  {
    seq(MAX_PROCESSES, i requires 0 <= i < MAX_PROCESSES => AfterChildren(KinOf(t), pid, n, t[i]))
  }

  /** scheduler_setStatus: the first process with the pid gets the status and loses its waiting flags. */
  function WithStatus(t: Table, pid: nat, status: Status): Table {
    var slot := SlotFrom(KinOf(t), pid, 0);
    if slot == -1 then t else t[slot := Some(t[slot].value.(status := status, waitingFlags := -1))]
  }

  /** setPriority, which refuses to take the idle process's priority away. */
  function WithPriority(t: Table, pid: nat, priority: int): Table {
    var slot := SlotFrom(KinOf(t), pid, 0);
    if slot == -1 || (pid == 0 && priority == 0) then t else t[slot := Some(t[slot].value.(priority := priority))]
  }

  /** With unique pids, scheduler_setStatus changes the process with the pid and no other. */
  lemma StatusSlots(t: Table, pid: nat, status: Status)
    requires KinOk(KinOf(t))
    ensures var e := WithStatus(t, pid, status);
            && (forall i | 0 <= i < MAX_PROCESSES && t[i].Some? && t[i].value.pid == pid ::
                  e[i] == Some(t[i].value.(status := status, waitingFlags := -1)))
            && forall i | 0 <= i < MAX_PROCESSES && (t[i].None? || t[i].value.pid != pid) :: e[i] == t[i]
  {
    OnlySlot(t, pid);
    assert forall i :: 0 <= i < MAX_PROCESSES && t[i].Some? ==> KinOf(t)[i] == Some((t[i].value.pid, t[i].value.parent));
  }

  lemma PrioritySlots(t: Table, pid: nat, priority: int)
    requires KinOk(KinOf(t))
    ensures var e, known := WithPriority(t, pid, priority), exists i :: 0 <= i < MAX_PROCESSES && t[i].Some? && t[i].value.pid == pid;
            && (SlotFrom(KinOf(t), pid, 0) == -1 <==> !known)
            && (!known || (pid == 0 && priority == 0) ==> e == t)
            && (known && !(pid == 0 && priority == 0) ==> forall i :: 0 <= i < MAX_PROCESSES ==>
                  e[i] == if t[i].Some? && t[i].value.pid == pid then Some(t[i].value.(priority := priority)) else t[i])
  {
    OnlySlot(t, pid);
    assert forall i :: 0 <= i < MAX_PROCESSES && t[i].Some? ==> KinOf(t)[i] == Some((t[i].value.pid, t[i].value.parent));
  }

  /**
    What kill leaves of the table, if the process is known and has a parent other than the idle
    process: whoever descends from it is finalized, its parent is ready and waits no more, and all
    other processes are as before. Pids, parents, priorities and ages never change.
   */
  ghost predicate KilledFamily(t: Table, e: Table, pid: nat) {
    var mortal := exists i :: 0 <= i < MAX_PROCESSES && t[i].Some? && t[i].value.pid == pid && t[i].value.parent != 0;
    && (!mortal ==> e == t)
    && (forall i :: 0 <= i < MAX_PROCESSES ==> (t[i].Some? <==> e[i].Some?))
    && (forall i :: 0 <= i < MAX_PROCESSES && t[i].Some? ==>
          && e[i].value.pid == t[i].value.pid && e[i].value.parent == t[i].value.parent
          && e[i].value.priority == t[i].value.priority && e[i].value.lastCalled == t[i].value.lastCalled)
    && (mortal ==> forall i, j :: 0 <= i < MAX_PROCESSES && 0 <= j < MAX_PROCESSES && t[i].Some? && t[j].Some? && t[j].value.pid == pid ==>
          if Under(KinOf(t), t[i].value.pid, pid)
          then e[i].value.status == Finalized && (e[i].value.waitingFlags == -1 || e[i].value.waitingFlags == t[i].value.waitingFlags)
          else if t[i].value.pid == t[j].value.parent then e[i].value.status == Ready && e[i].value.waitingFlags == -1
          else e[i] == t[i])
  }

  lemma KillSlots(t: Table, pid: nat)
    requires KinOk(KinOf(t))
    ensures KilledFamily(t, KillTable(t, pid), pid)
  {
    OnlySlot(t, pid);
    KillableAt(t, pid);
    assert forall i :: 0 <= i < MAX_PROCESSES && t[i].Some? ==> KinOf(t)[i] == Some((t[i].value.pid, t[i].value.parent));
    hide Under, HasChildBelow;
  }

  /** Emptying a slot or changing fields other than pid and parent keeps the families in order. */
  lemma KinAged(t: Table, t': Table, i: nat)
    requires KinOk(KinOf(t)) && i < MAX_PROCESSES && t' == t[i := AgedSlot(t[i])]
    ensures KinOk(KinOf(t'))
  {
    assert forall j :: 0 <= j < MAX_PROCESSES ==>
      KinOf(t')[j] == if j == i && AgedSlot(t[i]).None? then None else KinOf(t)[j];
  }

  lemma KinDecided(t: Table, withPriority: bool)
    requires KinOk(KinOf(t))
    ensures KinOk(KinOf(Decided(t, withPriority)))
  {
    hide Chosen;
    assert forall j :: 0 <= j < MAX_PROCESSES ==>
      KinOf(Decided(t, withPriority))[j] == KinOf(t)[j] || KinOf(Decided(t, withPriority))[j] == None;
  }

  /** The scan finds the first slot that holds the pid. */
  lemma ScanFinds(t: Table, pid: nat, i: nat)
    requires i < MAX_PROCESSES && t[i].Some? && t[i].value.pid == pid
    requires forall j :: 0 <= j < i ==> t[j].None? || t[j].value.pid != pid
    ensures SlotFrom(KinOf(t), pid, 0) == i
  {
    var k := KinOf(t);
    assert forall j :: 0 <= j < i && k[j].Some? ==> k[j].value.0 != pid;
    assert k[i].Some? && k[i].value.0 == pid;
  }

  /** A new process has a new pid and an older parent. */
  lemma KinCreate(t: Table, slot: nat, p: Proc)
    requires KinOk(KinOf(t)) && slot < MAX_PROCESSES && t[slot].None? && p.parent < p.pid
    requires forall i :: 0 <= i < MAX_PROCESSES && t[i].Some? ==> t[i].value.pid < p.pid
    ensures KinOk(KinOf(t[slot := Some(p)]))
  {
    var k, k' := KinOf(t), KinOf(t[slot := Some(p)]);
    assert forall j :: 0 <= j < MAX_PROCESSES ==> k'[j] == if j == slot then Some((p.pid, p.parent)) else k[j];
    assert forall j :: 0 <= j < MAX_PROCESSES && k[j].Some? ==> k[j].value.0 < p.pid;
  }

  /** With unique pids, no other slot holds the pid. */
  lemma OnlySlot(t: Table, pid: nat)
    requires KinOk(KinOf(t))
    ensures forall j :: 0 <= j < MAX_PROCESSES && t[j].Some? && t[j].value.pid == pid ==> j == SlotFrom(KinOf(t), pid, 0)
  {
    forall j | 0 <= j < MAX_PROCESSES && t[j].Some? && t[j].value.pid == pid
      ensures j == SlotFrom(KinOf(t), pid, 0)
    {
      SlotOfKnown(KinOf(t), j);
    }
  }

  lemma KillableAt(t: Table, pid: nat)
    requires KinOk(KinOf(t))
    ensures var slot := SlotFrom(KinOf(t), pid, 0);
            && (slot == -1 ==> !Killable(KinOf(t), pid))
            && (slot != -1 ==>
                  && t[slot].Some? && t[slot].value.pid == pid
                  && (Killable(KinOf(t), pid) <==> t[slot].value.parent != 0)
                  && (pid == 0 ==> t[slot].value.parent == 0))
  {
  }

  lemma KillKeepsPids(t: Table, pid: nat)
    ensures forall j :: 0 <= j < MAX_PROCESSES ==>
      (KillTable(t, pid)[j].Some? == t[j].Some?) &&
      (t[j].Some? ==> KillTable(t, pid)[j].value.pid == t[j].value.pid)
  {
  }

  lemma ScanFails(t: Table, pid: nat)
    requires forall j :: 0 <= j < MAX_PROCESSES ==> t[j].None? || t[j].value.pid != pid
    ensures SlotFrom(KinOf(t), pid, 0) == -1
  {
  }

  /** Updating a process without touching its pid and parent keeps the families. */
  lemma KinUpdate(t: Table, i: nat, p: Proc)
    requires i < MAX_PROCESSES && t[i].Some? && p.pid == t[i].value.pid && p.parent == t[i].value.parent
    ensures KinOf(t[i := Some(p)]) == KinOf(t)
  {
  }

  lemma NotKillable(t: Table, pid: nat)
    requires !Killable(KinOf(t), pid)
    ensures KillTable(t, pid) == t
  {
  }

  // ---- Families --------------------------------------------------------------

  lemma SlotOfKnown(k: Kin, i: nat)
    requires KinOk(k) && i < |k| && k[i].Some?
    ensures SlotFrom(k, k[i].value.0, 0) == i
  {
  }

  /** Pids only grow downwards. */
  lemma {:induction false} UnderIsAbove(k: Kin, pid: nat, root: nat)
    requires Under(k, pid, root)
    ensures root <= pid
    decreases pid
  {
    if pid != root {
      UnderIsAbove(k, k[SlotFrom(k, pid, 0)].value.1, root);
    }
  }

  /** Under a child is under the parent. */
  lemma {:induction false} UnderChild(k: Kin, pid: nat, c: nat, root: nat)
    requires KinOk(k) && ChildAt(k, c, root) && root != 0 && Under(k, pid, k[c].value.0)
    ensures Under(k, pid, root) && pid != root
    decreases pid
  {
    SlotOfKnown(k, c);
    if pid != k[c].value.0 {
      UnderChild(k, k[SlotFrom(k, pid, 0)].value.1, c, root);
      UnderIsAbove(k, k[SlotFrom(k, pid, 0)].value.1, root);
    }
  }

  /** Strictly under a process is under exactly one of its children. */
  lemma {:induction false} UnderSomeChild(k: Kin, pid: nat, root: nat) returns (c: nat)
    requires KinOk(k) && Under(k, pid, root) && pid != root
    ensures ChildAt(k, c, root) && Under(k, pid, k[c].value.0)
    decreases pid
  {
    var slot := SlotFrom(k, pid, 0);
    if k[slot].value.1 == root {
      c := slot;
    } else {
      c := UnderSomeChild(k, k[slot].value.1, root);
    }
  }

  lemma {:induction false} UnderOneChild(k: Kin, pid: nat, c: nat, d: nat, root: nat)
    requires KinOk(k) && root != 0 && ChildAt(k, c, root) && ChildAt(k, d, root)
    requires Under(k, pid, k[c].value.0) && Under(k, pid, k[d].value.0)
    ensures c == d
    decreases pid
  {
    SlotOfKnown(k, c);
    SlotOfKnown(k, d);
    if pid == k[c].value.0 {
      if pid != k[d].value.0 {
        UnderChild(k, root, d, root);
      }
    } else if pid == k[d].value.0 {
      UnderChild(k, root, c, root);
    } else {
      UnderOneChild(k, k[SlotFrom(k, pid, 0)].value.1, c, d, root);
    }
  }

  // ---- The two functions step by step ----------------------------------------

  lemma KinKept(t: Table, pid: nat, n: nat)
    requires n <= MAX_PROCESSES
    ensures KinOf(KillTable(t, pid)) == KinOf(t)
    ensures KinOf(ChildrenTable(t, pid, n)) == KinOf(t)
  {
  }

  lemma ChildrenNone(t: Table, pid: nat)
    ensures ChildrenTable(t, pid, 0) == t
  {
  }

  /** Slot n holds no child: nothing to do. */
  lemma ChildrenSkip(t: Table, pid: nat, n: nat)
    requires n < MAX_PROCESSES && !ChildAt(KinOf(t), n, pid)
    ensures ChildrenTable(t, pid, n + 1) == ChildrenTable(t, pid, n)
  {
    var k := KinOf(t);
    forall i | 0 <= i < MAX_PROCESSES
      ensures AfterChildren(k, pid, n + 1, t[i]) == AfterChildren(k, pid, n, t[i])
    {
      if t[i].Some? {
        assert UnderChildBelow(k, t[i].value.pid, pid, n + 1) == UnderChildBelow(k, t[i].value.pid, pid, n);
        assert HasChildBelow(k, pid, n + 1) == HasChildBelow(k, pid, n);
      }
    }
  }

  /** Slot n holds a child: killing it extends the killed families by its own. */
  lemma ChildrenKill(t: Table, pid: nat, n: nat)
    requires n < MAX_PROCESSES && ChildAt(KinOf(t), n, pid) && KinOk(KinOf(t)) && pid != 0
    ensures KillTable(ChildrenTable(t, pid, n), t[n].value.pid) == ChildrenTable(t, pid, n + 1)
  {
    var k, u := KinOf(t), ChildrenTable(t, pid, n);
    var c := t[n].value.pid;
    KinKept(t, pid, n);
    SlotOfKnown(k, n);
    forall i | 0 <= i < MAX_PROCESSES
      ensures AfterKill(k, c, u[i]) == AfterChildren(k, pid, n + 1, t[i])
    {
      if t[i].Some? {
        ChildrenKillSlot(t, pid, n, i);
      }
    }
  }

  lemma ChildrenKillSlot(t: Table, pid: nat, n: nat, i: nat)
    requires n < MAX_PROCESSES && ChildAt(KinOf(t), n, pid) && KinOk(KinOf(t)) && pid != 0
    requires i < MAX_PROCESSES && t[i].Some?
    ensures AfterKill(KinOf(t), t[n].value.pid, AfterChildren(KinOf(t), pid, n, t[i]))
         == AfterChildren(KinOf(t), pid, n + 1, t[i])
  {
    var k, q, c := KinOf(t), t[i].value.pid, t[n].value.pid;
    SlotOfKnown(k, n);
    assert HasChildBelow(k, pid, n + 1);
    if Under(k, q, c) {
      UnderChild(k, q, n, pid);
      if UnderChildBelow(k, q, pid, n) {
        var d :| 0 <= d < n && ChildAt(k, d, pid) && Under(k, q, k[d].value.0);
        UnderOneChild(k, q, n, d, pid);
      }
      assert UnderChildBelow(k, q, pid, n + 1);
    } else {
      assert UnderChildBelow(k, q, pid, n + 1) == UnderChildBelow(k, q, pid, n);
      if UnderChildBelow(k, q, pid, n) {
        var d :| 0 <= d < n && ChildAt(k, d, pid) && Under(k, q, k[d].value.0);
        UnderChild(k, q, d, pid);
      }
    }
  }

  /** kill(pid): its children, then its parent is set ready, then it is finalized. */
  lemma KillSteps(t: Table, pid: nat, slot: nat, i: nat)
    requires KinOk(KinOf(t)) && slot < MAX_PROCESSES && t[slot].Some? && t[slot].value.pid == pid
    requires t[slot].value.parent != 0 && i < MAX_PROCESSES && t[i].Some?
    ensures var k, parent := KinOf(t), t[slot].value.parent;
            var afterChildren := AfterChildren(k, pid, MAX_PROCESSES, t[i]).value;
            var woken := if afterChildren.pid == parent then Woken(afterChildren) else afterChildren;
            AfterKill(k, pid, t[i]) == Some(if i == slot then woken.(status := Finalized) else woken)
  {
    var k, q, parent := KinOf(t), t[i].value.pid, t[slot].value.parent;
    SlotOfKnown(k, slot);
    SlotOfKnown(k, i);
    if Under(k, q, pid) {
      UnderIsAbove(k, q, pid);
      if q != pid {
        var c := UnderSomeChild(k, q, pid);
        assert UnderChildBelow(k, q, pid, MAX_PROCESSES);
      } else if UnderChildBelow(k, q, pid, MAX_PROCESSES) {
        var c :| 0 <= c < MAX_PROCESSES && ChildAt(k, c, pid) && Under(k, q, k[c].value.0);
        UnderChild(k, q, c, pid);
      }
    } else if UnderChildBelow(k, q, pid, MAX_PROCESSES) {
      var c :| 0 <= c < MAX_PROCESSES && ChildAt(k, c, pid) && Under(k, q, k[c].value.0);
      UnderChild(k, q, c, pid);
    }
  }

  lemma KillComposed(t: Table, pid: nat, slot: nat)
    requires KinOk(KinOf(t)) && slot < MAX_PROCESSES && t[slot].Some? && t[slot].value.pid == pid
    requires t[slot].value.parent != 0
    ensures var children := ChildrenTable(t, pid, MAX_PROCESSES);
            var woken := WithStatus(children, t[slot].value.parent, Ready);
            && woken[slot].Some?
            && children[slot].Some? && children[slot].value.parent == t[slot].value.parent
            && KillTable(t, pid) == woken[slot := Some(woken[slot].value.(status := Finalized))]
  {
    var k, parent := KinOf(t), t[slot].value.parent;
    var children := ChildrenTable(t, pid, MAX_PROCESSES);
    var woken := WithStatus(children, parent, Ready);
    KinKept(t, pid, MAX_PROCESSES);
    forall i | 0 <= i < MAX_PROCESSES
      ensures woken[slot].Some? && KillTable(t, pid)[i] == woken[slot := Some(woken[slot].value.(status := Finalized))][i]
    {
      if t[i].Some? {
        hide SlotFrom, Under, UnderChildBelow, HasChildBelow;
        SlotOfKnown(k, i);
        KillSteps(t, pid, slot, i);
      }
    }
  }
}
