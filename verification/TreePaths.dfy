/** When every node of the file tree can be reached from the root by names. */
module TreePaths {
  import opened Bytes
  import opened DiskLayout
  import opened DirRecords
  import opened DirSlots
  import opened FileTrees
  import opened Reservation

  /** Directory m has an item for node n, behind its first three. */
  ghost predicate Child(t: Tree, m: nat, n: nat) {
    exists k: nat :: Link(t, m, k, n)
  }

  /** At most depth items lead from the root to node n. */
  ghost predicate Within(t: Tree, n: nat, depth: nat)
    decreases depth
  {
    n == 0 || (depth > 0 && exists m: nat :: Child(t, m, n) && Within(t, m, depth - 1))
  }

  ghost predicate Reachable(t: Tree, n: nat) {
    exists depth: nat :: Within(t, n, depth)
  }

  ghost predicate AllReachable(t: Tree) {
    forall n :: n in t.nodes ==> Reachable(t, n)
  }

  /** A directory that still has items for other nodes. */
  ghost predicate Nonempty(t: Tree, n: nat) {
    exists i: nat :: Child(t, n, i)
  }

  /** The request does not remove such a directory. */
  ghost predicate SparesChildren(t: Tree, r: Request)
    requires Admissible(t, r)
  {
    r.Removing? && Position(t.nodes[r.n].slots, r.inode, 3) < |t.nodes[r.n].slots| ==> !Nonempty(t, r.inode)
  }

  /** Nodes stay reachable if items get lost only for a node without children. */
  lemma {:induction false} WithinStays(t: Tree, t': Tree, gone: nat, n: nat, depth: nat)
    requires forall m: nat, i: nat :: Child(t, m, i) && i != gone ==> Child(t', m, i)
    requires (forall i: nat :: !Child(t, gone, i)) && n != gone && Within(t, n, depth)
    ensures Within(t', n, depth)
    decreases depth
  {
    hide Child;
    if n != 0 {
      var m: nat :| Child(t, m, n) && Within(t, m, depth - 1);
      WithinStays(t, t', gone, m, depth - 1);
    }
  }

  lemma ReachableStays(t: Tree, t': Tree, gone: nat, n: nat)
    requires forall m: nat, i: nat :: Child(t, m, i) && i != gone ==> Child(t', m, i)
    requires (forall i: nat :: !Child(t, gone, i)) && n != gone && Reachable(t, n)
    ensures Reachable(t', n)
  {
    hide Child, Within;
    var depth: nat :| Within(t, n, depth);
    WithinStays(t, t', gone, n, depth);
  }

  lemma ReachableChild(t: Tree, m: nat, n: nat)
    requires Reachable(t, m) && Child(t, m, n)
    ensures Reachable(t, n)
  {
    hide Child;
    var depth: nat :| Within(t, m, depth);
    assert Within(t, n, depth + 1);
  }

  /** A node that no directory has an item for. */
  ghost predicate Orphan(t: Tree, n: nat) {
    n in t.nodes && n != 0 && forall m: nat :: !Child(t, m, n)
  }

  lemma OrphanUnreachable(t: Tree, n: nat)
    requires Orphan(t, n)
    ensures !Reachable(t, n)
  {
  }

  /** The items of a tree after a node was created. */
  lemma CreatedChildren(t: Tree, n: nat, m: nat, name: seq<Byte>, directory: bool)
    requires Sound(t) && IsFolder(t, n) && n < 0x1_0000_0000 && m < MAX_INODES && m !in t.nodes
    requires name !in Listing(t.nodes[n].slots) && 1 + BlocksWith(t, n, Item(name, m)) - t.nodes[n].blocks <= t.free
    ensures var after := Created(t, n, m, name, directory);
            forall d: nat, i: nat :: Child(after, d, i) <==> Child(t, d, i) || (d == n && i == m)
  {
    hide Listing, Put, FirstVacant, Estimate, FolderOk, NamesDistinct;
    var slots, after := t.nodes[n].slots, Created(t, n, m, name, directory);
    PutKeepsFolder(slots, t.nodes[n].blocks, name, m);
    NewFolder(m, n);
    PutIs(slots, Item(name, m));
    var p := FirstVacant(slots);
    assert Link(after, n, p, m);
    forall d: nat, k: nat, i: nat ensures Link(after, d, k, i) <==> Link(t, d, k, i) || (d == n && k == p && i == m) {
    }
    hide Link;
  }

  /** And after one was removed: its item, and those it had, are gone. */
  lemma RemovedChildren(t: Tree, n: nat, k: nat)
    requires Sound(t) && IsFolder(t, n) && 3 <= k < |t.nodes[n].slots| && t.nodes[n].slots[k].Item?
    ensures var inode, after := t.nodes[n].slots[k].inode, Removed(t, n, k);
            forall d: nat, i: nat :: Child(after, d, i) <==> Child(t, d, i) && i != inode && d != inode
  {
    hide FolderOk;
    var inode, after := t.nodes[n].slots[k].inode, Removed(t, n, k);
    assert Link(t, n, k, inode);
    forall d: nat, j: nat, i: nat ensures Link(after, d, j, i) <==> Link(t, d, j, i) && i != inode && d != inode {
      assert Link(t, d, j, i) && i == inode ==> d == n && j == k;
    }
    hide Link;
  }

  lemma RemovedItem(t: Tree, n: U32, inode: U32)
    requires Sound(t) && Admissible(t, Removing(n, inode))
    ensures var k := Position(t.nodes[n].slots, inode, 3);
            && 3 <= k <= |t.nodes[n].slots|
            && (k < |t.nodes[n].slots| ==> t.nodes[n].slots[k].Item? && t.nodes[n].slots[k].inode == inode)
  {
    assert FolderOk(t.nodes[n].slots, t.nodes[n].blocks);
    hide NamesDistinct;
  }

  /** What a request does to the items. */
  lemma StepChildren(t: Tree, r: Request)
    requires Sound(t) && Admissible(t, r)
    ensures var e := Applied(t, r);
            match r
            case Creating(n, name, _, hasAccess, _) =>
              var m := NextNumber(t);
              if IsMade(t, n, name, hasAccess)
              then m !in t.nodes && e.nodes.Keys == t.nodes.Keys + {m} &&
                   forall d: nat, i: nat :: Child(e, d, i) <==> Child(t, d, i) || (d == n && i == m)
              else e == t
            case Removing(n, inode) =>
              if Position(t.nodes[n].slots, inode, 3) < |t.nodes[n].slots|
              then Child(t, n, inode) && e.nodes.Keys == t.nodes.Keys - {inode as nat} &&
                   forall d: nat, i: nat :: Child(e, d, i) <==> Child(t, d, i) && i != inode && d != inode
              else e == t
            case _ => e.nodes.Keys == t.nodes.Keys && forall d: nat, i: nat :: Child(e, d, i) <==> Child(t, d, i)
  {
    hide Listing, BlocksWith, Overwrite, FolderOk;
    match r
    case Creating(n, name, directory, hasAccess, _) =>
      if IsMade(t, n, name, hasAccess) {
        CreatedChildren(t, n, NextNumber(t), name, directory);
      }
    case Removing(n, inode) =>
      RemovedItem(t, n, inode);
      var k := Position(t.nodes[n].slots, inode, 3);
      if k < |t.nodes[n].slots| {
        assert Link(t, n, k, inode);
        RemovedChildren(t, n, k);
      }
    case Writing(n, data, offset) =>
      forall d: nat, k: nat, i: nat ensures Link(Applied(t, r), d, k, i) <==> Link(t, d, k, i) {
      }
    case _ =>
  }

  /** In a sound tree children are nodes with one parent each. */
  lemma ChildrenExist(t: Tree)
    requires Sound(t)
    ensures forall n :: n in t.nodes ==> n < MAX_INODES
    ensures forall m: nat, i: nat :: Child(t, m, i) ==> m in t.nodes && i in t.nodes && i != m && i != 0 && i < MAX_INODES && m < MAX_INODES
    ensures forall m: nat, m': nat, i: nat :: Child(t, m, i) && Child(t, m', i) ==> m == m'
  {
    hide FolderOk;
  }

  /** The one node that loses its item in a step. */
  lemma StepReachable(t: Tree, t': Tree, gone: nat)
    requires AllReachable(t) && (forall i: nat :: !Child(t, gone, i)) && t'.nodes.Keys <= t.nodes.Keys && gone !in t'.nodes
    requires forall m: nat, i: nat :: Child(t, m, i) && i != gone ==> Child(t', m, i)
    ensures AllReachable(t')
  {
    hide Child, Reachable;
    forall n | n in t'.nodes ensures Reachable(t', n) {
      ReachableStays(t, t', gone, n);
    }
  }

  /** A node without item leaves its children cut off, and no others. */
  lemma CutOffExact(t: Tree, t': Tree, gone: nat)
    requires AllReachable(t) && t'.nodes.Keys == t.nodes.Keys - {gone}
    requires forall d: nat, i: nat :: Child(t', d, i) <==> Child(t, d, i) && i != gone && d != gone
    requires forall m: nat, i: nat :: Child(t, m, i) ==> i in t.nodes && i != m && i != 0
    requires forall m: nat, m': nat, i: nat :: Child(t, m, i) && Child(t, m', i) ==> m == m'
    ensures AllReachable(t') <==> !Nonempty(t, gone)
    ensures Nonempty(t, gone) ==> exists i: nat :: Orphan(t', i)
  {
    hide Child, Reachable;
    if Nonempty(t, gone) {
      var i: nat :| Child(t, gone, i);
      assert Orphan(t', i);
      OrphanUnreachable(t', i);
    } else {
      StepReachable(t, t', gone);
    }
  }

  /** A request leaves every node reachable exactly when it spares directories with children. */
  lemma StepReachableExact(t: Tree, r: Request)
    requires Sound(t) && Admissible(t, r) && AllReachable(t)
    ensures AllReachable(Applied(t, r)) <==> SparesChildren(t, r)
    ensures !SparesChildren(t, r) ==> exists i: nat :: Orphan(Applied(t, r), i)
  {
    var e := Applied(t, r);
    StepChildren(t, r);
    ChildrenExist(t);
    hide Child, Reachable, Sound, Admissible, Applied, Position, IsMade, NextNumber;
    match r
    case Creating(n, name, _, hasAccess, _) =>
      forall i | i in t.nodes ensures Reachable(e, i) {
        ReachableStays(t, e, MAX_INODES, i);
      }
      if IsMade(t, n, name, hasAccess) {
        ReachableChild(e, n, NextNumber(t));
      }
    case Removing(n, inode) =>
      if Position(t.nodes[n].slots, inode, 3) < |t.nodes[n].slots| {
        CutOffExact(t, e, inode);
      }
    case _ =>
      forall i | i in t.nodes ensures Reachable(e, i) {
        ReachableStays(t, e, MAX_INODES, i);
      }
  }

  /** No request gives an item to a node that has none. */
  lemma OrphanStays(t: Tree, r: Request, i: nat)
    requires Sound(t) && Admissible(t, r) && Orphan(t, i)
    ensures Orphan(Applied(t, r), i)
  {
    StepChildren(t, r);
    hide Child, Sound, Admissible, Applied, Position, IsMade, NextNumber;
  }

  lemma {:induction false} RunKeepsOrphan(t: Tree, rs: seq<Request>, i: nat)
    requires Sound(t) && AllAdmissible(t, rs) && Orphan(t, i)
    ensures Orphan(AppliedAll(t, rs), i)
    decreases |rs|
  {
    hide Sound, Admissible, Applied, Orphan;
    if rs != [] {
      StepKeepsSound(t, rs[0]);
      OrphanStays(t, rs[0], i);
      RunKeepsOrphan(Applied(t, rs[0]), rs[1..], i);
    }
  }

  ghost predicate AllSpareChildren(t: Tree, rs: seq<Request>)
    requires AllAdmissible(t, rs)
    decreases |rs|
  {
    rs != [] ==> SparesChildren(t, rs[0]) && AllSpareChildren(Applied(t, rs[0]), rs[1..])
  }

  /**
    After a run every node can be reached from the root exactly when no directory with children was
    removed: a node that was cut off stays so.
   */
  lemma {:induction false} RunReachableExact(t: Tree, rs: seq<Request>)
    requires Sound(t) && AllAdmissible(t, rs) && AllReachable(t)
    ensures AllReachable(AppliedAll(t, rs)) <==> AllSpareChildren(t, rs)
    decreases |rs|
  {
    hide Sound, Admissible, Applied, AllReachable, SparesChildren, Orphan;
    if rs != [] {
      var e := Applied(t, rs[0]);
      StepKeepsSound(t, rs[0]);
      StepReachableExact(t, rs[0]);
      if SparesChildren(t, rs[0]) {
        RunReachableExact(e, rs[1..]);
      } else {
        var i: nat :| Orphan(e, i);
        RunKeepsOrphan(e, rs[1..], i);
        OrphanCutOff(AppliedAll(t, rs), i);
      }
    }
  }

  lemma OrphanCutOff(t: Tree, i: nat)
    requires Orphan(t, i)
    ensures !AllReachable(t)
  {
    hide Child, Reachable;
    OrphanUnreachable(t, i);
  }

  // ---- The names of a directory for itself and its parent ---------------------

  /** A directory that has a parent names itself and this parent in its second and third item. */
  ghost predicate ParentsNamed(t: Tree) {
    forall n: nat, d: nat :: Child(t, n, d) && IsFolder(t, d) ==> NamesParent(t.nodes[d].slots, d, n)
  }

  predicate NamesParent(slots: seq<Slot>, d: nat, n: nat) {
    |slots| >= 3 && slots[1].Item? && slots[1].inode == d && slots[2].Item? && slots[2].inode == n
  }

  /** Requests leave the first three slots of a directory alone. */
  lemma StepKeepsHead(t: Tree, r: Request, d: nat)
    requires Sound(t) && Admissible(t, r) && IsFolder(t, d) && IsFolder(Applied(t, r), d)
    ensures var slots, after := t.nodes[d].slots, Applied(t, r).nodes[d].slots;
            |slots| >= 3 && |after| >= 3 && after[..3] == slots[..3]
  {
    hide Listing, Overwrite, NamesDistinct, Put, BlocksWith, Estimate;
    assert FolderOk(t.nodes[d].slots, t.nodes[d].blocks);
    match r
    case Creating(n, name, directory, hasAccess, _) =>
      if IsMade(t, n, name, hasAccess) && d == n {
        PutKeepsFolder(t.nodes[n].slots, t.nodes[n].blocks, name, NextNumber(t));
        PutIs(t.nodes[n].slots, Item(name, NextNumber(t)));
      }
    case Removing(n, inode) =>
    case _ =>
  }

  /** Every request keeps these names right. */
  lemma StepKeepsParents(t: Tree, r: Request)
    requires Sound(t) && Admissible(t, r) && ParentsNamed(t)
    ensures ParentsNamed(Applied(t, r))
  {
    var e := Applied(t, r);
    StepChildren(t, r);
    ChildrenExist(t);
    forall n: nat, d: nat | Child(e, n, d) && IsFolder(e, d)
      ensures NamesParent(e.nodes[d].slots, d, n)
    {
      if Child(t, n, d) {
        StepKeepsHead(t, r, d);
        HeadNames(t.nodes[d].slots, e.nodes[d].slots, d, n);
      } else {
        assert e.nodes[d] == Directory(NewSlots(d, n), 1);
      }
    }
  }

  lemma HeadNames(slots: seq<Slot>, after: seq<Slot>, d: nat, n: nat)
    requires NamesParent(slots, d, n) && |after| >= 3 && after[..3] == slots[..3]
    ensures NamesParent(after, d, n)
  {
    assert after[1] == after[..3][1] && after[2] == after[..3][2];
    assert slots[1] == slots[..3][1] && slots[2] == slots[..3][2];
  }

  lemma {:induction false} RunKeepsParents(t: Tree, rs: seq<Request>)
    requires Sound(t) && AllAdmissible(t, rs) && ParentsNamed(t)
    ensures ParentsNamed(AppliedAll(t, rs))
    decreases |rs|
  {
    hide Sound, Admissible, Applied, ParentsNamed;
    if rs != [] {
      StepKeepsSound(t, rs[0]);
      StepKeepsParents(t, rs[0]);
      RunKeepsParents(Applied(t, rs[0]), rs[1..]);
    }
  }

  /** Every directory but the root has an item in the directory that it names as its parent. */
  ghost predicate ParentsRight(t: Tree) {
    forall d: nat :: IsFolder(t, d) && d != 0 ==> |t.nodes[d].slots| >= 3 && t.nodes[d].slots[2].Item? && Child(t, t.nodes[d].slots[2].inode, d)
  }

  lemma ReachableParents(t: Tree)
    requires AllReachable(t) && ParentsNamed(t)
    ensures ParentsRight(t)
  {
    hide Child;
    forall d: nat | IsFolder(t, d) && d != 0
      ensures |t.nodes[d].slots| >= 3 && t.nodes[d].slots[2].Item? && Child(t, t.nodes[d].slots[2].inode, d)
    {
      assert Reachable(t, d);
      var m: nat :| Child(t, m, d);
      assert NamesParent(t.nodes[d].slots, d, m);
    }
  }

  lemma RootReachable()
    ensures Sound(RootOnly()) && AllReachable(RootOnly()) && ParentsNamed(RootOnly())
  {
    RootSound();
    assert Within(RootOnly(), 0, 0);
    NewFolder(0, 0);
  }

  /**
    From the root alone on: every node can be reached, and every directory names its parent rightly, if
    no directory with children was removed. Otherwise some node cannot be reached any more.
   */
  lemma RunsFromRoot(rs: seq<Request>)
    requires AllAdmissible(RootOnly(), rs)
    ensures AllReachable(AppliedAll(RootOnly(), rs)) <==> AllSpareChildren(RootOnly(), rs)
    ensures AllSpareChildren(RootOnly(), rs) ==> ParentsRight(AppliedAll(RootOnly(), rs))
  {
    hide *;
    RootReachable();
    RunReachableExact(RootOnly(), rs);
    RunKeepsParents(RootOnly(), rs);
    if AllSpareChildren(RootOnly(), rs) {
      ReachableParents(AppliedAll(RootOnly(), rs));
    }
  }

  // ---- A directory whose parent's number was given to a file ------------------

  // The name "a".
  const NAME: seq<Byte> := [97]

  function Making(n: U32, directory: bool, fields: FileHeader): Request {
    Creating(n, NAME, directory, true, fields)
  }

  /** A create in a directory of one block, with no item of that name, that stays in its block. */
  lemma MakingIs(t: Tree, n: U32, directory: bool, fields: FileHeader, slots: seq<Slot>, m: nat)
    requires n in t.nodes && t.nodes[n] == Directory(slots, 1) && NamesDistinct(slots) && t.free >= 1
    requires forall k :: 0 <= k < |slots| && slots[k].Item? ==> slots[k].name != NAME
    requires m < MAX_INODES && m !in t.nodes && (forall j: nat :: j < m ==> j in t.nodes) && |slots| <= 5
    ensures Admissible(t, Making(n, directory, fields))
    ensures Applied(t, Making(n, directory, fields)) ==
      Tree(t.nodes[m := if directory then Directory(NewSlots(m, n), 1) else Plain([], 1)][n := Directory(Put(slots, Item(NAME, m)), 1)], t.free - 1)
  {
    hide Put, Listing, Estimate;
    assert NextNumber(t) == m;
    assert NAME !in Listing(slots) by {
      ListingFacts(slots);
    }
    assert |Put(slots, Item(NAME, m))| <= 6;
  }

  /** A new directory with one more slot, taken or vacated. */
  lemma OneMore(n: U32, parent: U32, item: Slot)
    requires item.Item? && item.name == NAME
    ensures var slots := NewSlots(n, parent);
            && |slots| == 3 && NamesDistinct(slots) && Put(slots, item) == slots + [item]
            && (forall k :: 0 <= k < |slots| && slots[k].Item? ==> slots[k].name != NAME)
            && Number((slots + [item])[3]) == item.inode && (slots + [item])[3 := Vacant] == slots + [Vacant]
  {
    var slots := NewSlots(n, parent);
    NewSlotsFacts(n, parent);
    PutIs(slots, item);
    assert slots[0].name[0] == 92 && slots[1].name[0] == 46 && slots[2].name[0] == 46;
    hide NewSlots, Put, NamesDistinct, Listing;
    assert FirstVacant(slots) == 3;
  }

  lemma Refilled(slots: seq<Slot>, item: Slot)
    requires |slots| == 3 && NoneVacant(slots) && NamesDistinct(slots)
    ensures Put(slots + [Vacant], item) == slots + [item] && NamesDistinct(slots + [Vacant])
  {
    var more := slots + [Vacant];
    PutIs(more, item);
    hide Put;
    assert more[3].Vacant? && forall k :: 0 <= k < 3 ==> more[k] == slots[k];
    assert FirstVacant(more) == 3 && more[3 := item] == slots + [item];
  }

  function Root(slot: seq<Slot>): Node {
    Directory(NewSlots(0, 0) + slot, 1)
  }

  /** The directory with number 1, removed although it has a child. */
  function Requests(fields: FileHeader): seq<Request> {
    [Making(0, true, fields), Making(1, true, fields), Removing(0, 1), Making(0, false, fields)]
  }

  /**
    In the root a directory is made, in it another one; the first is removed, and a file made. The
    second directory can no longer be reached, and names as its parent the file.
   */
  lemma ParentReused(fields: FileHeader)
    ensures AllAdmissible(RootOnly(), Requests(fields))
    ensures var e := AppliedAll(RootOnly(), Requests(fields));
            Orphan(e, 2) && e.nodes[2] == Directory(NewSlots(2, 1), 1) && IsPlain(e, 1)
  {
    var t0 := RootOnly();
    var t1 := Tree(map[0 := Root([Item(NAME, 1)]), 1 := Directory(NewSlots(1, 0), 1)], t0.free - 1);
    var t2 := Tree(t1.nodes[2 := Directory(NewSlots(2, 1), 1)][1 := Directory(NewSlots(1, 0) + [Item(NAME, 2)], 1)], t0.free - 2);
    var t3 := Tree(map[0 := Root([Vacant]), 2 := Directory(NewSlots(2, 1), 1)], t0.free - 1);
    var t4 := Tree(map[0 := Root([Item(NAME, 1)]), 1 := Plain([], 1), 2 := Directory(NewSlots(2, 1), 1)], t0.free - 2);
    var rs := Requests(fields);
    FirstRequests(fields, t0, t1, t2);
    LastRequests(fields, t2, t3, t4);
    hide Admissible, Applied, NewSlots;
    RunOf(t0, rs, t1, t2, t3, t4);
  }

  lemma RunOf(t0: Tree, rs: seq<Request>, t1: Tree, t2: Tree, t3: Tree, t4: Tree)
    requires |rs| == 4 && Admissible(t0, rs[0]) && Applied(t0, rs[0]) == t1 && Admissible(t1, rs[1]) && Applied(t1, rs[1]) == t2
    requires Admissible(t2, rs[2]) && Applied(t2, rs[2]) == t3 && Admissible(t3, rs[3]) && Applied(t3, rs[3]) == t4
    ensures AllAdmissible(t0, rs) && AppliedAll(t0, rs) == t4
  {
    hide Admissible, Applied;
    RunStep(t3, rs[3..], t4);
    RunStep(t2, rs[2..], t3);
    RunStep(t1, rs[1..], t2);
    assert rs[3..][1..] == [] && rs[2..][1..] == rs[3..] && rs[1..][1..] == rs[2..];
  }

  lemma RunStep(t: Tree, rs: seq<Request>, t': Tree)
    requires rs != [] && Admissible(t, rs[0]) && Applied(t, rs[0]) == t'
    ensures AllAdmissible(t, rs) <==> AllAdmissible(t', rs[1..])
    ensures AllAdmissible(t, rs) ==> AppliedAll(t, rs) == AppliedAll(t', rs[1..])
  {
    hide Admissible, Applied;
  }

  lemma FirstRequests(fields: FileHeader, t0: Tree, t1: Tree, t2: Tree)
    requires t0 == RootOnly()
    requires t1 == Tree(map[0 := Root([Item(NAME, 1)]), 1 := Directory(NewSlots(1, 0), 1)], t0.free - 1)
    requires t2 == Tree(t1.nodes[2 := Directory(NewSlots(2, 1), 1)][1 := Directory(NewSlots(1, 0) + [Item(NAME, 2)], 1)], t0.free - 2)
    ensures Admissible(t0, Making(0, true, fields)) && Applied(t0, Making(0, true, fields)) == t1
    ensures Admissible(t1, Making(1, true, fields)) && Applied(t1, Making(1, true, fields)) == t2
  {
    OneMore(0, 0, Item(NAME, 1));
    OneMore(1, 0, Item(NAME, 2));
    hide NewSlots, Admissible, Applied, Put, NamesDistinct;
    MakingIs(t0, 0, true, fields, NewSlots(0, 0), 1);
    MakingIs(t1, 1, true, fields, NewSlots(1, 0), 2);
  }

  lemma LastRequests(fields: FileHeader, t2: Tree, t3: Tree, t4: Tree)
    requires t2.nodes == map[0 := Root([Item(NAME, 1)]), 1 := Directory(NewSlots(1, 0) + [Item(NAME, 2)], 1), 2 := Directory(NewSlots(2, 1), 1)]
    requires t3 == Tree(map[0 := Root([Vacant]), 2 := Directory(NewSlots(2, 1), 1)], t2.free + 1)
    requires t4 == Tree(map[0 := Root([Item(NAME, 1)]), 1 := Plain([], 1), 2 := Directory(NewSlots(2, 1), 1)], t2.free)
    ensures Admissible(t2, Removing(0, 1)) && Applied(t2, Removing(0, 1)) == t3
    ensures Admissible(t3, Making(0, false, fields)) && Applied(t3, Making(0, false, fields)) == t4
  {
    OneMore(0, 0, Item(NAME, 1));
    NewSlotsFacts(0, 0);
    Refilled(NewSlots(0, 0), Item(NAME, 1));
    hide NewSlots, Put, NamesDistinct, Admissible, Applied, Listing;
    RemovingIs(t2, NewSlots(0, 0) + [Item(NAME, 1)], 1);
    MakingIs(t3, 0, false, fields, NewSlots(0, 0) + [Vacant], 1);
  }

  /** The removal of the node in the fourth slot of the root. */
  lemma RemovingIs(t: Tree, slots: seq<Slot>, m: U32)
    requires 0 in t.nodes && t.nodes[0] == Directory(slots, 1) && |slots| == 4 && slots[3].Item? && slots[3].inode == m != REMOVED && m in t.nodes
    ensures Admissible(t, Removing(0, m))
    ensures Applied(t, Removing(0, m)) ==
      Tree(t.nodes[0 := Directory(slots[3 := Vacant], 1)] - {m as nat}, t.free + t.nodes[m].blocks)
  {
    PositionIs(slots, m, 3, 3);
    hide Position;
  }
}
