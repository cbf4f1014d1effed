/**
  The file system as its users see it: plain files and directories under inode numbers. Each
  request is a step on a tree of nodes, where a directory is a row of slots and a map of names.
 */
module FileTrees {
  import opened Bytes
  import opened DiskLayout
  import opened DirRecords
  import opened DirSlots
  import opened Options
  import opened Reservation
  import FileRuns

  datatype Node =
    | Plain(contents: seq<Byte>, blocks: nat)
    | Directory(slots: seq<Slot>, blocks: nat)

  /** All nodes by inode number, and the number of free blocks. */
  datatype Tree = Tree(nodes: map<nat, Node>, free: nat)

  datatype Request =
    | Creating(n: U32, name: seq<Byte>, directory: bool, hasAccess: bool, fields: FileHeader)
    | Removing(n: U32, inode: U32)
    | Finding(n: U32, name: seq<Byte>)
    | Entering(n: U32, index: U32)
    | Writing(n: U32, data: seq<Byte>, offset: U32)
    | Reading(n: U32, length: U32, offset: U32, leftover: int)

  datatype Answer =
    | Made(inode: int, error: int)
    | Status(code: int)
    | Inode(found: Option<U32>)
    | Contents(bytes: seq<Byte>)
    | Done

  predicate IsFolder(t: Tree, n: nat) {
    n in t.nodes && t.nodes[n].Directory?
  }

  predicate IsPlain(t: Tree, n: nat) {
    n in t.nodes && t.nodes[n].Plain?
  }

  /** The blocks of a directory after an item was added. */
  function BlocksWith(t: Tree, n: nat, item: Slot): (r: nat)
    requires IsFolder(t, n)
    ensures r >= t.nodes[n].blocks
  {
    BlocksAfter(t.nodes[n].blocks, 28 * |Put(t.nodes[n].slots, item)|)
  }

  /** Whether fs_createdir gets past its tests. */
  predicate IsMade(t: Tree, n: nat, name: seq<Byte>, hasAccess: bool)
    requires IsFolder(t, n)
  {
    hasAccess && name !in Listing(t.nodes[n].slots)
  }

  /** The inode number of the next node. */
  function NextNumber(t: Tree): nat {
    FileRuns.LowestFree(t.nodes.Keys, 0)
  }

  /**
    The request can be served: names are legal, a create finds an inode number below 128 and its
    blocks, a write starts within or right behind the contents, a read ends within them. The number
    of a removed record is no inode number to remove.
   */
  predicate Admissible(t: Tree, r: Request) {
    match r
    case Creating(n, name, directory, hasAccess, fields) =>
      && IsFolder(t, n) && 0 !in name && |name| < MAX_NAME_LENGTH
      && (IsMade(t, n, name, hasAccess) ==>
            NextNumber(t) < MAX_INODES && 1 + BlocksWith(t, n, Item(name, NextNumber(t))) - t.nodes[n].blocks <= t.free)
    case Removing(n, inode) =>
      IsFolder(t, n) && (inode == REMOVED ==> Position(t.nodes[n].slots, inode, 3) == |t.nodes[n].slots|)
    case Finding(n, name) => IsFolder(t, n) && 0 !in name
    case Entering(n, index) => IsFolder(t, n)
    case Writing(n, data, offset) =>
      && IsPlain(t, n) && offset <= |t.nodes[n].contents| && offset + |data| < 0x1_0000_0000
      && BlocksAfter(t.nodes[n].blocks, offset + |data|) - t.nodes[n].blocks <= t.free
    case Reading(n, length, offset, leftover) =>
      IsPlain(t, n) && offset + length <= |t.nodes[n].contents| && (leftover != 0 || offset < 180)
  }

  function Created(t: Tree, n: nat, m: nat, name: seq<Byte>, directory: bool): Tree
    requires IsFolder(t, n) && n < 0x1_0000_0000 && m < MAX_INODES
    requires 1 + BlocksWith(t, n, Item(name, m)) - t.nodes[n].blocks <= t.free
  {
    var node := if directory then Directory(NewSlots(m, n), 1) else Plain([], 1);
    var blocks := BlocksWith(t, n, Item(name, m));
    Tree(t.nodes[m := node][n := Directory(Put(t.nodes[n].slots, Item(name, m)), blocks)],
         t.free - 1 - (blocks - t.nodes[n].blocks))
  }

  function BlocksOf(t: Tree, n: nat): nat {
    if n in t.nodes then t.nodes[n].blocks else 0
  }

  /** Slot k of directory n is vacated and the node it names removed. */
  function Removed(t: Tree, n: nat, k: nat): Tree
    requires IsFolder(t, n) && k < |t.nodes[n].slots|
  {
    var slots, inode := t.nodes[n].slots, Number(t.nodes[n].slots[k]);
    Tree(t.nodes[n := Directory(slots[k := Vacant], t.nodes[n].blocks)] - {inode}, t.free + BlocksOf(t, inode))
  }

  function Applied(t: Tree, r: Request): Tree
    requires Admissible(t, r)
  {
    match r
    case Creating(n, name, directory, hasAccess, fields) =>
      if IsMade(t, n, name, hasAccess) then Created(t, n, NextNumber(t), name, directory) else t
    case Removing(n, inode) =>
      var k := Position(t.nodes[n].slots, inode, 3);
      if k == |t.nodes[n].slots| then t else Removed(t, n, k)
    case Writing(n, data, offset) =>
      var node := t.nodes[n];
      var blocks := BlocksAfter(node.blocks, offset + |data|);
      Tree(t.nodes[n := Plain(Overwrite(node.contents, offset, data), blocks)], t.free - (blocks - node.blocks))
    case _ => t
  }

  /** What fs_readdir answers from the numbers behind the first slot. */
  function EntryOf(numbers: seq<U32>, index: U32): Option<U32> {
    if index < |numbers| then Some(numbers[index])
    else if index == 0xFFFF_FFFF && numbers == [] then Some(REMOVED)
    else None
  }

  function Answered(t: Tree, r: Request): Answer
    requires Admissible(t, r)
  {
    match r
    case Creating(n, name, directory, hasAccess, fields) =>
      if !hasAccess then Made(-1, E_ACCESS)
      else if name in Listing(t.nodes[n].slots) then Made(-1, E_FILE_EXISTS)
      else Made(NextNumber(t), 0)
    case Removing(n, inode) =>
      Status(if Position(t.nodes[n].slots, inode, 3) == |t.nodes[n].slots| then E_FILE_NOT_EXISTS else 0)
    case Finding(n, name) =>
      var listing := Listing(t.nodes[n].slots);
      Inode(if name in listing then Some(listing[name]) else None)
    case Entering(n, index) => Inode(EntryOf(NumbersFrom(t.nodes[n].slots, 1), index))
    case Writing(_, _, _) => Done
    case Reading(n, length, offset, leftover) => Contents(t.nodes[n].contents[offset..offset + length])
  }

  predicate AllAdmissible(t: Tree, rs: seq<Request>)
    decreases |rs|
  {
    rs == [] || (Admissible(t, rs[0]) && AllAdmissible(Applied(t, rs[0]), rs[1..]))
  }

  function AppliedAll(t: Tree, rs: seq<Request>): Tree
    requires AllAdmissible(t, rs)
    decreases |rs|
  {
    if rs == [] then t else AppliedAll(Applied(t, rs[0]), rs[1..])
  }

  function AnsweredAll(t: Tree, rs: seq<Request>): (answers: seq<Answer>)
    requires AllAdmissible(t, rs)
    ensures |answers| == |rs|
    decreases |rs|
  {
    if rs == [] then [] else [Answered(t, rs[0])] + AnsweredAll(Applied(t, rs[0]), rs[1..])
  }

  // ---- The invariant ---------------------------------------------------------

  /** Slot k of directory n, behind its first three, names the inode. */
  predicate Link(t: Tree, n: nat, k: nat, inode: nat) {
    IsFolder(t, n) && 3 <= k < |t.nodes[n].slots| && t.nodes[n].slots[k].Item? && t.nodes[n].slots[k].inode == inode
  }

  predicate FolderOk(slots: seq<Slot>, blocks: nat) {
    && |slots| >= 3 && slots[0].Item? && slots[1].Item? && slots[2].Item?
    && NamesDistinct(slots)
    && 48 + 28 * |slots| <= 228 * blocks
  }

  /**
    The root is a directory that nothing names. Every directory has its first three items. Every
    other item, in whatever directory, names a node of its own, other than the directory itself.
   */
  ghost predicate Sound(t: Tree) {
    && IsFolder(t, 0)
    && (forall n :: n in t.nodes ==> n < MAX_INODES)
    && (forall n :: IsFolder(t, n) ==> FolderOk(t.nodes[n].slots, t.nodes[n].blocks))
    && (forall n, k, i :: Link(t, n, k, i) ==> i in t.nodes && i != n && i != 0)
    && (forall n, k, n', k', i :: Link(t, n, k, i) && Link(t, n', k', i) ==> n == n' && k == k')
  }

  lemma PutKeepsFolder(slots: seq<Slot>, blocks: nat, name: seq<Byte>, inode: U32)
    requires FolderOk(slots, blocks) && name !in Listing(slots)
    ensures FirstVacant(slots) >= 3
    ensures var after := Put(slots, Item(name, inode));
            FolderOk(after, BlocksAfter(blocks, 28 * |after|))
  {
    hide NamesDistinct, Listing, Put, Estimate;
    PutIs(slots, Item(name, inode));
    ListingPut(slots, name, inode);
    EstimateIsEnough(28 * |Put(slots, Item(name, inode))|);
  }

  lemma CreateKeepsSound(t: Tree, n: nat, m: nat, name: seq<Byte>, directory: bool)
    requires Sound(t) && IsFolder(t, n) && n < 0x1_0000_0000 && m < MAX_INODES && m !in t.nodes
    requires name !in Listing(t.nodes[n].slots) && 1 + BlocksWith(t, n, Item(name, m)) - t.nodes[n].blocks <= t.free
    ensures Sound(Created(t, n, m, name, directory))
  {
    hide Listing, Put, FirstVacant, Estimate, FolderOk, NamesDistinct;
    var slots, after := t.nodes[n].slots, Created(t, n, m, name, directory);
    PutKeepsFolder(slots, t.nodes[n].blocks, name, m);
    NewFolder(m, n);
    PutIs(slots, Item(name, m));
    var p := FirstVacant(slots);
    forall d, k, i | Link(after, d, k, i)
      ensures if d == n && k == p then i == m else Link(t, d, k, i)
    {
    }
    assert forall d, k, i :: Link(t, d, k, i) ==> i in t.nodes;
  }

  lemma NewFolder(m: U32, n: U32)
    ensures FolderOk(NewSlots(m, n), 1) && |NewSlots(m, n)| == 3
  {
    NewSlotsFacts(m, n);
  }

  /** The tree right after formatting: the root directory only. */
  function RootOnly(): Tree {
    Tree(map[0 := Directory(NewSlots(0, 0), 1)], MAX_BLOCKS - 1)
  }

  lemma RootSound()
    ensures Sound(RootOnly())
  {
    NewFolder(0, 0);
    hide FolderOk;
  }

  lemma RemoveKeepsSound(t: Tree, n: nat, k: nat)
    requires Sound(t) && IsFolder(t, n) && 3 <= k < |t.nodes[n].slots| && t.nodes[n].slots[k].Item?
    ensures Sound(Removed(t, n, k))
  {
    hide Listing;
    var slots, inode, after := t.nodes[n].slots, t.nodes[n].slots[k].inode, Removed(t, n, k);
    assert Link(t, n, k, inode);
    ListingClear(slots, k);
    assert FolderOk(slots[k := Vacant], t.nodes[n].blocks);
    hide FolderOk;
    forall d, j, i | Link(after, d, j, i)
      ensures Link(t, d, j, i) && i != inode
    {
      assert Link(t, d, j, i);
    }
  }

  /** Every request keeps the invariant. */
  lemma StepKeepsSound(t: Tree, r: Request)
    requires Sound(t) && Admissible(t, r)
    ensures Sound(Applied(t, r))
  {
    hide Sound, Created, Removed, Listing, BlocksWith, Overwrite, BlocksAfter;
    match r
    case Creating(n, name, directory, hasAccess, fields) =>
      if IsMade(t, n, name, hasAccess) {
        CreateKeepsSound(t, n, NextNumber(t), name, directory);
      }
    case Removing(n, inode) =>
      var k := Position(t.nodes[n].slots, inode, 3);
      if k != |t.nodes[n].slots| {
        RemoveKeepsSound(t, n, k);
      }
    case Finding(_, _) =>
    case Entering(_, _) =>
    case Writing(n, data, offset) => WriteKeepsSound(t, n, Applied(t, r));
    case Reading(_, _, _, _) =>
  }

  lemma WriteKeepsSound(t: Tree, n: nat, after: Tree)
    requires Sound(t) && IsPlain(t, n) && IsPlain(after, n)
    requires after.nodes == t.nodes[n := after.nodes[n]]
    ensures Sound(after)
  {
    hide FolderOk;
    assert forall d, k, i :: Link(after, d, k, i) ==> Link(t, d, k, i);
    assert forall d :: IsFolder(after, d) ==> IsFolder(t, d) && after.nodes[d] == t.nodes[d];
  }

  /** So does every run. */
  lemma {:induction false} RunKeepsSound(t: Tree, rs: seq<Request>)
    requires Sound(t) && AllAdmissible(t, rs)
    ensures Sound(AppliedAll(t, rs))
    decreases |rs|
  {
    hide Sound, Admissible, Applied;
    if rs != [] {
      StepKeepsSound(t, rs[0]);
      RunKeepsSound(Applied(t, rs[0]), rs[1..]);
    }
  }

  // ---- Directories as maps ---------------------------------------------------

  /** The names of a directory before and after any request. */
  lemma NamesStep(t: Tree, r: Request, d: nat)
    requires Sound(t) && Admissible(t, r) && IsFolder(t, d) && IsFolder(Applied(t, r), d)
    ensures var before, after := Listing(t.nodes[d].slots), Listing(Applied(t, r).nodes[d].slots);
            match r
            case Creating(n, name, _, hasAccess, _) =>
              after == if d == n && hasAccess && name !in before then before[name := NextNumber(t)] else before
            case Removing(n, inode) =>
              var k := Position(t.nodes[n].slots, inode, 3);
              after == if d == n && k < |t.nodes[n].slots| then before - {t.nodes[n].slots[k].name} else before
            case _ => after == before
  {
    hide Listing, Put, Overwrite, Estimate;
    assert FolderOk(t.nodes[d].slots, t.nodes[d].blocks);
    match r
    case Creating(n, name, directory, hasAccess, fields) =>
      if d == n && IsMade(t, n, name, hasAccess) {
        ListingPut(t.nodes[n].slots, name, NextNumber(t));
      }
    case Removing(n, inode) =>
      var k := Position(t.nodes[n].slots, inode, 3);
      if d == n && k < |t.nodes[n].slots| {
        ListingClear(t.nodes[n].slots, k);
      }
    case _ =>
  }

  /** A create after a remove in the same directory takes the vacated slot: the directory does not grow. */
  lemma CreateReusesSlot(t: Tree, n: U32, inode: U32, create: Request)
    requires Sound(t) && Admissible(t, Removing(n, inode)) && Position(t.nodes[n].slots, inode, 3) < |t.nodes[n].slots|
    requires create.Creating? && create.n == n && Admissible(Applied(t, Removing(n, inode)), create)
    ensures var after := Applied(Applied(t, Removing(n, inode)), create);
            && IsFolder(after, n) && |after.nodes[n].slots| == |t.nodes[n].slots|
            && after.nodes[n].blocks == t.nodes[n].blocks
  {
    var k := Position(t.nodes[n].slots, inode, 3);
    RemovedVacates(t, n, k);
    var t' := Applied(t, Removing(n, inode));
    assert t'.nodes[n].slots[k].Vacant?;
    hide Sound, Put, Estimate, Listing, Position, Removed;
    assert !NoneVacant(t'.nodes[n].slots);
  }

  lemma RemovedVacates(t: Tree, n: nat, k: nat)
    requires Sound(t) && IsFolder(t, n) && 3 <= k < |t.nodes[n].slots| && t.nodes[n].slots[k].Item?
    ensures var t' := Removed(t, n, k);
            && IsFolder(t', n) && t'.nodes[n] == Directory(t.nodes[n].slots[k := Vacant], t.nodes[n].blocks)
            && 48 + 28 * |t.nodes[n].slots| <= 228 * t.nodes[n].blocks
  {
    assert Link(t, n, k, t.nodes[n].slots[k].inode);
    assert FolderOk(t.nodes[n].slots, t.nodes[n].blocks);
  }

  // ---- Conservation ----------------------------------------------------------

  /** The blocks held by the nodes with numbers below k. */
  function BlocksBelow(t: Tree, k: nat): nat {
    if k == 0 then 0 else BlocksBelow(t, k - 1) + BlocksOf(t, k - 1)
  }

  /** Trees that differ in the blocks of nodes n and m only. */
  lemma {:induction false} BlocksBelowDiffer(t: Tree, t': Tree, n: nat, m: nat, k: nat)
    requires n != m && forall j: nat :: j != n && j != m ==> BlocksOf(t', j) == BlocksOf(t, j)
    ensures BlocksBelow(t', k) - BlocksBelow(t, k)
         == (if n < k then BlocksOf(t', n) - BlocksOf(t, n) else 0) + (if m < k then BlocksOf(t', m) - BlocksOf(t, m) else 0)
  {
    hide BlocksOf;
    if k > 0 {
      BlocksBelowDiffer(t, t', n, m, k - 1);
    }
  }

  lemma StepConserves(t: Tree, r: Request)
    requires Sound(t) && Admissible(t, r)
    ensures var e := Applied(t, r); e.free + BlocksBelow(e, MAX_INODES) == t.free + BlocksBelow(t, MAX_INODES)
  {
    hide Put, Estimate, Listing, Overwrite, BlocksBelow, NamesDistinct;
    var e := Applied(t, r);
    match r
    case Creating(n, name, directory, hasAccess, fields) =>
      if IsMade(t, n, name, hasAccess) {
        BlocksBelowDiffer(t, e, n, NextNumber(t), MAX_INODES);
      }
    case Removing(n, inode) =>
      var k := Position(t.nodes[n].slots, inode, 3);
      if k != |t.nodes[n].slots| {
        assert Link(t, n, k, inode);
        BlocksBelowDiffer(t, e, n, inode, MAX_INODES);
      }
    case Writing(n, data, offset) =>
      BlocksBelowDiffer(t, e, n, n + 1, MAX_INODES);
    case _ =>
  }

  /** No run of the file system loses or makes a block. */
  lemma {:induction false} BlocksConserved(t: Tree, rs: seq<Request>)
    requires Sound(t) && AllAdmissible(t, rs)
    ensures var e := AppliedAll(t, rs); e.free + BlocksBelow(e, MAX_INODES) == t.free + BlocksBelow(t, MAX_INODES)
    decreases |rs|
  {
    hide Sound, Admissible, Applied, BlocksBelow;
    if rs != [] {
      StepKeepsSound(t, rs[0]);
      StepConserves(t, rs[0]);
      BlocksConserved(Applied(t, rs[0]), rs[1..]);
    }
  }
}
