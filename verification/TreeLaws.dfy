/** What each request answers and changes, said of the slots and nodes themselves. */
module TreeLaws {
  import opened Bytes
  import opened DiskLayout
  import opened DirRecords
  import opened DirSlots
  import opened FileTrees
  import opened Options
  import opened Reservation

  /** How many of the slots from i on and before k are taken. */
  ghost function CountItems(slots: seq<Slot>, i: nat, k: nat): nat {
    |set j | 0 <= j < |slots| && slots[j].Item? && i <= j < k|
  }

  lemma CountItemsFrom(slots: seq<Slot>, i: nat, k: nat)
    requires i < k <= |slots|
    ensures CountItems(slots, i, k) == CountItems(slots, i + 1, k) + if slots[i].Item? then 1 else 0
  {
    var all := set j | 0 <= j < |slots| && slots[j].Item? && i <= j < k;
    var rest := set j | 0 <= j < |slots| && slots[j].Item? && i + 1 <= j < k;
    assert all == rest + if slots[i].Item? then {i} else {};
  }

  lemma CountNoItems(slots: seq<Slot>, i: nat, k: nat)
    requires k <= i || |slots| <= i
    ensures CountItems(slots, i, k) == 0
  {
    assert (set j | 0 <= j < |slots| && slots[j].Item? && i <= j < k) == {};
  }

  lemma {:induction false} NumbersFromAt(slots: seq<Slot>, n: nat, k: nat)
    requires n <= k < |slots| && slots[k].Item?
    ensures CountItems(slots, n, k) < |NumbersFrom(slots, n)| && NumbersFrom(slots, n)[CountItems(slots, n, k)] == slots[k].inode
    decreases k - n
  {
    if n < k {
      NumbersFromAt(slots, n + 1, k);
      CountItemsFrom(slots, n, k);
    } else {
      CountNoItems(slots, n, k);
    }
  }

  lemma {:induction false} NumbersFromSize(slots: seq<Slot>, n: nat)
    ensures |NumbersFrom(slots, n)| == CountItems(slots, n, |slots|)
    decreases |slots| - n
  {
    if n < |slots| {
      NumbersFromSize(slots, n + 1);
      CountItemsFrom(slots, n, |slots|);
    } else {
      CountNoItems(slots, n, |slots|);
    }
  }

  /**
    fs_readdir lists a directory: with index i it answers the item behind the first that has i items in
    between, and none from their total on. In a sound tree there are at least two, so that the case of
    the greatest index does not arise.
   */
  lemma ListingAnswers(t: Tree, n: U32, index: U32)
    requires Sound(t) && Admissible(t, Entering(n, index))
    ensures var slots := t.nodes[n].slots;
            && (forall k :: 1 <= k < |slots| && slots[k].Item? && CountItems(slots, 1, k) == index ==>
                  Answered(t, Entering(n, index)) == Inode(Some(slots[k].inode)))
            && (index >= CountItems(slots, 1, |slots|) ==> Answered(t, Entering(n, index)) == Inode(None))
            && CountItems(slots, 1, |slots|) >= 2
    ensures Applied(t, Entering(n, index)) == t
  {
    var slots := t.nodes[n].slots;
    assert FolderOk(slots, t.nodes[n].blocks);
    CountItemsFrom(slots, 1, |slots|);
    CountItemsFrom(slots, 2, |slots|);
    NumbersFromSize(slots, 1);
    hide NumbersFrom, CountItems, Sound;
    forall k | 1 <= k < |slots| && slots[k].Item?
      ensures CountItems(slots, 1, k) < |NumbersFrom(slots, 1)| && NumbersFrom(slots, 1)[CountItems(slots, 1, k)] == slots[k].inode
    {
      NumbersFromAt(slots, 1, k);
    }
  }

  /** fs_finddir answers the number of the item with the name, and none if there is no such item. */
  lemma FindAnswers(t: Tree, n: U32, name: seq<Byte>)
    requires Sound(t) && Admissible(t, Finding(n, name))
    ensures var slots := t.nodes[n].slots;
            && (forall k :: 0 <= k < |slots| && slots[k].Item? && slots[k].name == name ==>
                  Answered(t, Finding(n, name)) == Inode(Some(slots[k].inode)))
            && ((forall k :: 0 <= k < |slots| && slots[k].Item? ==> slots[k].name != name) ==>
                  Answered(t, Finding(n, name)) == Inode(None))
    ensures Applied(t, Finding(n, name)) == t
  {
    var slots := t.nodes[n].slots;
    assert FolderOk(slots, t.nodes[n].blocks);
    ListingFacts(slots);
    forall k | 0 <= k < |slots| && slots[k].Item? ensures ItemAt(slots, k, slots[k].name) {
    }
    hide Listing, Sound;
  }

  /** Some item of the directory has the name. */
  predicate HasName(slots: seq<Slot>, name: seq<Byte>) {
    exists k :: 0 <= k < |slots| && slots[k].Item? && slots[k].name == name
  }

  /** fs_createdir: refused for want of access, or for a name that is there; else the lowest free number is given. */
  lemma CreateAnswers(t: Tree, n: U32, name: seq<Byte>, directory: bool, hasAccess: bool, fields: FileHeader)
    requires Sound(t) && Admissible(t, Creating(n, name, directory, hasAccess, fields))
    ensures var answer, e := Answered(t, Creating(n, name, directory, hasAccess, fields)), Applied(t, Creating(n, name, directory, hasAccess, fields));
            && (!hasAccess ==> answer == Made(-1, E_ACCESS) && e == t)
            && (hasAccess && HasName(t.nodes[n].slots, name) ==> answer == Made(-1, E_FILE_EXISTS) && e == t)
            && (hasAccess && !HasName(t.nodes[n].slots, name) ==>
                  && answer.Made? && answer.error == 0 && 0 <= answer.inode < MAX_INODES
                  && CreatedAt(t, e, n, answer.inode, name, directory))
  {
    var slots := t.nodes[n].slots;
    assert FolderOk(slots, t.nodes[n].blocks);
    ListingFacts(slots);
    assert HasName(slots, name) <==> name in Listing(slots) by {
      if HasName(slots, name) {
        var k: nat :| k < |slots| && slots[k].Item? && slots[k].name == name;
        assert ItemAt(slots, k, name);
      }
    }
    PutIs(slots, Item(name, NextNumber(t)));
    hide Listing, Put, Sound, Estimate, NamesDistinct;
  }

  /** The new node, with the lowest number, and its item in the first vacant slot or behind all; nothing else changes. */
  ghost predicate CreatedAt(t: Tree, e: Tree, n: nat, m: nat, name: seq<Byte>, directory: bool) {
    && m < 0x1_0000_0000 && m !in t.nodes && (forall j: nat :: j < m ==> j in t.nodes)
    && e.nodes.Keys == t.nodes.Keys + {m} && IsFolder(t, n) && IsFolder(e, n) && n < 0x1_0000_0000
    && (forall j :: j in t.nodes && j != n ==> e.nodes[j] == t.nodes[j])
    && e.nodes[m] == (if directory then Directory([Item([92], 0), Item([46], m), Item([46, 46], n)], 1) else Plain([], 1))
    && var slots, after := t.nodes[n].slots, e.nodes[n].slots;
       exists p: nat :: p <= |slots| && (forall k :: 0 <= k < p ==> slots[k].Item?) && (p < |slots| ==> slots[p].Vacant?)
                        && after == if p < |slots| then slots[p := Item(name, m)] else slots + [Item(name, m)]
  }

  /** Slot k is the first one behind the third that names the inode. */
  predicate FirstNaming(slots: seq<Slot>, inode: U32, k: nat) {
    && 3 <= k < |slots| && slots[k].Item? && slots[k].inode == inode
    && forall j :: 3 <= j < k && slots[j].Item? ==> slots[j].inode != inode
  }

  /** fs_removedir vacates the first slot behind the third that names the inode, and deletes the node; else it is refused. */
  lemma RemoveAnswers(t: Tree, n: U32, inode: U32)
    requires Sound(t) && Admissible(t, Removing(n, inode))
    ensures var answer, e, slots := Answered(t, Removing(n, inode)), Applied(t, Removing(n, inode)), t.nodes[n].slots;
            && (forall k: nat :: FirstNaming(slots, inode, k) ==>
                  && answer == Status(0)
                  && inode in t.nodes && inode != n && e.nodes.Keys == t.nodes.Keys - {inode as nat}
                  && (forall j :: j in e.nodes && j != n ==> e.nodes[j] == t.nodes[j])
                  && IsFolder(e, n) && e.nodes[n].slots == slots[k := Vacant] && e.nodes[n].blocks == t.nodes[n].blocks
                  && e.free == t.free + t.nodes[inode].blocks)
            && ((forall k :: 3 <= k < |slots| && slots[k].Item? ==> slots[k].inode != inode) ==>
                  answer == Status(E_FILE_NOT_EXISTS) && e == t)
  {
    var slots, k := t.nodes[n].slots, Position(t.nodes[n].slots, inode, 3);
    forall i: nat | FirstNaming(slots, inode, i) ensures inode != REMOVED ==> i == k {
    }
    hide Position;
    if k < |slots| {
      assert slots[k].Item?;
      assert Link(t, n, k, inode);
    }
    hide Sound, FolderOk;
  }

  /** Bytes written to a plain file are there afterwards, all other bytes are as before, and so is every other node. */
  lemma WriteAnswers(t: Tree, n: U32, data: seq<Byte>, offset: U32)
    requires Admissible(t, Writing(n, data, offset))
    ensures var e := Applied(t, Writing(n, data, offset));
            && Answered(t, Writing(n, data, offset)) == Done
            && e.nodes.Keys == t.nodes.Keys && IsPlain(e, n) && (forall j :: j in t.nodes && j != n ==> e.nodes[j] == t.nodes[j])
            && var was, now := t.nodes[n].contents, e.nodes[n].contents;
               && |now| == (if offset + |data| > |was| then offset + |data| else |was|)
               && (forall i :: 0 <= i < |data| ==> now[offset + i] == data[i])
               && (forall i :: 0 <= i < |was| && !(offset <= i < offset + |data|) ==> now[i] == was[i])
  {
    hide Estimate;
  }

  /** A read answers the bytes that are there. */
  lemma ReadAnswers(t: Tree, n: U32, length: U32, offset: U32, leftover: int)
    requires Admissible(t, Reading(n, length, offset, leftover))
    ensures var answer := Answered(t, Reading(n, length, offset, leftover));
            && answer.Contents? && |answer.bytes| == length
            && (forall i :: 0 <= i < length ==> answer.bytes[i] == t.nodes[n].contents[offset + i])
    ensures Applied(t, Reading(n, length, offset, leftover)) == t
  {
  }

  /** So what was written is read back, until something else is written there. */
  lemma ReadAfterWrite(t: Tree, n: U32, data: seq<Byte>, offset: U32, leftover: int)
    requires Admissible(t, Writing(n, data, offset)) && (leftover != 0 || offset < 180)
    ensures Admissible(Applied(t, Writing(n, data, offset)), Reading(n, |data|, offset, leftover))
    ensures Answered(Applied(t, Writing(n, data, offset)), Reading(n, |data|, offset, leftover)) == Contents(data)
  {
    WriteAnswers(t, n, data, offset);
    var e := Applied(t, Writing(n, data, offset));
    hide Applied;
    ReadAnswers(e, n, |data|, offset, leftover);
  }
}
