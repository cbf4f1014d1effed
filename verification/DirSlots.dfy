/**
  A directory as its users see it: a row of slots, some of them vacant, and the map from names to
  inode numbers they make up.
 */
module DirSlots {
  import opened Bytes
  import opened CStrings
  import opened DiskLayout
  import opened DirRecords

  datatype Slot = Vacant | Item(name: seq<Byte>, inode: U32)

  function SlotOf(r: Record): Slot {
    if r.Live() then Item(Text(r.name), r.inode) else Vacant
  }

  function Slots(rs: seq<Record>): (slots: seq<Slot>)
    ensures |slots| == |rs|
    ensures forall k :: 0 <= k < |rs| ==> slots[k] == SlotOf(rs[k])
  {
    seq(|rs|, k requires 0 <= k < |rs| => SlotOf(rs[k]))
  }

  // The names "\\", "." and "..".
  const ROOT: seq<Byte> := [92]
  const SELF: seq<Byte> := [46]
  const PARENT: seq<Byte> := [46, 46]

  /** The slots of a new directory: the root, the directory itself, and its parent. */
  function NewSlots(n: U32, parent: U32): seq<Slot> {
    [Item(ROOT, 0), Item(SELF, n), Item(PARENT, parent)]
  }

  predicate NoneVacant(slots: seq<Slot>) {
    forall k :: 0 <= k < |slots| ==> slots[k].Item?
  }

  /** The slots after an item was added: the first vacant slot is taken, or a new one. */
  function Put(slots: seq<Slot>, item: Slot): (r: seq<Slot>)
    ensures |r| == |slots| + if NoneVacant(slots) then 1 else 0
  {
    if slots == [] then [item]
    else if slots[0].Vacant? then [item] + slots[1..]
    else
      assert NoneVacant(slots) <==> NoneVacant(slots[1..]) by {
        assert NoneVacant(slots[1..]) ==> forall k :: 1 <= k < |slots| ==> slots[k] == slots[1..][k - 1];
      }
      [slots[0]] + Put(slots[1..], item)
  }

  /** Where an item goes. */
  function FirstVacant(slots: seq<Slot>): (k: nat)
    ensures k <= |slots| && (k < |slots| ==> slots[k].Vacant?) && forall j :: 0 <= j < k ==> slots[j].Item?
  {
    if slots == [] || slots[0].Vacant? then 0 else 1 + FirstVacant(slots[1..])
  }

  lemma {:induction false} PutIs(slots: seq<Slot>, item: Slot)
    ensures var k := FirstVacant(slots); Put(slots, item) == if k < |slots| then slots[k := item] else slots + [item]
  {
    if slots != [] && slots[0].Item? {
      PutIs(slots[1..], item);
      var k := FirstVacant(slots[1..]);
      if k < |slots| - 1 {
        assert [slots[0]] + slots[1..][k := item] == slots[k + 1 := item];
      } else {
        assert [slots[0]] + (slots[1..] + [item]) == slots + [item];
      }
    } else if slots != [] {
      assert [item] + slots[1..] == slots[0 := item];
    }
  }

  /** _appendFile on the records is adding an item to the slots. */
  lemma {:induction false} SlotsAppended(rs: seq<Record>, r: Record)
    ensures Slots(Appended(rs, r)) == Put(Slots(rs), SlotOf(r))
  {
    hide SlotOf;
    if rs == [] {
    } else if !rs[0].Live() {
      VacantIs(rs[0]);
      assert Slots(rs)[1..] == Slots(rs[1..]);
    } else {
      VacantIs(rs[0]);
      SlotsAppended(rs[1..], r);
      assert Slots(rs)[1..] == Slots(rs[1..]);
    }
  }

  lemma AllLiveSlots(rs: seq<Record>)
    ensures AllLive(rs) <==> NoneVacant(Slots(rs))
  {
    forall k | 0 <= k < |rs| ensures rs[k].Live() <==> Slots(rs)[k].Item? {
      VacantIs(rs[k]);
    }
    hide SlotOf;
  }

  lemma AppendedSlots(rs: seq<Record>, item: Slot)
    ensures RecordsAfter(rs) == |Put(Slots(rs), item)|
  {
    AllLiveSlots(rs);
    hide Slots, NoneVacant, AllLive;
  }

  /** The three items of a new directory, added one by one. */
  lemma NewSlotsPut(n: U32, parent: U32)
    ensures Put(Put(Put([], Item(ROOT, 0)), Item(SELF, n)), Item(PARENT, parent)) == NewSlots(n, parent)
    ensures Put([], Item(ROOT, 0)) == [Item(ROOT, 0)]
    ensures Put([Item(ROOT, 0)], Item(SELF, n)) == [Item(ROOT, 0), Item(SELF, n)]
    ensures NoneVacant([]) && NoneVacant([Item(ROOT, 0)]) && NoneVacant([Item(ROOT, 0), Item(SELF, n)])
  {
    PutIs([], Item(ROOT, 0));
    PutIs([Item(ROOT, 0)], Item(SELF, n));
    PutIs([Item(ROOT, 0), Item(SELF, n)], Item(PARENT, parent));
  }

  lemma NewSlotsFacts(n: U32, parent: U32)
    ensures |NewSlots(n, parent)| == 3 && NamesDistinct(NewSlots(n, parent)) && NoneVacant(NewSlots(n, parent))
    ensures Listing(NewSlots(n, parent)) == map[ROOT := 0, SELF := n, PARENT := parent]
    ensures SELF !in Listing([Item(ROOT, 0)]) && PARENT !in Listing([Item(ROOT, 0), Item(SELF, n)]) && ROOT !in Listing([])
    ensures |ROOT| < MAX_NAME_LENGTH && |SELF| < MAX_NAME_LENGTH && |PARENT| < MAX_NAME_LENGTH
    ensures 0 !in ROOT && 0 !in SELF && 0 !in PARENT
  {
    var a, b, c := Item(ROOT, 0), Item(SELF, n), Item(PARENT, parent);
    assert [a, b, c][..2] == [a, b] && [a, b][..1] == [a] && [a][..0] == [];
    assert ROOT[0] != SELF[0] && |SELF| != |PARENT|;
    assert Listing([a]) == map[ROOT := 0];
    assert Listing([a, b]) == map[ROOT := 0, SELF := n];
    assert Listing([a, b, c]) == map[ROOT := 0, SELF := n, PARENT := parent];
  }

  lemma VacantIs(r: Record)
    ensures SlotOf(r).Vacant? <==> !r.Live()
  {
  }

  lemma SlotsCleared(rs: seq<Record>, k: nat)
    requires k < |rs|
    ensures Slots(rs[k := rs[k].(inode := REMOVED)]) == Slots(rs)[k := Vacant]
  {
    VacantIs(rs[k].(inode := REMOVED));
    hide SlotOf;
  }

  // ---- The map of names ------------------------------------------------------

  predicate NamesDistinct(slots: seq<Slot>) {
    forall i, j :: 0 <= i < |slots| && 0 <= j < |slots| && slots[i].Item? && slots[j].Item? && slots[i].name == slots[j].name ==>
      i == j
  }

  lemma SlotsDistinct(rs: seq<Record>)
    requires DirOk(rs)
    ensures NamesDistinct(Slots(rs))
  {
    hide Text;
  }

  /** The names in the slots, with their inode numbers. */
  function Listing(slots: seq<Slot>): map<seq<Byte>, U32> {
    if slots == [] then map[]
    else
      var rest, last := Listing(slots[..|slots| - 1]), slots[|slots| - 1];
      if last.Item? then rest[last.name := last.inode] else rest
  }

  ghost predicate ItemAt(slots: seq<Slot>, k: nat, name: seq<Byte>) {
    k < |slots| && slots[k].Item? && slots[k].name == name
  }

  lemma {:induction false} ListingFacts(slots: seq<Slot>)
    requires NamesDistinct(slots)
    ensures forall name :: name in Listing(slots) ==> exists k: nat :: ItemAt(slots, k, name)
    ensures forall k: nat, name :: ItemAt(slots, k, name) ==> name in Listing(slots) && Listing(slots)[name] == slots[k].inode
  {
    if slots != [] {
      var m := |slots| - 1;
      ListingFacts(slots[..m]);
      forall name | name in Listing(slots) ensures exists k: nat :: ItemAt(slots, k, name) {
        if name in Listing(slots[..m]) {
          var k: nat :| ItemAt(slots[..m], k, name);
          assert ItemAt(slots, k, name);
        } else {
          assert ItemAt(slots, m, name);
        }
      }
      forall k: nat, name | ItemAt(slots, k, name)
        ensures name in Listing(slots) && Listing(slots)[name] == slots[k].inode
      {
        assert k < m ==> ItemAt(slots[..m], k, name);
      }
    }
  }

  lemma ListingIs(slots: seq<Slot>, m: map<seq<Byte>, U32>)
    requires NamesDistinct(slots)
    requires forall name :: name in m ==> exists k: nat :: ItemAt(slots, k, name)
    requires forall k: nat, name :: ItemAt(slots, k, name) ==> name in m && m[name] == slots[k].inode
    ensures Listing(slots) == m
  {
    hide NamesDistinct, Listing;
    ListingFacts(slots);
    var l := Listing(slots);
    assert forall name :: name in l <==> name in m;
    forall name | name in m ensures l[name] == m[name] {
      var k: nat :| ItemAt(slots, k, name);
    }
  }

  /** The map a directory's records stand for is the one its slots make up. */
  lemma ListingIsEntries(rs: seq<Record>)
    requires DirOk(rs)
    ensures Listing(Slots(rs)) == Entries(rs)
  {
    hide Text, Listing, Entries, NamesDistinct, DirOk;
    SlotsDistinct(rs);
    forall name | name in Entries(rs) ensures exists k: nat :: ItemAt(Slots(rs), k, name) {
      var k: nat :| Names(rs, k, name);
      assert ItemAt(Slots(rs), k, name);
    }
    forall k: nat, name | ItemAt(Slots(rs), k, name)
      ensures name in Entries(rs) && Entries(rs)[name] == Slots(rs)[k].inode
    {
      assert Names(rs, k, name);
    }
    ListingIs(Slots(rs), Entries(rs));
  }

  /** Adding an item with a fresh name adds exactly that name. */
  lemma ListingPut(slots: seq<Slot>, name: seq<Byte>, inode: U32)
    requires NamesDistinct(slots) && name !in Listing(slots)
    ensures NamesDistinct(Put(slots, Item(name, inode)))
    ensures Listing(Put(slots, Item(name, inode))) == Listing(slots)[name := inode]
  {
    hide Listing, Put;
    var after, k := Put(slots, Item(name, inode)), FirstVacant(slots);
    PutIs(slots, Item(name, inode));
    ListingFacts(slots);
    forall i | 0 <= i < |slots| && slots[i].Item? ensures slots[i].name != name {
      assert ItemAt(slots, i, slots[i].name);
    }
    assert NamesDistinct(after);
    hide NamesDistinct;
    assert ItemAt(after, k, name);
    assert forall i: nat, n :: ItemAt(slots, i, n) ==> ItemAt(after, i, n);
    assert forall i: nat, n :: ItemAt(after, i, n) ==> (ItemAt(slots, i, n) && after[i] == slots[i]) || (i == k && n == name);
    ListingIs(after, Listing(slots)[name := inode]);
  }

  /** Vacating a slot removes exactly its name. */
  lemma ListingClear(slots: seq<Slot>, k: nat)
    requires NamesDistinct(slots) && k < |slots| && slots[k].Item?
    ensures NamesDistinct(slots[k := Vacant]) && Listing(slots[k := Vacant]) == Listing(slots) - {slots[k].name}
  {
    hide Listing;
    var after, name := slots[k := Vacant], slots[k].name;
    ListingFacts(slots);
    assert NamesDistinct(after);
    assert ItemAt(slots, k, name);
    assert forall i: nat, n :: ItemAt(slots, i, n) && n != name ==> ItemAt(after, i, n);
    assert forall i: nat, n :: ItemAt(after, i, n) ==> ItemAt(slots, i, n) && n != name;
    hide NamesDistinct;
    ListingIs(after, Listing(slots) - {name});
  }

  // ---- By number -------------------------------------------------------------

  /** What the first word of a slot's record says. */
  function Number(slot: Slot): U32 {
    if slot.Item? then slot.inode else REMOVED
  }

  /** The first slot from k on with the number, or the number of slots. */
  function Position(slots: seq<Slot>, inode: U32, k: nat): (i: nat)
    ensures i <= |slots| && (i < |slots| ==> k <= i && Number(slots[i]) == inode)
    ensures forall j :: k <= j < i ==> Number(slots[j]) != inode
    decreases |slots| - k
  {
    if k >= |slots| then |slots| else if Number(slots[k]) == inode then k else Position(slots, inode, k + 1)
  }

  lemma PositionIs(slots: seq<Slot>, inode: U32, k: nat, i: nat)
    requires k <= i <= |slots| && (i < |slots| ==> Number(slots[i]) == inode) && forall j :: k <= j < i ==> Number(slots[j]) != inode
    ensures Position(slots, inode, k) == i
  {
  }

  lemma NumberIs(r: Record)
    ensures Number(SlotOf(r)) == r.inode
  {
  }

  lemma PositionOfRecord(rs: seq<Record>, inode: U32, k: nat)
    requires k <= |rs|
    ensures Position(Slots(rs), inode, k) == IndexOf(rs, inode, k)
  {
    forall j | 0 <= j < |rs| ensures Number(Slots(rs)[j]) == rs[j].inode {
      NumberIs(rs[j]);
    }
    hide SlotOf, Number, Slots, Position, IndexOf;
    PositionIs(Slots(rs), inode, k, IndexOf(rs, inode, k));
  }

  /** The inode numbers in the slots from n on, in order. */
  function NumbersFrom(slots: seq<Slot>, n: nat): seq<U32>
    decreases |slots| - n
  {
    if n >= |slots| then [] else (if slots[n].Item? then [slots[n].inode] else []) + NumbersFrom(slots, n + 1)
  }

  lemma {:induction false} NumbersOfLive(rs: seq<Record>, n: nat)
    ensures |NumbersFrom(Slots(rs), n)| == |LiveFrom(rs, n)|
    ensures forall i :: 0 <= i < |LiveFrom(rs, n)| ==> NumbersFrom(Slots(rs), n)[i] == LiveFrom(rs, n)[i].inode
    decreases |rs| - n
  {
    hide Text;
    if n < |rs| {
      NumbersOfLive(rs, n + 1);
    }
  }
}
