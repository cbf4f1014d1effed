/** The insertion-sorted array that indexes the heap's holes. */
module OrderedArray {

  /** The index at which item is inserted: behind the items that are less than it. */
  function Position(s: seq<int>, key: int -> int, item: int): (k: nat)
    ensures k <= |s|
    ensures forall j :: 0 <= j < k ==> key(s[j]) < key(item)
    ensures k < |s| ==> key(s[k]) >= key(item)
  {
    if s == [] || key(s[0]) >= key(item) then 0 else 1 + Position(s[1..], key, item)
  }

  lemma PositionIs(s: seq<int>, key: int -> int, item: int, k: nat)
    requires k <= |s| && (forall j :: 0 <= j < k ==> key(s[j]) < key(item)) && (k < |s| ==> key(s[k]) >= key(item))
    ensures Position(s, key, item) == k
  {
  }

  function Inserted(s: seq<int>, key: int -> int, item: int): seq<int> {
    var k := Position(s, key, item);
    s[..k] + [item] + s[k..]
  }

  function Removed(s: seq<int>, i: nat): seq<int>
    requires i < |s|
  {
    s[..i] + s[i + 1..]
  }

  ghost predicate Sorted(s: seq<int>, key: int -> int) {
    forall i, j :: 0 <= i < j < |s| ==> key(s[i]) <= key(s[j])
  }

  /** Insertion keeps a sorted array sorted and adds exactly the item. */
  lemma InsertKeepsSorted(s: seq<int>, key: int -> int, item: int)
    ensures Sorted(s, key) ==> Sorted(Inserted(s, key, item), key)
    ensures multiset(Inserted(s, key, item)) == multiset(s) + multiset{item}
  {
    var k := Position(s, key, item);
    assert s == s[..k] + s[k..];
    if Sorted(s, key) {
      hide Position, Sorted;
      PutInPlace(s, key, item, k);
    }
  }

  lemma PutInPlace(s: seq<int>, key: int -> int, item: int, k: nat)
    requires Sorted(s, key) && k <= |s|
    requires (forall j :: 0 <= j < k ==> key(s[j]) < key(item)) && (k < |s| ==> key(s[k]) >= key(item))
    ensures Sorted(s[..k] + [item] + s[k..], key)
  {
    var r := s[..k] + [item] + s[k..];
    forall j | k <= j < |s| ensures key(item) <= key(s[j]) {
      assert k < j ==> key(s[k]) <= key(s[j]);
    }
    forall i, j | 0 <= i < j < |r| ensures key(r[i]) <= key(r[j]) {
      assert r[i] == if i < k then s[i] else if i == k then item else s[i - 1];
      assert r[j] == if j < k then s[j] else if j == k then item else s[j - 1];
    }
  }

  lemma RemoveKeepsSorted(s: seq<int>, key: int -> int, i: nat)
    requires i < |s|
    ensures Sorted(s, key) ==> Sorted(Removed(s, i), key)
    ensures multiset(Removed(s, i)) == multiset(s) - multiset{s[i]}
  {
    assert s == s[..i] + [s[i]] + s[i + 1..];
  }

  ghost predicate Distinct(s: seq<int>) {
    forall i, j :: 0 <= i < j < |s| ==> s[i] != s[j]
  }

  lemma InsertedMembers(s: seq<int>, key: int -> int, item: int)
    ensures forall x :: x in Inserted(s, key, item) <==> x in s || x == item
    ensures Distinct(s) && item !in s ==> Distinct(Inserted(s, key, item))
  {
    hide Position, Distinct;
    PutMembers(s, item, Position(s, key, item));
  }

  lemma PutMembers(s: seq<int>, item: int, k: nat)
    requires k <= |s|
    ensures forall x :: x in s[..k] + [item] + s[k..] <==> x in s || x == item
    ensures Distinct(s) && item !in s ==> Distinct(s[..k] + [item] + s[k..])
  {
    assert s == s[..k] + s[k..];
    if Distinct(s) && item !in s {
      PutDistinct(s, item, k);
    }
    hide Distinct;
  }

  lemma PutDistinct(s: seq<int>, item: int, k: nat)
    requires k <= |s| && Distinct(s) && item !in s
    ensures Distinct(s[..k] + [item] + s[k..])
  {
    var r := s[..k] + [item] + s[k..];
    forall i, j | 0 <= i < j < |r| ensures r[i] != r[j] {
      assert r[i] == if i < k then s[i] else if i == k then item else s[i - 1];
      assert r[j] == if j < k then s[j] else if j == k then item else s[j - 1];
    }
  }

  lemma InsertedInEmpty(key: int -> int, item: int)
    ensures Inserted([], key, item) == [item]
  {
  }

  lemma RemovedFrom(s: seq<int>, i: nat)
    requires i < |s|
    ensures forall x :: x in Removed(s, i) ==> x in s
  {
  }

  lemma RemovedMembers(s: seq<int>, i: nat)
    requires i < |s| && Distinct(s)
    ensures forall x :: x in Removed(s, i) <==> x in s && x != s[i]
    ensures Distinct(Removed(s, i))
  {
    assert s == s[..i] + [s[i]] + s[i + 1..];
    assert s[i] !in s[..i] && s[i] !in s[i + 1..];
    RemovedDistinct(s, i);
    hide Distinct;
  }

  lemma RemovedDistinct(s: seq<int>, i: nat)
    requires i < |s| && Distinct(s)
    ensures Distinct(Removed(s, i))
  {
    var r := Removed(s, i);
    forall j, k | 0 <= j < k < |r| ensures r[j] != r[k] {
      assert r[j] == s[if j < i then j else j + 1] && r[k] == s[if k < i then k else k + 1];
    }
  }

  class OrderedArray {
    const items: array<int>
    var size: nat

    ghost predicate Valid()
      reads this
    {
      size <= items.Length
    }

    ghost function Contents(): seq<int>
      requires Valid()
      reads this, items
    {
      items[..size]
    }

    /** place_ordered_array. */
    constructor (max: nat)
      ensures Valid() && fresh(items) && items.Length == max && Contents() == []
    {
      items := new int[max](_ => 0);
      size := 0;
    }

    /** The part of insert_ordered_array that moves the items from index k on up by one. */
    method ShiftIn(k: nat, item: int)
      requires k < size < items.Length
      modifies items
      ensures items[..size + 1] == old(items[..k] + [item] + items[k..size])
    {
      ghost var s := items[..size];
      var tmp := items[k];
      items[k] := item;
      var at := k;
      while at < size
        invariant k <= at <= size
        invariant forall j :: 0 <= j < k ==> items[j] == s[j]
        invariant items[k] == item
        invariant forall j :: k < j <= at ==> items[j] == s[j - 1]
        invariant forall j :: at < j < size ==> items[j] == s[j]
        invariant at < size ==> tmp == s[at]
      {
        at := at + 1;
        var tmp2 := items[at];
        items[at] := tmp;
        tmp := tmp2;
      }
    }

    /** insert_ordered_array below capacity. */
    method Insert(item: int, key: int -> int)
      requires Valid() && size < items.Length
      modifies this, items
      ensures Valid() && size == old(size) + 1
      ensures Contents() == Inserted(old(Contents()), key, item)
    {
      ghost var s := Contents();
      var at := 0;
      while at < size && key(items[at]) < key(item)
        invariant 0 <= at <= size == |s| < items.Length
        invariant items[..size] == s
        invariant forall j :: 0 <= j < at ==> key(s[j]) < key(item)
      {
        at := at + 1;
      }
      PositionIs(s, key, item, at);
      ghost var was := s[..at] + [item] + s[at..];
      if at == size {
        items[size] := item;
        size := size + 1;
      } else {
        ShiftIn(at, item);
        size := size + 1;
      }
      assert Contents() == was;
    }

    /** remove_ordered_array below capacity: the shift also copies the cell behind the last item. */
    method Remove(i0: nat)
      requires Valid() && i0 < size < items.Length
      modifies this, items
      ensures Valid() && size == old(size) - 1
      ensures Contents() == Removed(old(Contents()), i0)
    {
      ghost var s := Contents();
      var i := i0;
      while i < size
        invariant i0 <= i <= size == |s| < items.Length
        invariant forall j :: 0 <= j < i0 ==> items[j] == s[j]
        invariant forall j :: i0 <= j < i && j + 1 < size ==> items[j] == s[j + 1]
        invariant forall j :: i <= j < size ==> items[j] == s[j]
      {
        items[i] := items[i + 1];
        i := i + 1;
      }
      size := size - 1;
    }

    /** lookup_ordered_array. */
    method Lookup(i: nat) returns (item: int)
      requires Valid() && i < size
      ensures item == Contents()[i]
    {
      item := items[i];
    }
  }
}
