/** The kernel heap in place: tags in memory, the bounds, and the index of holes. */
module KernelHeap {
  import opened Bytes
  import opened OrderedArray
  import opened HeapValue
  import opened HeapSafety
  import opened HeapFree
  import opened HeapPlaces

  /** What hfree needs of the tags around the block at a: nothing is merged with itself, and the end is not reached. */
  ghost predicate FreeReady(h: HeapState, a: int) {
    && a in h.headers && End(h, a) != a && (MergesLeft(h, a) ==> h.footers[a - 8] in h.headers && End(h, a) != h.footers[a - 8])
    && (MergesRight(h, a) ==> End(h, a) in h.index) && FreedEnd(h, a) != h.end
  }

  /** In a sound heap every block whose hole does not reach the end is ready to be freed. */
  lemma SoundIsFreeReady(h: HeapState, tiles: set<int>, loose: set<int>, a: int)
    requires Sound(h, tiles, loose) && Freeable(h, tiles, loose, a)
    ensures FreeReady(h, a)
  {
    MergesAre(h, tiles, loose, a);
    assert Tile(h, tiles, a);
    if MergesLeft(h, a) {
      assert Tile(h, tiles, FreedStart(h, a));
    }
  }

  /** The heap after the block at a became a hole and was joined with one in front of it. */
  ghost function JoinedLeft(h: HeapState, a: int): HeapState
    requires a in h.headers
  {
    var left := MergesLeft(h, a);
    var b := if left then h.footers[a - 8] else a;
    h.(headers := h.headers[a := Header(true, Size(h, a))][b := Header(true, Size(h, a) + if left then Size(h, b) else 0)],
       footers := FreedFooters(h, a))
  }

  lemma FreeParts(h: HeapState, a: int)
    requires FreeReady(h, a)
    ensures a in h.headers && End(h, a) == a + h.headers[a].size && (MergesRight(h, a) ==> End(h, a) in h.index)
    ensures Free(h, a) == JoinedLeft(h, a).(headers := FreedHeaders(h, a),
      index := if MergesLeft(h, a) then FreedIndex(h, a) else Inserted(FreedIndex(h, a), SizeKey(FreedHeaders(h, a)), a))
  {
    hide FreedHeaders, FreedIndex, FreedFooters, Inserted, SizeKey;
  }

  /** The heap with a new hole at rest. */
  ghost function WithRest(h: HeapState, rest: int, size: int): HeapState {
    var headers := h.headers[rest := Header(true, size)];
    h.(headers := headers, footers := if rest + size - 8 < h.end then h.footers[rest + size - 8 := rest] else h.footers,
       index := Inserted(h.index, SizeKey(headers), rest))
  }

  /** The heap with a block at the start of the hole at index position i, which is gone from the index. */
  ghost function WithBlock(h: HeapState, i: nat, need: int): HeapState
    requires i < |h.index| && h.index[i] in h.headers
  {
    var pos, take := h.index[i], Taken(h, h.index[i], need);
    h.(headers := h.headers[pos := Header(false, take)], footers := h.footers[pos + take - 8 := pos], index := Removed(h.index, i))
  }

  /** A cut: the block first, then what is left of the hole. */
  lemma CutParts(h: HeapState, i: nat, need: int)
    requires i < |h.index| && h.index[i] in h.headers
    ensures var pos, take, rest := h.index[i], Taken(h, h.index[i], need), h.headers[h.index[i]].size - Taken(h, h.index[i], need);
            Cut(h, i, need) ==
              if rest > 0 then WithRest(WithBlock(h, i, need), pos + take, rest) else WithBlock(h, i, need)
  {
    hide Inserted, Removed, SizeKey;
  }

  class Heap {
    var headers: map<int, Header>
    var footers: map<int, int>
    const index: OrderedArray
    var startAddress: int
    var endAddress: int
    const maxAddress: int

    ghost predicate Valid()
      reads this, index
    {
      index.Valid()
    }

    ghost function State(): HeapState
      requires Valid()
      reads this, index, index.items
    {
      HeapState(headers, footers, index.Contents(), startAddress, endAddress, maxAddress)
    }

    /** create_heap. */
    constructor (start: nat, end: nat, max: nat)
      requires start + 0x81000 <= end <= max < 0x1_0000_0000
      ensures Valid() && fresh(index) && fresh(index.items) && index.items.Length == 0x20000
      ensures State() == Created(start, end, max)
    {
      hide Inserted;
      headers, footers := map[], map[];
      index := new OrderedArray(0x20000);
      var first := start + 0x80000;
      if first - first % 0x1000 != 0 {
        first := first - first % 0x1000;
        first := first + 0x1000;
      }
      startAddress, endAddress, maxAddress := first, end, max;
      new;
      headers := headers[first := Header(true, end - first)];
      index.Insert(first, SizeKey(headers));
      InsertedInEmpty(SizeKey(headers), first);
    }

    /** find_smallest_hole without page alignment. */
    method FindSmallestHole(size: int) returns (at: int)
      requires Valid() && forall k :: 0 <= k < index.size ==> index.items[k] in headers
      ensures at == if FirstFit(headers, index.Contents(), size) < index.size then FirstFit(headers, index.Contents(), size) else -1
    {
      ghost var s := index.Contents();
      at := 0;
      while at < index.size && headers[index.items[at]].size < size
        invariant 0 <= at <= index.size
        invariant forall j :: 0 <= j < at ==> SizeKey(headers)(s[j]) < size
      {
        at := at + 1;
      }
      FirstFitIs(headers, s, size, at);
      if at == index.size {
        at := -1;
      }
    }

    /** expand, without the page frames it maps. An end beyond the maximum address is only logged. */
    method Expand(newSize: nat)
      modifies this`endAddress
      ensures endAddress == startAddress + Rounded(newSize)
      ensures NextPage(newSize, endAddress - startAddress)
    {
      var size := newSize;
      if size - size % 0x1000 != 0 {
        size := size - size % 0x1000;
        size := size + 0x1000;
      }
      endAddress := startAddress + size;
    }

    /** The scan of halloc for the hole with the largest address. */
    method FindEndmost() returns (idx: int)
      requires Valid()
      ensures idx == Endmost(index.Contents(), index.size)
    {
      ghost var s := index.Contents();
      idx := -1;
      var at, value := 0, 0;
      while at < index.size
        invariant 0 <= at <= index.size && idx == Endmost(s, at) && value == if idx == -1 then 0 else s[idx]
      {
        var tmp := index.Lookup(at);
        if tmp > value {
          value := tmp;
          idx := at;
        }
        at := at + 1;
      }
    }

    /** The part of halloc that makes room when no hole fits. */
    method Grow(need: nat)
      requires Valid() && Ready(State()) && 0 < index.items.Length && index.size < index.items.Length
      modifies this, index, index.items
      ensures Valid() && State() == Grown(old(State()), need)
      ensures var length := old(endAddress - startAddress) + need;
              && startAddress == old(startAddress)
              && NextPage(length, endAddress - startAddress)
    {
      hide Inserted, Position, Rounded, Endmost, NextPage, SizeKey, Freed, Placed;
      var oldLength, oldEnd := endAddress - startAddress, endAddress;
      Expand(oldLength + need);
      var newLength := endAddress - startAddress;
      var idx := FindEndmost();
      if idx == -1 {
        headers := headers[oldEnd := Header(true, newLength - oldLength)];
        footers := footers[oldEnd + (newLength - oldLength) - 8 := oldEnd];
        index.Insert(oldEnd, SizeKey(headers));
      } else {
        var header := index.Lookup(idx);
        headers := headers[header := headers[header].(size := headers[header].size + (newLength - oldLength))];
        footers := footers[header + headers[header].size - 8 := header];
      }
    }

    /** The part of halloc that cuts the block from the hole at index position at. */
    method CutHole(at: nat, need: int)
      requires Valid() && at < index.size < index.items.Length && index.items[at] in headers
      modifies this, index, index.items
      ensures Valid() && State() == Cut(old(State()), at, need)
    {
      hide *;
      AtHole(at);
      CutParts(State(), at, need);
      var rest, size := TakeBlock(at, need);
      if size > 0 {
        AddRest(rest, size);
      }
    }

    lemma AtHole(at: nat)
      requires Valid() && at < index.size < index.items.Length && index.items[at] in headers
      ensures at < |State().index| && State().index[at] == index.items[at] && State().headers == headers
    {
    }

    /** Its first part: the hole leaves the index, and its front becomes a block. */
    method TakeBlock(at: nat, need: int) returns (rest: int, size: int)
      requires Valid() && at < index.size < index.items.Length && index.items[at] in headers
      modifies this`headers, this`footers, index, index.items
      ensures Valid() && index.size < index.items.Length && State() == WithBlock(old(State()), at, need)
      ensures rest == old(index.items[at]) + Taken(old(State()), old(index.items[at]), need)
      ensures size == old(headers[index.items[at]]).size - Taken(old(State()), old(index.items[at]), need)
    {
      hide Removed;
      var pos := index.Lookup(at);
      var holeSize := headers[pos].size;
      var newSize := need;
      if holeSize - newSize < 17 {
        newSize := holeSize;
      }
      index.Remove(at);
      headers := headers[pos := Header(false, newSize)];
      footers := footers[pos + newSize - 8 := pos];
      rest, size := pos + newSize, holeSize - newSize;
    }

    /** Its last part: what is left of the hole becomes a hole of its own. */
    method AddRest(rest: int, size: int)
      requires Valid() && index.size < index.items.Length
      modifies this`headers, this`footers, index, index.items
      ensures Valid() && State() == WithRest(old(State()), rest, size)
    {
      hide Inserted;
      headers := headers[rest := Header(true, size)];
      var footer := rest + size - 8;
      if footer < endAddress {
        footers := footers[footer := rest];
      }
      index.Insert(rest, SizeKey(headers));
    }

    /** halloc without page alignment; its measure allows one call of itself. */
    method Halloc(size: U32) returns (data: int)
      requires Valid() && Ready(State()) && index.size < index.items.Length && 1 < index.items.Length
      modifies this, index, index.items
      ensures Valid() && State() == Alloc(old(State()), size).heap && data == Alloc(old(State()), size).data
      ensures Placed(old(State()), size, State(), data)
      decreases if FirstFit(headers, index.Contents(), Need(size)) < index.size then 0 else 1
    {
      hide Grown, Cut, ToU32, FirstFit, Rounded;
      var need := Need(size);
      ghost var h := State();
      AllocPlaced(h, size);
      forall k | 0 <= k < index.size ensures index.items[k] in headers {
        assert h.index[k] == index.items[k];
      }
      var at := FindSmallestHole(need);
      if at == -1 {
        GrownFits(h, need);
        Grow(need);
        data := Halloc(size);
        return;
      }
      var pos := index.Lookup(at);
      CutHole(at, need);
      data := pos + 9;
    }

    /** The search of hfree for a header in the index. */
    method Find(header: int) returns (at: nat)
      requires Valid()
      ensures at == IndexOf(index.Contents(), header)
    {
      ghost var s := index.Contents();
      at := 0;
      while at < index.size && index.items[at] != header
        invariant 0 <= at <= index.size
        invariant forall j :: 0 <= j < at ==> s[j] != header
      {
        at := at + 1;
      }
      IndexOfIs(s, header, at);
    }

    /** The part of hfree that marks the block and joins it with a hole in front of it. */
    method JoinLeft(a: int) returns (header: int, doAdd: bool)
      requires Valid() && FreeReady(State(), a)
      modifies this`headers, this`footers
      ensures State() == JoinedLeft(old(State()), a)
      ensures doAdd == !MergesLeft(old(State()), a) && header == if doAdd then a else old(footers)[a - 8]
    {
      header, doAdd := a, true;
      var footer := header + headers[header].size - 8;
      headers := headers[header := headers[header].(isHole := true)];
      if header - 8 in footers && footers[header - 8] in headers && headers[footers[header - 8]].isHole {
        var cacheSize := headers[header].size;
        header := footers[header - 8];
        footers := footers[footer := header];
        headers := headers[header := headers[header].(size := headers[header].size + cacheSize)];
        doAdd := false;
      }
    }

    /** The part of hfree that joins the new hole with one behind it, which leaves the index. */
    method JoinRight(header: int, testHeader: int, ghost h: HeapState, ghost a: int)
      requires Valid() && index.size < index.items.Length && FreeReady(h, a) && State() == JoinedLeft(h, a)
      requires header == (if MergesLeft(h, a) then h.footers[a - 8] else a) && testHeader == End(h, a)
      modifies this`headers, index, index.items
      ensures Valid() && index.size <= old(index.size)
      ensures State() == JoinedLeft(h, a).(headers := FreedHeaders(h, a), index := FreedIndex(h, a))
    {
      hide Removed, IndexOf;
      if testHeader in headers && headers[testHeader].isHole {
        headers := headers[header := headers[header].(size := headers[header].size + headers[testHeader].size)];
        var at := Find(testHeader);
        index.Remove(at);
      }
    }

    /** hfree of a block whose hole does not reach the heap end. */
    method Hfree(p: int)
      requires Valid() && (p != 0 ==> FreeReady(State(), p - 9) && index.size < index.items.Length)
      modifies this, index, index.items
      ensures Valid() && State() == if p == 0 then old(State()) else Free(old(State()), p - 9)
      ensures p != 0 ==> Freed(old(State()), p - 9, State())
    {
      if p == 0 {
        return;
      }
      ghost var h := State();
      FreeParts(h, p - 9);
      FreePlaced(h, p - 9);
      hide *;
      var testHeader := (p - 9) + headers[p - 9].size;
      var header, doAdd := JoinLeft(p - 9);
      JoinRight(header, testHeader, h, p - 9);
      if doAdd {
        index.Insert(header, SizeKey(headers));
      }
    }
  }
}
