/** Runs of halloc from create_heap. */
module HeapRuns {
  import opened Bytes
  import opened OrderedArray
  import opened HeapValue
  import opened HeapSafety

  lemma CreatedSound(start: nat, end: nat, max: nat)
    requires start + 0x81011 <= end
    ensures var h := Created(start, end, max);
            Sound(h, {h.start}, {}) && HoleAtEnd(h, {h.start}) && start + 0x80000 <= h.start <= start + 0x81000
  {
    var h := Created(start, end, max);
    assert Tile(h, {h.start}, h.start);
  }

  /** With its only hole at the end a heap has at most one index entry, and that hole abuts the end. */
  lemma OneHoleAtEnd(h: HeapState, tiles: set<int>, loose: set<int>)
    requires Sound(h, tiles, loose) && HoleAtEnd(h, tiles)
    ensures |h.index| <= 1 && AbutsEnd(h)
  {
    SoundIsReady(h, tiles, loose);
    if |h.index| > 1 {
      HolesSame(h, tiles, loose, 0, 1);
    }
  }

  lemma HolesSame(h: HeapState, tiles: set<int>, loose: set<int>, j: nat, k: nat)
    requires Sound(h, tiles, loose) && HoleAtEnd(h, tiles) && j < |h.index| && k < |h.index|
    ensures h.index[j] == h.index[k]
  {
    assert h.index[j] in h.index && h.index[k] in h.index;
    LastTileUnique(h, tiles, h.index[j], h.index[k]);
  }

  /** The blocks at data - 9 are allocated, have room for the sizes, and are distinct. */
  ghost predicate Blocks(h: HeapState, tiles: set<int>, data: seq<int>, sizes: seq<U32>)
    requires |data| == |sizes|
  {
    && (forall k :: 0 <= k < |data| ==> data[k] - 9 in tiles && IsLive(h, data[k] - 9) && sizes[k] + 17 <= Size(h, data[k] - 9))
    && forall j, k :: 0 <= j < k < |data| ==> data[j] != data[k]
  }

  /** What was allocated stays so, with the same header. */
  ghost predicate Retained(h: HeapState, tiles: set<int>, g: HeapState, after: set<int>) {
    forall a :: a in tiles && IsLive(h, a) ==> a in after && Same(h, g, a)
  }

  /** None of the blocks at data - 9 was allocated. */
  ghost predicate Unclaimed(h: HeapState, tiles: set<int>, data: seq<int>) {
    forall k :: 0 <= k < |data| ==> !(data[k] - 9 in tiles && IsLive(h, data[k] - 9))
  }

  /** The outcome of a run from h: the heap end with its tiles, and the blocks at data - 9 for the sizes. */
  ghost predicate RanWell(h: HeapState, tiles: set<int>, loose: set<int>, end: HeapState, after: set<int>,
                          data: seq<int>, sizes: seq<U32>)
  {
    && Sound(end, after, loose) && HoleAtEnd(end, after)
    && |data| == |sizes| && Blocks(end, after, data, sizes)
    && Retained(h, tiles, end, after) && Unclaimed(h, tiles, data)
  }

  lemma RunExtends(h: HeapState, tiles: set<int>, loose: set<int>, g: HeapState, middle: set<int>, end: HeapState, after: set<int>,
                   data: int, size: U32, rest: seq<int>, sizes: seq<U32>)
    requires Allocated(h, tiles, g, middle, data - 9, size) && RanWell(g, middle, loose, end, after, rest, sizes)
    ensures RanWell(h, tiles, loose, end, after, [data] + rest, [size] + sizes)
  {
    hide Sound, HoleAtEnd;
    assert Same(g, end, data - 9);
    forall a | a in tiles && IsLive(h, a) ensures a in after && Same(h, end, a) {
      assert Same(h, g, a) && Same(g, end, a);
    }
    forall k | 0 <= k < |rest| ensures !(rest[k] - 9 in tiles && IsLive(h, rest[k] - 9)) {
      assert rest[k] - 9 in tiles && IsLive(h, rest[k] - 9) ==> Same(h, g, rest[k] - 9);
    }
  }

  /** Every run of halloc calls keeps a heap whose only hole is at its end that way, and its blocks in place. */
  lemma {:induction false} AllocsKeep(h: HeapState, tiles: set<int>, loose: set<int>, sizes: seq<U32>) returns (after: set<int>)
    requires Sound(h, tiles, loose) && HoleAtEnd(h, tiles)
    requires forall k :: 0 <= k < |sizes| ==> sizes[k] < 0xFFFF_FFEF
    ensures Ready(h) && RanWell(h, tiles, loose, AfterAllocs(h, sizes), after, Granted(h, sizes), sizes)
    decreases |sizes|
  {
    hide *;
    SoundIsReady(h, tiles, loose);
    if sizes == [] {
      after := tiles;
      EmptyRun(h, tiles, loose);
    } else {
      OneHoleAtEnd(h, tiles, loose);
      RunUnfolds(h, sizes);
      var middle := AllocKeeps(h, tiles, loose, sizes[0]);
      var g, data := Alloc(h, sizes[0]).heap, Alloc(h, sizes[0]).data;
      LooseMore(g, middle, loose - {data - 9}, loose);
      after := AllocsKeep(g, middle, loose, sizes[1..]);
      RunExtends(h, tiles, loose, g, middle, AfterAllocs(g, sizes[1..]), after, data, sizes[0], Granted(g, sizes[1..]), sizes[1..]);
    }
  }

  lemma EmptyRun(h: HeapState, tiles: set<int>, loose: set<int>)
    requires Sound(h, tiles, loose) && HoleAtEnd(h, tiles) && Ready(h)
    ensures RanWell(h, tiles, loose, AfterAllocs(h, []), tiles, Granted(h, []), [])
  {
    hide Sound, HoleAtEnd, Ready;
  }

  lemma RunUnfolds(h: HeapState, sizes: seq<U32>)
    requires Ready(h) && sizes != []
    ensures var a := Alloc(h, sizes[0]);
            && Ready(a.heap) && AfterAllocs(h, sizes) == AfterAllocs(a.heap, sizes[1..])
            && Granted(h, sizes) == [a.data] + Granted(a.heap, sizes[1..]) && sizes == [sizes[0]] + sizes[1..]
  {
    hide Ready, Alloc;
    AllocReady(h, sizes[0]);
  }

  /**
   * From create_heap on, whatever is requested: at most one hole, which abuts the end, and every
   * two returned blocks have disjoint data inside the heap.
   */
  lemma RunsFromCreate(start: nat, end: nat, max: nat, sizes: seq<U32>)
    requires start + 0x81011 <= end && forall k :: 0 <= k < |sizes| ==> sizes[k] < 0xFFFF_FFEF
    ensures Ready(Created(start, end, max))
    ensures var h := AfterAllocs(Created(start, end, max), sizes);
            var data := Granted(Created(start, end, max), sizes);
            && |h.index| <= 1 && AbutsEnd(h)
            && (forall k :: 0 <= k < |sizes| ==> start + 0x80000 <= data[k] && data[k] + sizes[k] <= h.end)
            && forall j, k :: 0 <= j < k < |sizes| ==>
                                data[j] + sizes[j] <= data[k] || data[k] + sizes[k] <= data[j]
  {
    CreatedSound(start, end, max);
    var c := Created(start, end, max);
    var after := AllocsKeep(c, {c.start}, {}, sizes);
    var h, data := AfterAllocs(c, sizes), Granted(c, sizes);
    OneHoleAtEnd(h, after, {});
    AllocsFromStart(c, sizes);
    hide *;
    BlocksApart(h, after, data, sizes);
  }

  lemma BlocksApart(h: HeapState, tiles: set<int>, data: seq<int>, sizes: seq<U32>)
    requires Sound(h, tiles, {}) && |data| == |sizes| && Blocks(h, tiles, data, sizes)
    ensures forall k :: 0 <= k < |data| ==> h.start <= data[k] && data[k] + sizes[k] <= h.end
    ensures forall j, k :: 0 <= j < k < |data| ==> data[j] + sizes[j] <= data[k] || data[k] + sizes[k] <= data[j]
  {
    hide FootersOk, IndexOk, HolesApart;
    forall k | 0 <= k < |data| ensures h.start <= data[k] && data[k] + sizes[k] <= h.end {
      assert Tile(h, tiles, data[k] - 9);
    }
  }

  /** halloc does not move the start of the heap. */
  lemma {:induction false} AllocsFromStart(h: HeapState, sizes: seq<U32>)
    requires Ready(h)
    ensures AfterAllocs(h, sizes).start == h.start
    decreases |sizes|
  {
    if sizes != [] {
      hide Ready;
      AllocReady(h, sizes[0]);
      AllocsFromStart(Alloc(h, sizes[0]).heap, sizes[1..]);
    }
  }
}
