/** Runs of halloc and hfree calls. */
module HeapMixedRuns {
  import opened Bytes
  import opened HeapValue
  import opened HeapSafety
  import opened HeapFree
  import opened HeapRuns

  /** The tiles from a on, found by following the sizes in the headers. */
  function Walk(h: HeapState, a: int): set<int>
    decreases h.end - a
  {
    if a < h.end && 0 < Size(h, a) then {a} + Walk(h, End(h, a)) else {}
  }

  /** The only set of tiles a sound heap can have. */
  function TilesOf(h: HeapState): set<int> {
    Walk(h, h.start)
  }

  lemma {:induction false} WalkIs(h: HeapState, tiles: set<int>, a: int)
    requires Tiled(h, tiles) && (a in tiles || a == h.end)
    ensures Walk(h, a) == set x | x in tiles && a <= x
    decreases h.end - a
  {
    if a in tiles {
      TileAt(h, tiles, a);
      var next := End(h, a);
      WalkIs(h, tiles, next);
      assert (set x | x in tiles && a <= x) == {a} + (set x | x in tiles && next <= x);
    } else {
      forall x | x in tiles ensures x < a {
        TileAt(h, tiles, x);
      }
    }
  }

  lemma TilesOfIs(h: HeapState, tiles: set<int>)
    requires Tiled(h, tiles)
    ensures TilesOf(h) == tiles
  {
    WalkIs(h, tiles, h.start);
    forall x | x in tiles ensures h.start <= x {
      TileAt(h, tiles, x);
      assert Tile(h, tiles, x);
    }
  }

  datatype Op = Halloc(size: U32) | Hfree(data: int)

  /** A heap in a run: which holes have a stale footer, and the sizes asked for the addresses not yet freed. */
  datatype Course = Course(heap: HeapState, loose: set<int>, owned: map<int, nat>)

  ghost predicate SoundCourse(c: Course) {
    && Sound(c.heap, TilesOf(c.heap), c.loose)
    && (forall a :: a in TilesOf(c.heap) && IsLive(c.heap, a) <==> a + 9 in c.owned)
    && forall a :: a + 9 in c.owned ==> c.owned[a + 9] + 17 <= Size(c.heap, a)
  }

  /** The call can be served: an expansion finds the endmost hole at the end, a block is owned and may be freed. */
  ghost predicate Allowed(c: Course, op: Op) {
    match op
    case Halloc(size) =>
      size < 0xFFFF_FFEF && (FirstFit(c.heap.headers, c.heap.index, size + 17) == |c.heap.index| ==> AbutsEnd(c.heap))
    case Hfree(data) =>
      data in c.owned && Freeable(c.heap, TilesOf(c.heap), c.loose, data - 9)
  }

  /** The footers no longer to be trusted after a free. */
  ghost function LooseAfter(c: Course, a: int, h: HeapState): set<int> {
    (if MergesRight(c.heap, a) then c.loose + {FreedStart(c.heap, a)} else c.loose) * TilesOf(h)
  }

  ghost function Next(c: Course, op: Op): (d: Course)
    requires SoundCourse(c) && Allowed(c, op)
  {
    match op
    case Halloc(size) =>
      SoundIsReady(c.heap, TilesOf(c.heap), c.loose);
      var grant := Alloc(c.heap, size);
      Course(grant.heap, c.loose - {grant.data - 9}, c.owned[grant.data := size])
    case Hfree(data) =>
      MergesAre(c.heap, TilesOf(c.heap), c.loose, data - 9);
      var h := Free(c.heap, data - 9);
      Course(h, LooseAfter(c, data - 9, h), c.owned - {data})
  }

  /** What is owned on both sides has not moved or changed. */
  ghost predicate Undisturbed(c: Course, d: Course) {
    forall a :: a + 9 in c.owned && a + 9 in d.owned ==> Same(c.heap, d.heap, a)
  }

  /** A call of halloc returns an address nobody owns, and keeps everything sound. */
  lemma HallocSound(c: Course, size: U32)
    requires SoundCourse(c) && Allowed(c, Halloc(size))
    ensures Ready(c.heap) && Alloc(c.heap, size).data !in c.owned
    ensures SoundCourse(Next(c, Halloc(size))) && Undisturbed(c, Next(c, Halloc(size)))
  {
    hide *;
    var tiles := TilesOf(c.heap);
    AllowedHalloc(c, size);
    SoundIsReady(c.heap, tiles, c.loose);
    var after := AllocKeeps(c.heap, tiles, c.loose, size);
    var b := Alloc(c.heap, size).data - 9;
    HallocIs(c, size);
    TilesOfSound(Alloc(c.heap, size).heap, after, c.loose - {b});
    AllocatedOwned(c, Course(Alloc(c.heap, size).heap, c.loose - {b}, c.owned[b + 9 := size]), after, b, size);
  }

  lemma AllowedHalloc(c: Course, size: U32)
    requires SoundCourse(c) && Allowed(c, Halloc(size))
    ensures Sound(c.heap, TilesOf(c.heap), c.loose) && size < 0xFFFF_FFEF
    ensures FirstFit(c.heap.headers, c.heap.index, size + 17) == |c.heap.index| ==> AbutsEnd(c.heap)
  {
    hide Sound, AbutsEnd, FirstFit;
  }

  lemma TilesOfSound(h: HeapState, tiles: set<int>, loose: set<int>)
    requires Sound(h, tiles, loose)
    ensures TilesOf(h) == tiles
  {
    hide Tiled;
    TilesOfIs(h, tiles);
  }

  lemma HallocIs(c: Course, size: U32)
    requires SoundCourse(c) && Allowed(c, Halloc(size)) && Ready(c.heap)
    ensures Next(c, Halloc(size)) == Course(Alloc(c.heap, size).heap, c.loose - {Alloc(c.heap, size).data - 9},
                                            c.owned[Alloc(c.heap, size).data := size])
  {
    hide Sound, Alloc, Ready, TilesOf, AbutsEnd, FirstFit, SoundCourse;
  }

  lemma AllocatedOwned(c: Course, d: Course, after: set<int>, b: int, size: U32)
    requires SoundCourse(c) && Allocated(c.heap, TilesOf(c.heap), d.heap, after, b, size) && TilesOf(d.heap) == after
    requires d.owned == c.owned[b + 9 := size] && Sound(d.heap, after, d.loose)
    ensures b + 9 !in c.owned && SoundCourse(d) && Undisturbed(c, d)
  {
    hide Sound, TilesOf;
    forall a ensures a in after && IsLive(d.heap, a) <==> a + 9 in d.owned
      ensures a + 9 in c.owned ==> Same(c.heap, d.heap, a)
      ensures a + 9 in d.owned ==> d.owned[a + 9] + 17 <= Size(d.heap, a)
    {
      assert a in TilesOf(c.heap) && IsLive(c.heap, a) <==> a + 9 in c.owned;
      if a + 9 in d.owned && a != b {
        assert c.owned[a + 9] + 17 <= Size(c.heap, a);
      }
    }
  }

  /** A call of hfree leaves exactly the other blocks, and keeps everything sound but the footer of a hole merged to the right. */
  lemma HfreeSound(c: Course, data: int)
    requires SoundCourse(c) && Allowed(c, Hfree(data))
    ensures SoundCourse(Next(c, Hfree(data))) && Undisturbed(c, Next(c, Hfree(data)))
  {
    var tiles, a := TilesOf(c.heap), data - 9;
    MergesAre(c.heap, tiles, c.loose, a);
    FreeKeeps(c.heap, tiles, c.loose, a);
    var g, b, e := Free(c.heap, a), FreedStart(c.heap, a), FreedEnd(c.heap, a);
    TilesOfIs(g, Outside(tiles, b, e));
    FreeMerges(c.heap, tiles, c.loose, a);
    StartNotLive(c.heap, tiles, c.loose, a);
    var d := Next(c, Hfree(data));
    hide Free, FreedStart, FreedEnd, MergesLeft, MergesRight, TilesOf, Next;
    LooseTrimmed(g, Outside(tiles, b, e), if MergesRight(c.heap, a) then c.loose + {b} else c.loose);
    assert d == Course(g, LooseAfter(c, a, g), c.owned - {data}) by { HfreeIs(c, data); }
    FreedOwned(c, d, Outside(tiles, b, e), a, b, e);
  }

  lemma HfreeIs(c: Course, data: int)
    requires SoundCourse(c) && Allowed(c, Hfree(data))
    ensures MergesRight(c.heap, data - 9) ==> End(c.heap, data - 9) in c.heap.index
    ensures var h := Free(c.heap, data - 9);
            Next(c, Hfree(data)) == Course(h, LooseAfter(c, data - 9, h), c.owned - {data})
  {
    MergesAre(c.heap, TilesOf(c.heap), c.loose, data - 9);
    hide Free;
  }

  /** Only footers of tiles matter. */
  lemma LooseTrimmed(h: HeapState, tiles: set<int>, loose: set<int>)
    requires Sound(h, tiles, loose)
    ensures Sound(h, tiles, loose * tiles)
  {
  }

  lemma FreedOwned(c: Course, d: Course, after: set<int>, a: int, b: int, e: int)
    requires SoundCourse(c) && a in TilesOf(c.heap) && IsLive(c.heap, a) && b <= a < e
    requires Sound(d.heap, after, d.loose) && TilesOf(d.heap) == after && d.owned == c.owned - {a + 9}
    requires after == Outside(TilesOf(c.heap), b, e) && IsHole(d.heap, b) && (b == a || !IsLive(c.heap, b))
    requires Merges(c.heap, d.heap, TilesOf(c.heap), b, e)
    requires forall x :: x in TilesOf(c.heap) && IsLive(c.heap, x) && x != a ==> x in after && Same(c.heap, d.heap, x)
    ensures SoundCourse(d) && Undisturbed(c, d)
  {
    hide Sound, TilesOf;
    forall x ensures x in after && IsLive(d.heap, x) <==> x + 9 in d.owned
      ensures x + 9 in d.owned ==> Same(c.heap, d.heap, x) && d.owned[x + 9] + 17 <= Size(d.heap, x)
    {
      assert x in TilesOf(c.heap) && IsLive(c.heap, x) <==> x + 9 in c.owned;
      if x in after && x != b {
        assert Same(c.heap, d.heap, x);
      }
      if x + 9 in d.owned {
        assert c.owned[x + 9] + 17 <= Size(c.heap, x);
      }
    }
  }

  /** The calls of a run can be served one after the other. */
  ghost predicate AllAllowed(c: Course, ops: seq<Op>)
    requires SoundCourse(c)
    decreases |ops|
  {
    ops == [] || (Allowed(c, ops[0]) && (NextSound(c, ops[0]); AllAllowed(Next(c, ops[0]), ops[1..])))
  }

  ghost function AfterAll(c: Course, ops: seq<Op>): Course
    requires SoundCourse(c) && AllAllowed(c, ops)
    decreases |ops|
  {
    if ops == [] then c
    else
      NextSound(c, ops[0]);
      AfterAll(Next(c, ops[0]), ops[1..])
  }

  lemma NextSound(c: Course, op: Op)
    requires SoundCourse(c) && Allowed(c, op)
    ensures SoundCourse(Next(c, op)) && Undisturbed(c, Next(c, op))
  {
    match op
    case Halloc(size) => HallocSound(c, size);
    case Hfree(data) => HfreeSound(c, data);
  }

  /** The heap from create_heap, with nothing owned. */
  function Fresh(start: nat, end: nat, max: nat): Course {
    Course(Created(start, end, max), {}, map[])
  }

  lemma FreshSound(start: nat, end: nat, max: nat)
    requires start + 0x81011 <= end
    ensures SoundCourse(Fresh(start, end, max))
  {
    var h := Created(start, end, max);
    CreatedSound(start, end, max);
    TilesOfIs(h, {h.start});
  }

  /** Every run of halloc and hfree calls that can be served leaves a sound heap. */
  lemma {:induction false} RunSound(c: Course, ops: seq<Op>)
    requires SoundCourse(c) && AllAllowed(c, ops)
    ensures SoundCourse(AfterAll(c, ops))
    decreases |ops|
  {
    if ops != [] {
      NextSound(c, ops[0]);
      RunSound(Next(c, ops[0]), ops[1..]);
    }
  }

  /** A block owned before a run that does not free it is owned after it, with the same header. */
  lemma {:induction false} RunKeepsBlock(c: Course, ops: seq<Op>, data: int)
    requires SoundCourse(c) && AllAllowed(c, ops) && data in c.owned
    requires forall i :: 0 <= i < |ops| ==> ops[i] != Hfree(data)
    ensures data in AfterAll(c, ops).owned && AfterAll(c, ops).owned[data] == c.owned[data]
    ensures Same(c.heap, AfterAll(c, ops).heap, data - 9)
    decreases |ops|
  {
    if ops != [] {
      NextSound(c, ops[0]);
      StepKeepsBlock(c, ops[0], data);
      RunKeepsBlock(Next(c, ops[0]), ops[1..], data);
    }
  }

  lemma StepKeepsBlock(c: Course, op: Op, data: int)
    requires SoundCourse(c) && Allowed(c, op) && data in c.owned && op != Hfree(data)
    ensures data in Next(c, op).owned && Next(c, op).owned[data] == c.owned[data]
    ensures Same(c.heap, Next(c, op).heap, data - 9)
  {
    NextSound(c, op);
    if op.Halloc? {
      HallocSound(c, op.size);
      HallocIs(c, op.size);
    }
    assert (data - 9) + 9 == data;
  }

  /** In a sound course the data of two owned blocks is disjoint and lies inside the heap. */
  lemma OwnedApart(c: Course, p: int, q: int)
    requires SoundCourse(c) && p in c.owned && q in c.owned
    ensures c.heap.start <= p && p + c.owned[p] <= c.heap.end
    ensures p != q ==> p + c.owned[p] <= q || q + c.owned[q] <= p
  {
    var tiles := TilesOf(c.heap);
    assert (p - 9) + 9 == p && (q - 9) + 9 == q;
    assert Tiled(c.heap, tiles);
    TileAt(c.heap, tiles, p - 9);
    TileAt(c.heap, tiles, q - 9);
  }

  /** From create_heap on, any run: the blocks returned and not yet freed are disjoint and inside the heap. */
  lemma RunsOwnDisjointBlocks(start: nat, end: nat, max: nat, ops: seq<Op>)
    requires start + 0x81011 <= end && SoundCourse(Fresh(start, end, max)) && AllAllowed(Fresh(start, end, max), ops)
    ensures var c := AfterAll(Fresh(start, end, max), ops);
            && Sound(c.heap, TilesOf(c.heap), c.loose)
            && (forall p :: p in c.owned ==> c.heap.start <= p && p + c.owned[p] <= c.heap.end)
            && forall p, q :: p in c.owned && q in c.owned && p != q ==>
                                p + c.owned[p] <= q || q + c.owned[q] <= p
  {
    var c := AfterAll(Fresh(start, end, max), ops);
    RunSound(Fresh(start, end, max), ops);
    forall p, q | p in c.owned && q in c.owned
      ensures c.heap.start <= p && p + c.owned[p] <= c.heap.end
      ensures p != q ==> p + c.owned[p] <= q || q + c.owned[q] <= p
    {
      OwnedApart(c, p, q);
    }
  }

  /** A call behind a run. */
  lemma RunNone(c: Course)
    requires SoundCourse(c)
    ensures AllAllowed(c, []) && AfterAll(c, []) == c
  {
    hide SoundCourse, Allowed, Next;
  }

  lemma RunStarts(c: Course, op: Op, ops: seq<Op>)
    requires SoundCourse(c)
    ensures AllAllowed(c, [op] + ops) ==> Allowed(c, op)
    ensures Allowed(c, op) ==>
      && SoundCourse(Next(c, op))
      && (AllAllowed(c, [op] + ops) <==> AllAllowed(Next(c, op), ops))
      && (AllAllowed(Next(c, op), ops) ==> AfterAll(c, [op] + ops) == AfterAll(Next(c, op), ops))
  {
    hide SoundCourse, Allowed, Next;
    assert ([op] + ops)[0] == op && ([op] + ops)[1..] == ops;
    if Allowed(c, op) {
      NextSound(c, op);
    }
  }

  lemma {:induction false} RunAppend(c: Course, ops: seq<Op>, op: Op)
    requires SoundCourse(c) && AllAllowed(c, ops) && SoundCourse(AfterAll(c, ops)) && Allowed(AfterAll(c, ops), op)
    ensures AllAllowed(c, ops + [op]) && AfterAll(c, ops + [op]) == Next(AfterAll(c, ops), op)
    decreases |ops|
  {
    hide *;
    if ops == [] {
      RunNone(c);
      RunStarts(c, op, []);
      RunNone(Next(c, op));
      assert [op] + [] == [op] == ops + [op];
    } else {
      assert ops == [ops[0]] + ops[1..];
      RunStarts(c, ops[0], ops[1..]);
      RunAppend(Next(c, ops[0]), ops[1..], op);
      RunStarts(c, ops[0], ops[1..] + [op]);
      assert [ops[0]] + (ops[1..] + [op]) == ops + [op];
    }
  }

  /** Some run from create_heap leads to c. */
  ghost predicate Reached(c: Course) {
    exists start: nat, end: nat, max: nat, ops ::
      SoundCourse(Fresh(start, end, max)) && AllAllowed(Fresh(start, end, max), ops) && c == AfterAll(Fresh(start, end, max), ops)
  }

  lemma ReachedNext(c: Course, op: Op)
    requires Reached(c) && SoundCourse(c) && Allowed(c, op)
    ensures Reached(Next(c, op)) && SoundCourse(Next(c, op))
  {
    hide Allowed, Next, AllAllowed, AfterAll, SoundCourse;
    var start: nat, end: nat, max: nat, ops :|
      SoundCourse(Fresh(start, end, max)) && AllAllowed(Fresh(start, end, max), ops) && c == AfterAll(Fresh(start, end, max), ops);
    RunAppend(Fresh(start, end, max), ops, op);
    NextSound(c, op);
    assert Next(c, op) == AfterAll(Fresh(start, end, max), ops + [op]);
  }

  lemma ReachedFresh(start: nat, end: nat, max: nat)
    requires start + 0x81011 <= end
    ensures Reached(Fresh(start, end, max)) && SoundCourse(Fresh(start, end, max))
  {
    FreshSound(start, end, max);
    assert AllAllowed(Fresh(start, end, max), []) && Fresh(start, end, max) == AfterAll(Fresh(start, end, max), []);
  }
}
