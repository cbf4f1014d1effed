/** Where halloc puts a block, how much it takes, and how far it moves the heap end. */
module HeapPlaces {
  import opened Bytes
  import opened OrderedArray
  import opened HeapValue
  import opened HeapSafety
  import opened HeapMixedRuns
  import opened HeapOrder

  /** The hole at index position k is the first of at least the given size. */
  predicate FirstLarge(h: HeapState, need: int, k: nat) {
    && k < |h.index| && Size(h, h.index[k]) >= need
    && forall j :: 0 <= j < k ==> Size(h, h.index[j]) < need
  }

  predicate SomeLarge(h: HeapState, need: int) {
    exists k :: 0 <= k < |h.index| && Size(h, h.index[k]) >= need
  }

  /** The page boundary behind a length from one page on. */
  predicate NextPage(n: int, r: int) {
    && (n >= 0x1000 ==> r % 0x1000 == 0 && n < r <= n + 0x1000)
    && (n < 0x1000 ==> r == n)
  }

  /** The block is taken from the first hole that is large enough, and the end stays where it is. */
  ghost predicate TakenFirst(h: HeapState, need: int, g: HeapState, data: int) {
    g.end == h.end && exists k: nat :: FirstLarge(h, need, k) && data == h.index[k] + 9
  }

  /** The end moves to a page boundary, and the block is taken from the endmost hole, or from the old end if there is none. */
  ghost predicate TakenEndmost(h: HeapState, need: int, g: HeapState, data: int) {
    && NextPage(h.end - h.start + need, g.end - g.start)
    && if h.index == [] then data == h.end + 9
       else data - 9 in h.index && (Distinct(h.index) ==> forall x :: x in h.index ==> x <= data - 9)
  }

  /** What halloc of size bytes makes of a heap, whether a hole is large enough for them and the tags or not. */
  ghost predicate Placed(h: HeapState, size: U32, g: HeapState, data: int) {
    var need := (size + 17) % 0x1_0000_0000;
    && g.start == h.start && g.max == h.max
    && if SomeLarge(h, need) then TakenFirst(h, need, g, data) else TakenEndmost(h, need, g, data)
  }

  lemma LargeIs(h: HeapState, need: int)
    requires Ready(h)
    ensures var k := FirstFit(h.headers, h.index, need);
            && (k < |h.index| <==> SomeLarge(h, need)) && (k < |h.index| ==> FirstLarge(h, need, k))
  {
    var k := FirstFit(h.headers, h.index, need);
    forall j | 0 <= j < |h.index| ensures SizeKey(h.headers)(h.index[j]) == Size(h, h.index[j]) {
    }
  }

  lemma CutPlace(h: HeapState, need: nat)
    requires Ready(h) && FirstFit(h.headers, h.index, need) < |h.index|
    ensures var c := CutFirstFit(h, need);
            && c.heap.start == h.start && c.heap.end == h.end && c.heap.max == h.max
            && c.data == h.index[FirstFit(h.headers, h.index, need)] + 9
  {
    hide Inserted, Removed, FirstFit;
  }

  lemma GrownPlace(h: HeapState, need: nat)
    requires Ready(h) && FirstFit(h.headers, h.index, need) == |h.index|
    ensures var g := Grown(h, need);
            && Ready(g) && FirstFit(g.headers, g.index, need) < |g.index|
            && g.start == h.start && g.max == h.max && g.end == h.start + Rounded(h.end - h.start + need)
            && var a := g.index[FirstFit(g.headers, g.index, need)];
               if h.index == [] then a == h.end
               else a in h.index && (Distinct(h.index) ==> forall x :: x in h.index ==> x <= a)
  {
    GrownFits(h, need);
    var g := Grown(h, need);
    if h.index == [] {
      InsertedInEmpty(SizeKey(g.headers), h.end);
    } else if Distinct(h.index) {
      GrownIsFirstFit(h, need);
      EndmostIs(h.index);
    }
    hide FirstFit, Inserted, Rounded;
  }

  lemma FitPlaced(h: HeapState, need: nat)
    requires Ready(h) && FirstFit(h.headers, h.index, need) < |h.index|
    ensures TakenFirst(h, need, CutFirstFit(h, need).heap, CutFirstFit(h, need).data)
  {
    LargeIs(h, need);
    CutPlace(h, need);
    hide FirstFit, CutFirstFit, FirstLarge;
  }

  lemma GrowthPlaced(h: HeapState, need: nat)
    requires Ready(h) && FirstFit(h.headers, h.index, need) == |h.index|
    ensures var g := Grown(h, need);
            && Ready(g) && FirstFit(g.headers, g.index, need) < |g.index|
            && CutFirstFit(g, need).heap.start == h.start && CutFirstFit(g, need).heap.max == h.max
            && TakenEndmost(h, need, CutFirstFit(g, need).heap, CutFirstFit(g, need).data)
  {
    hide FirstFit, CutFirstFit, Grown, Rounded, NextPage, Distinct;
    GrownPlace(h, need);
    CutPlace(Grown(h, need), need);
    RoundedFacts(h.end - h.start + need);
  }

  lemma AllocPlaced(h: HeapState, size: U32)
    requires Ready(h)
    ensures Placed(h, size, Alloc(h, size).heap, Alloc(h, size).data)
  {
    var need := Need(size);
    assert need == (size + 17) % 0x1_0000_0000;
    LargeIs(h, need);
    AllocUnfolds(h, size);
    hide FirstFit, Alloc, CutFirstFit, Grown, Ready, SomeLarge, FirstLarge, Need, TakenFirst, TakenEndmost;
    if SomeLarge(h, need) {
      FitPlaced(h, need);
      CutPlace(h, need);
    } else {
      GrowthPlaced(h, need);
    }
  }

  lemma RoundedFacts(n: nat)
    ensures NextPage(n, Rounded(n))
  {
  }

  /**
    How much a cut takes: what is needed, and the rest becomes a hole, unless less than two tags would
    be left, which go with the block.
   */
  lemma CutExact(h: HeapState, i: nat, need: nat)
    requires i < |h.index| && h.index[i] in h.headers && need <= Size(h, h.index[i])
    ensures var pos, size := h.index[i], Size(h, h.index[i]);
            Cut(h, i, need).headers ==
              if size < need + 17 then h.headers[pos := Header(false, size)]
              else h.headers[pos := Header(false, need)][pos + need := Header(true, size - need)]
  {
    hide Inserted, Removed;
  }

  /**
    What hfree of the block with its header at a makes of a heap: the block is a hole, joined with the
    hole the footer in front of it names and with the one behind it. It enters the index if it was not
    joined with one in front; a hole behind leaves it.
   */
  ghost predicate Freed(h: HeapState, a: int, g: HeapState)
    requires a in h.headers
  {
    var end := a + h.headers[a].size;
    var left := a - 8 in h.footers && (h.footers[a - 8] == a || (h.footers[a - 8] in h.headers && h.headers[h.footers[a - 8]].isHole));
    var right := end in h.headers && h.headers[end].isHole;
    var b := if left then h.footers[a - 8] else a;
    && g.start == h.start && g.end == h.end && g.max == h.max
    && b in g.headers && b in h.headers
    && g.headers[b] ==
         Header(true, h.headers[a].size + (if left then h.headers[b].size else 0) + if right then h.headers[end].size else 0)
    && (a != b ==> a in g.headers && g.headers[a] == Header(true, h.headers[a].size))
    && (forall x :: x != a && x != b ==> Same(h, g, x))
    && g.footers == (if left then h.footers[end - 8 := b] else h.footers)
    && (Distinct(h.index) ==> forall x :: x in g.index <==> (x in h.index && !(right && x == end)) || (!left && x == a))
  }

  lemma FreedMembers(h: HeapState, a: int)
    requires a in h.headers && (MergesRight(h, a) ==> End(h, a) in h.index) && Distinct(h.index)
    ensures forall x :: x in Free(h, a).index <==>
      (x in h.index && !(MergesRight(h, a) && x == End(h, a))) || (!MergesLeft(h, a) && x == a)
  {
    hide Inserted, Removed, FreedHeaders, FreedFooters, Distinct;
    if MergesRight(h, a) {
      RemovedMembers(h.index, IndexOf(h.index, End(h, a)));
    }
    InsertedMembers(FreedIndex(h, a), SizeKey(FreedHeaders(h, a)), a);
  }

  lemma FreedTags(h: HeapState, a: int)
    requires a in h.headers
    ensures var b := if MergesLeft(h, a) then h.footers[a - 8] else a;
            && b in h.headers && b in FreedHeaders(h, a)
            && FreedHeaders(h, a)[b] == Header(true,
                 Size(h, a) + (if MergesLeft(h, a) then Size(h, b) else 0) + if MergesRight(h, a) then Size(h, End(h, a)) else 0)
            && (a != b ==> a in FreedHeaders(h, a) && FreedHeaders(h, a)[a] == Header(true, Size(h, a)))
            && forall x :: x != a && x != b ==>
                 (x in h.headers <==> x in FreedHeaders(h, a)) && (x in h.headers ==> h.headers[x] == FreedHeaders(h, a)[x])
  {
  }

  lemma FreeBounds(h: HeapState, a: int)
    requires a in h.headers && (MergesRight(h, a) ==> End(h, a) in h.index)
    ensures var g := Free(h, a);
            && g.start == h.start && g.end == h.end && g.max == h.max && g.headers == FreedHeaders(h, a)
            && g.footers == if MergesLeft(h, a) then h.footers[End(h, a) - 8 := h.footers[a - 8]] else h.footers
  {
    hide Inserted, FreedIndex, FreedHeaders, MergesRight;
  }

  lemma FreePlaced(h: HeapState, a: int)
    requires a in h.headers && (MergesRight(h, a) ==> End(h, a) in h.index)
    ensures Freed(h, a, Free(h, a))
  {
    hide Free, FreedHeaders, Distinct;
    if Distinct(h.index) {
      FreedMembers(h, a);
    }
    FreeBounds(h, a);
    FreedTags(h, a);
  }

  // ---- The heap end in runs --------------------------------------------------

  /** The heap is a whole number of pages, and not empty. */
  predicate PageAligned(start: int, end: int) {
    start <= end && end - start >= 0x1000 && (end - start) % 0x1000 == 0
  }

  lemma KeptAligned(start: int, end: int, need: nat, end': int)
    requires PageAligned(start, end) && (end' == end || NextPage(end - start + need, end' - start))
    ensures PageAligned(start, end')
  {
  }

  lemma AllocAligned(h: HeapState, size: U32)
    requires Ready(h) && PageAligned(h.start, h.end)
    ensures PageAligned(Alloc(h, size).heap.start, Alloc(h, size).heap.end)
  {
    hide Alloc, Ready, SomeLarge, FirstLarge, Distinct, NextPage, PageAligned;
    AllocPlaced(h, size);
    KeptAligned(h.start, h.end, (size + 17) % 0x1_0000_0000, Alloc(h, size).heap.end);
  }

  lemma NextAligned(c: Course, op: Op)
    requires SoundCourse(c) && Allowed(c, op) && PageAligned(c.heap.start, c.heap.end)
    ensures PageAligned(Next(c, op).heap.start, Next(c, op).heap.end)
  {
    hide *;
    match op
    case Halloc(size) =>
      AllowedHalloc(c, size);
      SoundIsReady(c.heap, TilesOf(c.heap), c.loose);
      AllocAligned(c.heap, size);
      HallocIs(c, size);
    case Hfree(data) =>
      FreeAligned(c, data);
  }

  lemma FreeAligned(c: Course, data: int)
    requires SoundCourse(c) && Allowed(c, Hfree(data)) && PageAligned(c.heap.start, c.heap.end)
    ensures PageAligned(Next(c, Hfree(data)).heap.start, Next(c, Hfree(data)).heap.end)
  {
    HfreeIs(c, data);
    LiveHeader(c, data);
    FreeEnds(c.heap, data - 9);
    hide *;
  }

  lemma LiveHeader(c: Course, data: int)
    requires SoundCourse(c) && Allowed(c, Hfree(data))
    ensures data - 9 in c.heap.headers
  {
    hide SoundCourse, TilesOf;
  }

  lemma FreeEnds(h: HeapState, a: int)
    requires a in h.headers && (MergesRight(h, a) ==> End(h, a) in h.index)
    ensures Free(h, a).start == h.start && Free(h, a).end == h.end
  {
    hide FreedHeaders, FreedFooters, FreedIndex, Inserted;
  }

  /** After every call of a run the heap still is a whole number of pages. */
  lemma {:induction false} RunAligned(c: Course, ops: seq<Op>)
    requires SoundCourse(c) && AllAllowed(c, ops) && PageAligned(c.heap.start, c.heap.end)
    ensures PageAligned(AfterAll(c, ops).heap.start, AfterAll(c, ops).heap.end)
    decreases |ops|
  {
    hide SoundCourse, Allowed, Next, PageAligned;
    if ops != [] {
      NextSound(c, ops[0]);
      NextAligned(c, ops[0]);
      RunAligned(Next(c, ops[0]), ops[1..]);
    }
  }

  /** So it is from create_heap with an aligned end on; and create_heap leaves room for the index in front of the heap. */
  lemma RunsFromCreateAligned(start: nat, end: nat, max: nat, ops: seq<Op>)
    requires start + 0x81011 <= end && end % 0x1000 == 0
    requires SoundCourse(Fresh(start, end, max)) && AllAllowed(Fresh(start, end, max), ops)
    ensures var h := Created(start, end, max);
            && h.start % 0x1000 == 0 && start + 0x80000 < h.start <= start + 0x81000 && h.end == end && h.max == max
            && h.index == [h.start] && h.headers == map[h.start := Header(true, end - h.start)]
    ensures PageAligned(AfterAll(Fresh(start, end, max), ops).heap.start, AfterAll(Fresh(start, end, max), ops).heap.end)
  {
    hide SoundCourse, AllAllowed, AfterAll;
    RunAligned(Fresh(start, end, max), ops);
  }
}
