/** When the calls of the heap keep the index of holes sorted by size. */
module HeapOrder {
  import opened Bytes
  import opened OrderedArray
  import opened HeapValue
  import opened HeapSafety
  import opened HeapFree
  import opened HeapMixedRuns

  /** Growing the hole at index position k keeps a sorted index sorted exactly when the next hole is as large. */
  lemma GrowingSortedExact(index: seq<int>, before: map<int, Header>, after: map<int, Header>, k: nat)
    requires Distinct(index) && k < |index| && Sorted(index, SizeKey(before))
    requires forall x :: x in index && x != index[k] ==> SizeKey(after)(x) == SizeKey(before)(x)
    requires SizeKey(before)(index[k]) <= SizeKey(after)(index[k])
    ensures Sorted(index, SizeKey(after)) <==>
            (k + 1 < |index| ==> SizeKey(after)(index[k]) <= SizeKey(before)(index[k + 1]))
  {
    if k + 1 < |index| ==> SizeKey(after)(index[k]) <= SizeKey(before)(index[k + 1]) {
      forall i, j | 0 <= i < j < |index| ensures SizeKey(after)(index[i]) <= SizeKey(after)(index[j]) {
        assert SizeKey(before)(index[i]) <= SizeKey(before)(index[j]);
        assert k < j ==> k + 1 == j || SizeKey(before)(index[k + 1]) <= SizeKey(before)(index[j]);
      }
    }
  }

  /** The expansion of halloc leaves a sorted index sorted exactly when the hole behind the endmost one is as large as that grown. */
  lemma GrownSortedExact(h: HeapState, tiles: set<int>, loose: set<int>, need: nat)
    requires Sound(h, tiles, loose) && |h.index| > 0 && Sorted(h.index, SizeKey(h.headers))
    ensures Ready(h) && Grown(h, need).index == h.index
    ensures var k, g := Endmost(h.index, |h.index|), Grown(h, need);
            && 0 <= k && (Sorted(h.index, SizeKey(g.headers)) <==>
                (k + 1 < |h.index| ==> Size(h, h.index[k]) + (g.end - h.end) <= Size(h, h.index[k + 1])))
  {
    SoundIsReady(h, tiles, loose);
    var k, g := Endmost(h.index, |h.index|), Grown(h, need);
    assert Distinct(h.index) && h.index[k] in h.headers && g.end >= h.end;
    hide Sound, Sorted, Ready, Endmost;
    assert k + 1 < |h.index| ==> h.index[k + 1] != h.index[k];
    GrowingSortedExact(h.index, h.headers, g.headers, k);
  }

  // ---- halloc ----------------------------------------------------------------

  lemma InsertedSortedExact(s: seq<int>, key: int -> int, item: int)
    ensures Sorted(Inserted(s, key, item), key) <==> Sorted(s, key)
  {
    InsertKeepsSorted(s, key, item);
    var k, r := Position(s, key, item), Inserted(s, key, item);
    if Sorted(r, key) {
      forall i, j | 0 <= i < j < |s| ensures key(s[i]) <= key(s[j]) {
        assert s[i] == r[if i < k then i else i + 1] && s[j] == r[if j < k then j else j + 1];
      }
    }
  }

  /** A cut leaves the index sorted exactly when the other holes were, whatever the size of the one cut. */
  lemma CutSortedExact(h: HeapState, i: nat, need: nat)
    requires i < |h.index| && h.index[i] in h.headers && need <= Size(h, h.index[i]) && Distinct(h.index)
    requires forall x :: x in h.index ==> x <= h.index[i] || End(h, h.index[i]) <= x
    ensures Sorted(Cut(h, i, need).index, SizeKey(Cut(h, i, need).headers)) <==> Sorted(Removed(h.index, i), SizeKey(h.headers))
  {
    var pos, g, others := h.index[i], Cut(h, i, need), Removed(h.index, i);
    RemovedMembers(h.index, i);
    hide Inserted, Removed, Sorted, Distinct;
    var take := if Size(h, pos) - need < 17 then Size(h, pos) else need;
    forall x | x in others ensures SizeKey(g.headers)(x) == SizeKey(h.headers)(x) {
    }
    SortedSame(others, SizeKey(h.headers), SizeKey(g.headers));
    InsertedSortedExact(others, SizeKey(g.headers), pos + take);
  }

  lemma SortedSame(s: seq<int>, before: int -> int, after: int -> int)
    requires forall i :: 0 <= i < |s| ==> before(s[i]) == after(s[i])
    ensures Sorted(s, before) <==> Sorted(s, after)
  {
    if Sorted(s, before) {
      SortedToo(s, before, after);
    }
    if Sorted(s, after) {
      SortedToo(s, after, before);
    }
  }

  lemma SortedToo(s: seq<int>, before: int -> int, after: int -> int)
    requires Sorted(s, before) && forall i :: 0 <= i < |s| ==> before(s[i]) == after(s[i])
    ensures Sorted(s, after)
  {
  }

  lemma FitCuts(h: HeapState, tiles: set<int>, loose: set<int>, i: nat, need: nat)
    requires Sound(h, tiles, loose) && Sorted(h.index, SizeKey(h.headers))
    requires i < |h.index| && need <= SizeKey(h.headers)(h.index[i])
    ensures h.index[i] in h.headers && Sorted(Cut(h, i, need).index, SizeKey(Cut(h, i, need).headers))
  {
    var pos := h.index[i];
    assert pos in h.index && Tile(h, tiles, pos);
    RemoveKeepsSorted(h.index, SizeKey(h.headers), i);
    hide Cut, Sorted, Removed, FootersOk, HolesApart, Tile;
    CutSortedExact(h, i, need);
  }

  /** After an expansion the scan finds the hole that grew. */
  lemma GrownIsFirstFit(h: HeapState, need: nat)
    requires Ready(h) && Distinct(h.index) && |h.index| > 0 && FirstFit(h.headers, h.index, need) == |h.index|
    ensures Ready(Grown(h, need)) && Grown(h, need).index == h.index
    ensures var k := Endmost(h.index, |h.index|);
            && 0 <= k && FirstFit(Grown(h, need).headers, h.index, need) == k
            && forall x :: x in h.index && x != h.index[k] ==> SizeKey(Grown(h, need).headers)(x) == SizeKey(h.headers)(x)
  {
    GrownFits(h, need);
    var k, g := Endmost(h.index, |h.index|), Grown(h, need);
    assert 0 < h.index[0] && 0 <= k;
    assert g.headers == h.headers[h.index[k] := g.headers[h.index[k]]];
    hide Grown, Ready, Endmost;
    forall j | 0 <= j < |h.index| && j != k ensures SizeKey(g.headers)(h.index[j]) < need {
      assert SizeKey(g.headers)(h.index[j]) == SizeKey(h.headers)(h.index[j]);
    }
  }

  lemma GrownOthers(h: HeapState, need: nat)
    requires Ready(h) && Distinct(h.index) && |h.index| > 0 && FirstFit(h.headers, h.index, need) == |h.index|
    requires Sorted(h.index, SizeKey(h.headers))
    ensures Ready(Grown(h, need)) && Grown(h, need).index == h.index
    ensures var k, g := Endmost(h.index, |h.index|), Grown(h, need);
            0 <= k && FirstFit(g.headers, h.index, need) == k && Sorted(Removed(h.index, k), SizeKey(g.headers))
  {
    GrownIsFirstFit(h, need);
    hide Ready, FirstFit, Grown, Endmost;
    var k, g := Endmost(h.index, |h.index|), Grown(h, need);
    RemovedMembers(h.index, k);
    RemoveKeepsSorted(h.index, SizeKey(h.headers), k);
    hide Sorted, Removed, Distinct;
    var others := Removed(h.index, k);
    forall i | 0 <= i < |others| ensures SizeKey(h.headers)(others[i]) == SizeKey(g.headers)(others[i]) {
      assert others[i] in others;
    }
    SortedSame(others, SizeKey(h.headers), SizeKey(g.headers));
  }

  lemma GrownCuts(h: HeapState, need: nat)
    requires Ready(h) && Distinct(h.index) && Sorted(h.index, SizeKey(h.headers))
    requires FirstFit(h.headers, h.index, need) == |h.index|
    ensures Ready(Grown(h, need)) && FirstFit(Grown(h, need).headers, Grown(h, need).index, need) < |Grown(h, need).index|
    ensures var c := CutFirstFit(Grown(h, need), need).heap; Sorted(c.index, SizeKey(c.headers))
  {
    GrownFits(h, need);
    var g := Grown(h, need);
    var i := FirstFit(g.headers, g.index, need);
    if |h.index| == 0 {
      InsertedInEmpty(SizeKey(g.headers), h.end);
      assert g.index == [h.end] && i == 0;
    } else {
      GrownOthers(h, need);
      EndmostIs(h.index);
    }
    hide Grown, Sorted, Cut, Removed, Endmost;
    CutSortedExact(g, i, need);
  }

  lemma EndmostIs(index: seq<int>)
    requires Endmost(index, |index|) != -1
    ensures forall x :: x in index ==> x <= index[Endmost(index, |index|)]
  {
  }

  /** halloc keeps a sorted index sorted for every request: what an expansion puts out of order is cut by the same call. */
  lemma AllocKeepsSorted(h: HeapState, tiles: set<int>, loose: set<int>, size: U32)
    requires Sound(h, tiles, loose) && Sorted(h.index, SizeKey(h.headers))
    ensures Ready(h) && Sorted(Alloc(h, size).heap.index, SizeKey(Alloc(h, size).heap.headers))
  {
    SoundIsReady(h, tiles, loose);
    AllocUnfolds(h, size);
    var need := Need(size);
    var i := FirstFit(h.headers, h.index, need);
    if i < |h.index| {
      FitCuts(h, tiles, loose, i, need);
    } else {
      assert Distinct(h.index);
      GrownCuts(h, need);
    }
  }

  // ---- hfree -----------------------------------------------------------------

  /** What hfree does to the index and to the sizes it is sorted by. */
  lemma FreedSizes(h: HeapState, tiles: set<int>, loose: set<int>, a: int)
    requires Sound(h, tiles, loose) && Freeable(h, tiles, loose, a)
    ensures MergesRight(h, a) ==> End(h, a) in h.index
    ensures var b, rest, g := FreedStart(h, a), FreedIndex(h, a), Free(h, a);
            && Distinct(rest) && (forall x :: x in rest ==> x in h.index && x != a)
            && (forall x :: x in rest && x != b ==> SizeKey(g.headers)(x) == SizeKey(h.headers)(x))
            && SizeKey(g.headers)(b) == FreedEnd(h, a) - b >= SizeKey(h.headers)(b)
            && (MergesLeft(h, a) ==> b in rest && g.index == rest)
            && (!MergesLeft(h, a) ==> b == a && g.index == Inserted(rest, SizeKey(g.headers), a))
  {
    MergesAre(h, tiles, loose, a);
    FreeBounds(h, tiles, loose, a);
    FreeLeavesTags(h, a);
    var b, rest := FreedStart(h, a), FreedIndex(h, a);
    if MergesRight(h, a) {
      RemovedMembers(h.index, IndexOf(h.index, End(h, a)));
    }
    assert a !in h.index;
    hide Inserted, Removed;
  }

  /** The hole that hfree grows in place, if it merges to the left, is then not larger than the next one. */
  predicate InOrder(h: HeapState, a: int)
    requires MergesRight(h, a) ==> End(h, a) in h.index
  {
    MergesLeft(h, a) ==>
      var rest := FreedIndex(h, a);
      var k := IndexOf(rest, FreedStart(h, a));
      k + 1 < |rest| ==> FreedEnd(h, a) - FreedStart(h, a) <= Size(h, rest[k + 1])
  }

  lemma InOrderIs(h: HeapState, a: int)
    requires MergesRight(h, a) ==> End(h, a) in h.index
    ensures var rest, b := FreedIndex(h, a), FreedStart(h, a);
            InOrder(h, a) <==> (MergesLeft(h, a) ==>
              (IndexOf(rest, b) + 1 < |rest| ==> FreedEnd(h, a) - b <= SizeKey(h.headers)(rest[IndexOf(rest, b) + 1])))
  {
    hide MergesLeft, FreedIndex, FreedStart, FreedEnd, IndexOf;
  }

  lemma GrownInPlace(index: seq<int>, before: map<int, Header>, after: map<int, Header>, b: int)
    requires Distinct(index) && b in index && Sorted(index, SizeKey(before))
    requires forall x :: x in index && x != b ==> SizeKey(after)(x) == SizeKey(before)(x)
    requires SizeKey(before)(b) <= SizeKey(after)(b)
    ensures var k := IndexOf(index, b);
            Sorted(index, SizeKey(after)) <==> (k + 1 < |index| ==> SizeKey(after)(b) <= SizeKey(before)(index[k + 1]))
  {
    hide Sorted;
    GrowingSortedExact(index, before, after, IndexOf(index, b));
  }

  lemma PutBackSortedExact(index: seq<int>, before: map<int, Header>, after: map<int, Header>, a: int)
    requires a !in index && forall x :: x in index && x != a ==> SizeKey(after)(x) == SizeKey(before)(x)
    ensures Sorted(Inserted(index, SizeKey(after), a), SizeKey(after)) <==> Sorted(index, SizeKey(before))
  {
    forall i | 0 <= i < |index| ensures SizeKey(before)(index[i]) == SizeKey(after)(index[i]) {
      assert index[i] in index && index[i] != a;
    }
    hide Sorted, Inserted;
    SortedSame(index, SizeKey(before), SizeKey(after));
    InsertedSortedExact(index, SizeKey(after), a);
  }

  /**
   * hfree leaves a sorted index sorted exactly when it does not merge to the left, or the hole it merges
   * with is not grown past the next one still in the index.
   */
  lemma FreeSortedExact(h: HeapState, tiles: set<int>, loose: set<int>, a: int)
    requires Sound(h, tiles, loose) && Freeable(h, tiles, loose, a) && Sorted(h.index, SizeKey(h.headers))
    ensures MergesRight(h, a) ==> End(h, a) in h.index
    ensures Sorted(Free(h, a).index, SizeKey(Free(h, a).headers)) <==> InOrder(h, a)
  {
    FreedSizes(h, tiles, loose, a);
    if MergesRight(h, a) {
      RemoveKeepsSorted(h.index, SizeKey(h.headers), IndexOf(h.index, End(h, a)));
    }
    var b, rest, g := FreedStart(h, a), FreedIndex(h, a), Free(h, a);
    hide *;
    InOrderIs(h, a);
    if MergesLeft(h, a) {
      GrownInPlace(rest, h.headers, g.headers, b);
    } else {
      PutBackSortedExact(rest, h.headers, g.headers, a);
    }
  }

  // ---- Runs ------------------------------------------------------------------

  ghost predicate SortedCourse(c: Course) {
    Sorted(c.heap.index, SizeKey(c.heap.headers))
  }

  /** A call that grows no hole past the next one in the index. */
  ghost predicate Orderly(c: Course, op: Op)
    requires SoundCourse(c) && Allowed(c, op)
  {
    op.Hfree? ==>
      (MergesAre(c.heap, TilesOf(c.heap), c.loose, op.data - 9);
       InOrder(c.heap, op.data - 9))
  }

  /** The index is sorted before a run and after each of its calls. */
  ghost predicate AlwaysSorted(c: Course, ops: seq<Op>)
    requires SoundCourse(c) && AllAllowed(c, ops)
    decreases |ops|
  {
    SortedCourse(c) && (ops != [] ==> (NextSound(c, ops[0]); AlwaysSorted(Next(c, ops[0]), ops[1..])))
  }

  ghost predicate AllOrderly(c: Course, ops: seq<Op>)
    requires SoundCourse(c) && AllAllowed(c, ops)
    decreases |ops|
  {
    ops != [] ==> Orderly(c, ops[0]) && (NextSound(c, ops[0]); AllOrderly(Next(c, ops[0]), ops[1..]))
  }

  lemma NextSortedExact(c: Course, op: Op)
    requires SoundCourse(c) && Allowed(c, op) && SortedCourse(c)
    ensures SoundCourse(Next(c, op)) && (SortedCourse(Next(c, op)) <==> Orderly(c, op))
  {
    hide Sound, Sorted, Alloc, Free, Freeable, InOrder, TilesOf;
    NextSound(c, op);
    match op
    case Halloc(size) =>
      AllocKeepsSorted(c.heap, TilesOf(c.heap), c.loose, size);
      HallocIs(c, size);
    case Hfree(data) =>
      FreeSortedExact(c.heap, TilesOf(c.heap), c.loose, data - 9);
      HfreeIs(c, data);
  }

  /** Over a run the index stays sorted exactly when no hfree of the run grows a hole past the next one. */
  lemma {:induction false} RunSortedExact(c: Course, ops: seq<Op>)
    requires SoundCourse(c) && AllAllowed(c, ops) && SortedCourse(c)
    ensures AlwaysSorted(c, ops) <==> AllOrderly(c, ops)
    decreases |ops|
  {
    hide SoundCourse, Allowed, Next, Orderly, SortedCourse;
    if ops != [] {
      NextSound(c, ops[0]);
      NextSortedExact(c, ops[0]);
      if SortedCourse(Next(c, ops[0])) {
        RunSortedExact(Next(c, ops[0]), ops[1..]);
      }
    }
  }

  /** From create_heap on, after a run of orderly calls the scan finds a smallest hole that fits, for every request. */
  lemma OrderlyRunsFitBest(start: nat, end: nat, max: nat, ops: seq<Op>, need: int)
    requires start + 0x81011 <= end && SoundCourse(Fresh(start, end, max)) && AllAllowed(Fresh(start, end, max), ops)
    requires AllOrderly(Fresh(start, end, max), ops)
    ensures var h := AfterAll(Fresh(start, end, max), ops).heap; BestFor(h.headers, h.index, need)
  {
    hide SoundCourse, AllAllowed, AllOrderly, AfterAll, BestFor;
    var c := Fresh(start, end, max);
    RunSortedExact(c, ops);
    SortedAtEnd(c, ops);
    var h := AfterAll(c, ops).heap;
    BestFit(h.headers, h.index, need);
  }

  lemma {:induction false} SortedAtEnd(c: Course, ops: seq<Op>)
    requires SoundCourse(c) && AllAllowed(c, ops) && AlwaysSorted(c, ops)
    ensures SortedCourse(AfterAll(c, ops))
    decreases |ops|
  {
    hide SoundCourse, Allowed, Next, SortedCourse;
    if ops != [] {
      NextSound(c, ops[0]);
      SortedAtEnd(Next(c, ops[0]), ops[1..]);
    }
  }
}
