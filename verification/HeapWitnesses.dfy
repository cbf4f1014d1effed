/** Short runs from create_heap that reach the heaps in which hfree, expand and the scan go wrong. */
module HeapWitnesses {
  import opened Bytes
  import opened OrderedArray
  import opened HeapValue
  import opened HeapSafety
  import opened HeapFree
  import opened HeapRuns
  import opened HeapMixedRuns

  /** The one-page heap that create_heap(0, 0x82000, 0x90000) makes, all of it one hole. */
  function OnePage(): (c: Course)
    ensures c == Course(HeapState(map[0x81000 := Header(true, 4096)], map[], [0x81000], 0x81000, 0x82000, 0x90000), {}, map[])
  {
    assert 0x80000 % 0x1000 == 0;
    Fresh(0, 0x82000, 0x90000)
  }

  /** The heap after a block for size bytes was cut from its only hole, at e and of z bytes. */
  function CutAt(h: HeapState, e: int, z: int, size: nat): HeapState {
    h.(headers := h.headers[e := Header(false, size + 17)][e + size + 17 := Header(true, z - size - 17)],
       footers := h.footers[e + size + 9 := e][e + z - 8 := e + size + 17],
       index := [e + size + 17])
  }

  lemma CutIs(h: HeapState, e: int, z: int, size: nat)
    requires h.index == [e] && e in h.headers && h.headers[e] == Header(true, z) && size + 34 <= z && e + z <= h.end
    ensures FirstFit(h.headers, h.index, size + 17) == 0 && Cut(h, 0, size + 17) == CutAt(h, e, z, size)
  {
    FirstFitIs(h.headers, h.index, size + 17, 0);
    InsertedInEmpty(SizeKey(CutAt(h, e, z, size).headers), e + size + 17);
    assert Removed([e], 0) == [];
    hide Inserted, FirstFit;
  }

  /** halloc with one hole, larger than the request. */
  lemma HallocCuts(c: Course, e: int, z: int, size: U32)
    requires Reached(c) && SoundCourse(c) && c.heap.index == [e] && e in c.heap.headers && c.heap.headers[e] == Header(true, z)
    requires size < 0xFFFF_FFEF && size + 34 <= z && e + z <= c.heap.end
    ensures Allowed(c, Halloc(size)) && Reached(Next(c, Halloc(size))) && SoundCourse(Next(c, Halloc(size)))
    ensures Next(c, Halloc(size)) == Course(CutAt(c.heap, e, z, size), c.loose - {e}, c.owned[e + 9 := size])
  {
    hide *;
    CutIs(c.heap, e, z, size);
    HallocTakesFirst(c, size);
  }

  lemma HallocTakesFirst(c: Course, size: U32)
    requires Reached(c) && SoundCourse(c) && size < 0xFFFF_FFEF && FirstFit(c.heap.headers, c.heap.index, size + 17) == 0 < |c.heap.index|
    ensures Allowed(c, Halloc(size)) && Reached(Next(c, Halloc(size))) && SoundCourse(Next(c, Halloc(size)))
    ensures c.heap.index[0] in c.heap.headers
    ensures var e := c.heap.index[0];
            Next(c, Halloc(size)) == Course(Cut(c.heap, 0, size + 17), c.loose - {e}, c.owned[e + 9 := size])
  {
    var h := c.heap;
    hide Cut, Sound, TilesOf, FirstFit, Grown;
    assert Sound(h, TilesOf(h), c.loose);
    SoundIsReady(h, TilesOf(h), c.loose);
    NeedIs(size);
    hide SoundCourse, Need;
    AllocUnfolds(h, size);
    HallocIs(c, size);
    ReachedNext(c, Halloc(size));
  }

  /** halloc that uses up the only hole. */
  lemma HallocFills(c: Course, e: int, z: U32)
    requires Reached(c) && SoundCourse(c) && c.heap.index == [e] && e in c.heap.headers && c.heap.headers[e] == Header(true, z)
    requires 17 <= z < 0xFFFF_FFEF
    ensures Allowed(c, Halloc(z - 17)) && Reached(Next(c, Halloc(z - 17))) && SoundCourse(Next(c, Halloc(z - 17)))
    ensures var h := c.heap;
            Next(c, Halloc(z - 17)) ==
              Course(h.(headers := h.headers[e := Header(false, z)], footers := h.footers[e + z - 8 := e], index := []),
                     c.loose - {e}, c.owned[e + 9 := z - 17])
  {
    FirstFitIs(c.heap.headers, c.heap.index, z, 0);
    assert Removed([e], 0) == [];
    hide Sound, FirstFit, TilesOf;
    HallocTakesFirst(c, z - 17);
  }

  /** The heap after the block at a became a hole of its own, at index position k. */
  function FreedAt(h: HeapState, a: int, k: nat): HeapState
    requires k <= |h.index|
  {
    h.(headers := h.headers[a := Header(true, Size(h, a))], index := h.index[..k] + [a] + h.index[k..])
  }

  /** k is where the block at a belongs in the index. */
  ghost predicate Place(h: HeapState, a: int, k: nat) {
    && k <= |h.index|
    && (forall j :: 0 <= j < k ==> SizeKey(h.headers)(h.index[j]) < Size(h, a))
    && (k < |h.index| ==> SizeKey(h.headers)(h.index[k]) >= Size(h, a))
  }

  lemma FreeAloneIs(h: HeapState, a: int, k: nat)
    requires a in h.headers && !MergesLeft(h, a) && !MergesRight(h, a) && Place(h, a, k)
    requires forall j :: 0 <= j < |h.index| ==> h.index[j] != a
    ensures Free(h, a) == FreedAt(h, a, k)
  {
    var headers := h.headers[a := Header(true, Size(h, a))];
    assert FreedHeaders(h, a) == headers;
    PositionIs(h.index, SizeKey(headers), a, k);
    hide Position;
  }

  /** hfree between two blocks. */
  lemma HfreeAlone(c: Course, a: int, k: nat)
    requires Reached(c) && SoundCourse(c) && c.loose == {} && a + 9 in c.owned && a in c.heap.headers
    requires !MergesLeft(c.heap, a) && IsLive(c.heap, End(c.heap, a)) && End(c.heap, a) < c.heap.end && Place(c.heap, a, k)
    ensures Allowed(c, Hfree(a + 9)) && Reached(Next(c, Hfree(a + 9))) && SoundCourse(Next(c, Hfree(a + 9)))
    ensures Next(c, Hfree(a + 9)) == Course(FreedAt(c.heap, a, k), {}, c.owned - {a + 9})
  {
    hide *;
    NoRightMerge(c.heap, a);
    HfreeAllowed(c, a);
    HfreeIs(c, a + 9);
    ReachedNext(c, Hfree(a + 9));
    NotIndexed(c, a);
    FreeAloneIs(c.heap, a, k);
    NothingLoose(c, a);
  }

  lemma NoRightMerge(h: HeapState, a: int)
    requires IsLive(h, End(h, a))
    ensures !MergesRight(h, a) && FreedEnd(h, a) == End(h, a)
  {
  }

  lemma NothingLoose(c: Course, a: int)
    requires c.loose == {} && !MergesRight(c.heap, a)
    ensures forall h :: LooseAfter(c, a, h) == {}
  {
    hide TilesOf;
  }

  lemma NotIndexed(c: Course, a: int)
    requires SoundCourse(c) && a + 9 in c.owned
    ensures forall j :: 0 <= j < |c.heap.index| ==> c.heap.index[j] != a
  {
    hide Tiled, FootersOk, HolesApart, TilesOf;
    assert IsLive(c.heap, a);
    forall j | 0 <= j < |c.heap.index| ensures c.heap.index[j] != a {
      assert c.heap.index[j] in c.heap.index;
    }
  }

  lemma HfreeAllowed(c: Course, a: int)
    requires SoundCourse(c) && c.loose == {} && a + 9 in c.owned && End(c.heap, a) < c.heap.end && FreedEnd(c.heap, a) < c.heap.end
    ensures Allowed(c, Hfree(a + 9))
  {
    hide Sound, TilesOf, FreedEnd;
    assert a in TilesOf(c.heap) && IsLive(c.heap, a);
  }

  /** The page with n blocks of 100 bytes at its front. */
  function Row(n: nat): HeapState {
    if n == 0 then OnePage().heap else CutAt(Row(n - 1), 0x81000 + 100 * (n - 1), 4096 - 100 * (n - 1), 83)
  }

  function At(i: int): int {
    0x81000 + 100 * i
  }

  lemma {:induction false} RowFacts(n: nat)
    requires n <= 40
    ensures var h := Row(n);
            && h.start == 0x81000 && h.end == At(n) + 4096 - 100 * n && h.index == [At(n)]
            && At(n) in h.headers && h.headers[At(n)] == Header(true, 4096 - 100 * n)
            && (forall i :: 0 <= i < n ==> At(i) in h.headers && h.headers[At(i)] == Header(false, 100))
            && (forall i :: 0 <= i < n ==> At(i) + 92 in h.footers && h.footers[At(i) + 92] == At(i))
            && 0x80ff8 !in h.footers
  {
    if n > 0 {
      RowFacts(n - 1);
    }
  }

  lemma {:induction false} RowReached(n: nat) returns (c: Course)
    requires n <= 40
    ensures Reached(c) && SoundCourse(c) && c.heap == Row(n) && c.loose == {}
    ensures forall i :: 0 <= i < n ==> At(i) + 9 in c.owned
    decreases n
  {
    hide *;
    if n == 0 {
      c := EmptyRow();
    } else {
      var b := RowReached(n - 1);
      c := RowStep(b, n - 1);
    }
  }

  lemma EmptyRow() returns (c: Course)
    ensures Reached(c) && SoundCourse(c) && c.heap == Row(0) && c.loose == {}
  {
    hide Reached, SoundCourse;
    ReachedFresh(0, 0x82000, 0x90000);
    c := OnePage();
  }

  lemma RowStep(b: Course, n: nat) returns (c: Course)
    requires n < 40 && Reached(b) && SoundCourse(b) && b.heap == Row(n) && b.loose == {}
    requires forall i :: 0 <= i < n ==> At(i) + 9 in b.owned
    ensures Reached(c) && SoundCourse(c) && c.heap == Row(n + 1) && c.loose == {}
    ensures forall i :: 0 <= i < n + 1 ==> At(i) + 9 in c.owned
  {
    hide *;
    RowFacts(n);
    HallocCuts(b, At(n), 4096 - 100 * n, 83);
    c := Next(b, Halloc(83));
    RowIs(n);
  }

  lemma RowIs(n: nat)
    ensures Row(n + 1) == CutAt(Row(n), At(n), 4096 - 100 * n, 83)
  {
    hide CutAt;
  }

  /** A block of the row between two blocks becomes a hole at the front of the index. */
  lemma RowFree(n: nat, i: nat) returns (c: Course)
    requires i + 1 < n <= 30
    ensures Reached(c) && SoundCourse(c) && c.heap == FreedAt(Row(n), At(i), 0) && c.loose == {}
    ensures forall j :: 0 <= j < n && j != i ==> At(j) + 9 in c.owned
  {
    hide *;
    var b := RowReached(n);
    RowFreeable(n, i);
    HfreeAlone(b, At(i), 0);
    c := Next(b, Hfree(At(i) + 9));
    AtDistinct();
  }

  lemma AtDistinct()
    ensures forall i, j :: At(i) == At(j) ==> i == j
  {
  }

  lemma RowFreeable(n: nat, i: nat)
    requires i + 1 < n <= 30
    ensures var h := Row(n);
            && At(i) in h.headers && !MergesLeft(h, At(i)) && IsLive(h, End(h, At(i))) && End(h, At(i)) < h.end
            && |h.index| == 1 && Place(h, At(i), 0)
  {
    RowFacts(n);
    var h := Row(n);
    hide Row;
    assert End(h, At(i)) == At(i + 1);
    if i > 0 {
      assert At(i) - 8 == At(i - 1) + 92;
      assert IsLive(h, At(i - 1));
    }
  }

  /* --- A stale footer --- */

  /**
   * Of four blocks the second and the first are freed: the merge to the right is followed by a free
   * of the third block that no tiling of the heap survives.
   */
  lemma StaleFooterReached() returns (c: Course)
    ensures Reached(c) && SoundCourse(c) && Allowed(c, Hfree(At(0) + 9)) && At(2) + 9 in c.owned
    ensures MergesRight(c.heap, At(0)) && End(c.heap, At(0)) in c.heap.index && At(0) in c.heap.headers
    ensures var g := Free(c.heap, At(0));
            && IsLive(g, At(2)) && (MergesRight(g, At(2)) ==> End(g, At(2)) in g.index)
            && forall t, l :: !Sound(Free(g, At(2)), t, l)
  {
    hide *;
    c := RowFree(4, 1);
    StaleRow();
    AtDistinct();
    HfreeAllowed(c, At(0));
    StaleAt(c, At(0), At(2));
  }

  lemma StaleRow()
    ensures var h := FreedAt(Row(4), At(1), 0);
            && |Row(4).index| == 1 && At(0) in h.headers && MergesRight(h, At(0)) && FreedEnd(h, At(0)) == At(2)
            && End(h, At(0)) < h.end && End(h, At(2)) < h.end && At(2) < h.end
  {
    RowFacts(4);
    hide Row;
  }

  lemma StaleAt(c: Course, a: int, n: int)
    requires SoundCourse(c) && c.loose == {} && Allowed(c, Hfree(a + 9)) && MergesRight(c.heap, a)
    requires FreedEnd(c.heap, a) == n && End(c.heap, n) < c.heap.end
    ensures End(c.heap, a) in c.heap.index && a in c.heap.headers
    ensures var g := Free(c.heap, a);
            && IsLive(g, n) && (MergesRight(g, n) ==> End(g, n) in g.index)
            && forall t, l :: !Sound(Free(g, n), t, l)
  {
    assert (a + 9) - 9 == a;
    hide TilesOf, Sound, Free, MergesRight, FreedEnd;
    StaleFooterBreaksNextFree(c.heap, TilesOf(c.heap), a);
  }

  /* --- An expansion over a live block --- */

  /**
   * Two blocks fill the page and the first is freed: a request for a further page grows a hole that
   * does not reach the end, over the second block.
   */
  lemma OverlapReached() returns (c: Course)
    ensures Reached(c) && SoundCourse(c) && Ready(c.heap) && At(1) + 9 in c.owned
    ensures FirstFit(c.heap.headers, c.heap.index, 4096) == |c.heap.index| && !AbutsEnd(c.heap)
    ensures var g := Grown(c.heap, 4096);
            && IsHole(g, At(0)) && IsLive(g, At(1)) && At(0) < At(1) < End(g, At(0))
            && forall t, l :: TilesOf(c.heap) <= t ==> !Sound(g, t, l)
  {
    hide *;
    var b := RowReached(1);
    RowFacts(1);
    HallocFills(b, At(1), 3996);
    c := Next(b, Halloc(3979));
    var full := c.heap;
    FilledIs(full);
    FullPage(full);
    AtDistinct();
    HfreeAlone(c, At(0), 0);
    c := Next(c, Hfree(At(0) + 9));
    FullPageOverlaps(full, c);
  }

  ghost predicate Filled(h: HeapState) {
    var r := Row(1);
    h == r.(headers := r.headers[At(1) := Header(false, 3996)], footers := r.footers[At(1) + 3996 - 8 := At(1)], index := [])
  }

  lemma FilledIs(h: HeapState)
    requires h == Row(1).(headers := Row(1).headers[At(1) := Header(false, 3996)],
                          footers := Row(1).footers[At(1) + 3996 - 8 := At(1)], index := [])
    ensures Filled(h)
  {
  }

  lemma FullPage(h: HeapState)
    requires Filled(h)
    ensures At(0) in h.headers && !MergesLeft(h, At(0)) && IsLive(h, End(h, At(0))) && End(h, At(0)) < h.end && Place(h, At(0), 0)
    ensures |h.index| == 0
  {
    RowFacts(1);
    hide Row;
  }

  lemma FullPageOverlaps(full: HeapState, c: Course)
    requires SoundCourse(c) && Filled(full) && |full.index| == 0 && c.heap == FreedAt(full, At(0), 0)
    ensures Ready(c.heap) && FirstFit(c.heap.headers, c.heap.index, 4096) == |c.heap.index| && !AbutsEnd(c.heap)
    ensures var g := Grown(c.heap, 4096);
            && IsHole(g, At(0)) && IsLive(g, At(1)) && At(0) < At(1) < End(g, At(0))
            && forall t, l :: TilesOf(c.heap) <= t ==> !Sound(g, t, l)
  {
    FullPageTarget(full, c.heap);
    hide Filled, FreedAt, AbutsEnd, GrowTarget, Sound, TilesOf, Grown, FirstFit, Row;
    assert Sound(c.heap, TilesOf(c.heap), c.loose);
    hide SoundCourse;
    GrownExact(c.heap, TilesOf(c.heap), c.loose, 4096);
    GrownOverlaps(c.heap, TilesOf(c.heap), c.loose, 4096);
  }

  lemma FullPageTarget(full: HeapState, h: HeapState)
    requires Filled(full) && |full.index| == 0 && h == FreedAt(full, At(0), 0)
    ensures GrowTarget(h) == At(0) && End(h, At(0)) == At(1) && IsLive(h, At(1)) && !AbutsEnd(h)
    ensures FirstFit(h.headers, h.index, 4096) == |h.index|
  {
    RowFacts(1);
    hide Row;
    assert h.index == [At(0)];
    FirstFitIs(h.headers, h.index, 4096, 1);
  }

  /* --- A scan that misses the smallest hole --- */

  /** Five blocks of which the fourth and then the first was freed. */
  function Gaps(): HeapState {
    RowFacts(5);
    FreedAt(FreedAt(Row(5), At(3), 0), At(0), 0)
  }

  /**
   * Of five blocks the fourth, the first and the second are freed: the hole made of the first two is
   * larger than the fourth, but stays in front of it, and the scan takes it for a request of the smaller size.
   */
  lemma MissReached() returns (c: Course)
    ensures Reached(c) && SoundCourse(c) && Sorted(c.heap.index, SizeKey(c.heap.headers)) && Allowed(c, Hfree(At(1) + 9))
    ensures var d := Next(c, Hfree(At(1) + 9));
            && Reached(d) && SoundCourse(d)
            && !Sorted(d.heap.index, SizeKey(d.heap.headers)) && !BestFor(d.heap.headers, d.heap.index, 100)
  {
    hide *;
    var b := RowFree(5, 3);
    FirstGap();
    AtDistinct();
    HfreeAlone(b, At(0), 0);
    c := Next(b, Hfree(At(0) + 9));
    GapsIs();
    GapsFacts();
    HfreeAllowed(c, At(1));
    ReachedNext(c, Hfree(At(1) + 9));
    HfreeIs(c, At(1) + 9);
    GapsMiss();
  }

  lemma FirstGap()
    ensures |Row(5).index| == 1
    ensures var h := FreedAt(Row(5), At(3), 0);
            && At(0) in h.headers && !MergesLeft(h, At(0)) && IsLive(h, End(h, At(0))) && End(h, At(0)) < h.end
            && |h.index| == 2 && Place(h, At(0), 0)
  {
    RowFacts(5);
    hide Row;
  }

  lemma GapsIs()
    ensures |Row(5).index| == 1 && Gaps() == FreedAt(FreedAt(Row(5), At(3), 0), At(0), 0)
  {
    RowFacts(5);
    hide Row;
  }

  lemma GapsFacts()
    ensures var h := Gaps();
            && |Row(5).index| == 1 && h.index == [At(0), At(3), At(5)] && Sorted(h.index, SizeKey(h.headers))
            && At(1) in h.headers && End(h, At(1)) == At(2) < h.end && FreedEnd(h, At(1)) == At(2) && !MergesRight(h, At(1))
            && MergesLeft(h, At(1)) && At(0) in h.headers && h.footers[At(1) - 8] == At(0)
            && Size(h, At(0)) == Size(h, At(1)) == Size(h, At(3)) == 100
  {
    RowFacts(5);
    hide Row;
    var h := Gaps();
    assert At(1) - 8 == At(0) + 92;
    assert IsHole(h, At(0)) && IsLive(h, At(2));
  }

  /** The hole of 200 bytes stays in front of the one of 100. */
  lemma GapsMiss()
    ensures MergesRight(Gaps(), At(1)) ==> End(Gaps(), At(1)) in Gaps().index
    ensures At(1) in Gaps().headers
    ensures var g := Free(Gaps(), At(1));
            !Sorted(g.index, SizeKey(g.headers)) && !BestFor(g.headers, g.index, 100)
  {
    GapsFacts();
    var h := Gaps();
    hide Gaps, MergesLeft, MergesRight;
    var g := Free(h, At(1));
    assert g.index == h.index;
    assert SizeKey(g.headers)(At(0)) == 200 && SizeKey(g.headers)(At(3)) == 100;
    assert g.index[0] == At(0) && g.index[1] == At(3);
    FirstFitIs(g.headers, g.index, 100, 0);
  }
}
