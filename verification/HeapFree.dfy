/** What hfree keeps of a sound heap, what it loses after a merge to the right, and how it undoes halloc. */
module HeapFree {
  import opened OrderedArray
  import opened HeapValue
  import opened HeapSafety

  /** The hole the freed block becomes part of starts here. */
  function FreedStart(h: HeapState, a: int): int {
    if MergesLeft(h, a) then h.footers[a - 8] else a
  }

  /** a is a block that may be freed: the hole it becomes ends below the heap end, and no loose hole ends at a. */
  ghost predicate Freeable(h: HeapState, tiles: set<int>, loose: set<int>, a: int) {
    && a in tiles && a !in loose && IsLive(h, a) && End(h, a) < h.end && FreedEnd(h, a) < h.end
    && forall l :: l in tiles && l in loose ==> End(h, l) != a
  }

  /** The tags decide the merges: left exactly when a hole ends at a, right exactly when one starts behind a. */
  lemma MergesAre(h: HeapState, tiles: set<int>, loose: set<int>, a: int)
    requires Sound(h, tiles, loose) && Freeable(h, tiles, loose, a)
    ensures MergesLeft(h, a) <==> exists l :: l in tiles && IsHole(h, l) && End(h, l) == a
    ensures MergesLeft(h, a) ==> IsHole(h, FreedStart(h, a)) && FreedStart(h, a) in tiles && FreedStart(h, a) !in loose && End(h, FreedStart(h, a)) == a
    ensures End(h, a) in tiles && (MergesRight(h, a) ==> End(h, a) in h.index)
    ensures FreedEnd(h, a) in tiles && !IsHole(h, FreedEnd(h, a))
  {
    assert Tile(h, tiles, a);
    assert End(h, a) in tiles && Tile(h, tiles, End(h, a));
    if a != h.start {
      var l := Covered(h, tiles, a - 1);
      assert Tile(h, tiles, l) && End(h, l) == a;
      assert FooterOk(h, l);
      assert MergesLeft(h, a) <==> IsHole(h, l);
      forall k | k in tiles && End(h, k) == a ensures k == l {
        assert Tile(h, tiles, k);
      }
    } else {
      forall k | k in tiles ensures End(h, k) != a {
        assert Tile(h, tiles, k);
      }
    }
  }

  /** g is h with the tiles from b to e replaced by one hole. */
  ghost predicate Merges(h: HeapState, g: HeapState, tiles: set<int>, b: int, e: int) {
    && g.start == h.start && g.end == h.end && g.max == h.max
    && b in g.headers && g.headers[b] == Header(true, e - b)
    && forall x :: x in tiles && (x < b || e <= x) ==> Same(h, g, x)
  }

  /** The tiles without those strictly inside b..e. */
  ghost function Outside(tiles: set<int>, b: int, e: int): set<int> {
    set x | x in tiles && (x <= b || e <= x)
  }

  lemma MergeTile(h: HeapState, g: HeapState, tiles: set<int>, b: int, e: int, x: int)
    requires Tiled(h, tiles) && b in tiles && e in tiles && b < e && Merges(h, g, tiles, b, e)
    requires x in tiles && (x <= b || e <= x)
    ensures End(g, x) == if x == b then e else End(h, x)
    ensures x < b ==> End(h, x) <= b
    ensures Tile(g, Outside(tiles, b, e), x)
  {
    assert Tile(h, tiles, b) && Tile(h, tiles, e) && Tile(h, tiles, x);
    assert x != b ==> Same(h, g, x);
  }

  lemma MergeTiled(h: HeapState, g: HeapState, tiles: set<int>, b: int, e: int)
    requires Tiled(h, tiles) && b in tiles && e in tiles && b < e && Merges(h, g, tiles, b, e)
    ensures Tiled(g, Outside(tiles, b, e))
    ensures forall x :: x in tiles && x < b ==> End(h, x) <= b && End(g, x) == End(h, x)
    ensures forall x :: x in tiles && e <= x ==> End(g, x) == End(h, x)
  {
    var left := Outside(tiles, b, e);
    assert Tile(h, tiles, b);
    forall x | x in tiles && (x <= b || e <= x)
      ensures Tile(g, left, x) && End(g, x) == (if x == b then e else End(h, x)) && (x < b ==> End(h, x) <= b)
    {
      MergeTile(h, g, tiles, b, e, x);
    }
    hide Tile, Merges;
    forall x, y | x in left && y in left && x < y ensures End(g, x) <= y {
      assert x in tiles && y in tiles;
    }
  }

  lemma FreeLeavesTags(h: HeapState, a: int)
    requires a in h.headers && (MergesRight(h, a) ==> End(h, a) in h.index)
    ensures forall x :: x in h.footers && x != End(h, a) - 8 ==> x in Free(h, a).footers && Free(h, a).footers[x] == h.footers[x]
    ensures forall x :: x != a && x != FreedStart(h, a) ==> Same(h, Free(h, a), x)
    ensures var b, g := FreedStart(h, a), Free(h, a);
            && g.start == h.start && g.end == h.end && g.max == h.max && b in g.headers
            && g.headers[b] == Header(true, FreedEnd(h, a) - a + if MergesLeft(h, a) then Size(h, b) else 0)
  {
    hide FreedEnd, FreedIndex, Inserted;
  }

  lemma FreeBounds(h: HeapState, tiles: set<int>, loose: set<int>, a: int)
    requires Sound(h, tiles, loose) && Freeable(h, tiles, loose, a)
    ensures MergesRight(h, a) ==> End(h, a) in h.index
    ensures FreedStart(h, a) in tiles && FreedEnd(h, a) in tiles && FreedStart(h, a) <= a < End(h, a) <= FreedEnd(h, a)
    ensures FreedStart(h, a) + (if MergesLeft(h, a) then Size(h, FreedStart(h, a)) else 0) == a && a in h.headers
    ensures forall x :: x in tiles && FreedStart(h, a) < x < FreedEnd(h, a) ==> x == a || (x == End(h, a) && MergesRight(h, a))
  {
    MergesAre(h, tiles, loose, a);
    assert Tile(h, tiles, a) && Tile(h, tiles, End(h, a)) && Tile(h, tiles, FreedStart(h, a));
    hide FootersOk, IndexOk, HolesApart, MergesLeft, IsHole;
  }

  lemma MergesFrom(h: HeapState, g: HeapState, tiles: set<int>, b: int, e: int, a: int, more: int)
    requires g.start == h.start && g.end == h.end && g.max == h.max && b in g.headers
    requires g.headers[b] == Header(true, e - a + more) && b + more == a && b <= a < e
    requires forall x :: x != a && x != b ==> Same(h, g, x)
    ensures Merges(h, g, tiles, b, e)
  {
  }

  lemma FreeMerges(h: HeapState, tiles: set<int>, loose: set<int>, a: int)
    requires Sound(h, tiles, loose) && Freeable(h, tiles, loose, a)
    ensures MergesRight(h, a) ==> End(h, a) in h.index
    ensures Merges(h, Free(h, a), tiles, FreedStart(h, a), FreedEnd(h, a))
    ensures FreedStart(h, a) in tiles && FreedEnd(h, a) in tiles && FreedStart(h, a) <= a < End(h, a) <= FreedEnd(h, a)
    ensures forall x :: x in tiles && FreedStart(h, a) < x < FreedEnd(h, a) ==> x == a || (x == End(h, a) && MergesRight(h, a))
  {
    hide *;
    FreeBounds(h, tiles, loose, a);
    FreeLeavesTags(h, a);
    MergesFrom(h, Free(h, a), tiles, FreedStart(h, a), FreedEnd(h, a), a,
               if MergesLeft(h, a) then Size(h, FreedStart(h, a)) else 0);
  }

  lemma FreeFooters(h: HeapState, tiles: set<int>, loose: set<int>, a: int)
    requires Sound(h, tiles, loose) && Freeable(h, tiles, loose, a)
    ensures MergesRight(h, a) ==> End(h, a) in h.index
    ensures var b := FreedStart(h, a);
            FootersOk(Free(h, a), Outside(tiles, b, FreedEnd(h, a)), if MergesRight(h, a) then loose + {b} else loose)
  {
    MergesAre(h, tiles, loose, a);
    FreeMerges(h, tiles, loose, a);
    var b, e, g := FreedStart(h, a), FreedEnd(h, a), Free(h, a);
    assert Tile(h, tiles, a) && Tile(h, tiles, b);
    assert FooterOk(h, a) || a in loose;
    forall x | x in Outside(tiles, b, e) && x !in loose && (x != b || !MergesRight(h, a)) ensures FooterOk(g, x) {
      if x != b {
        assert Same(h, g, x) && FooterOk(h, x) && Tile(h, tiles, x);
      }
    }
  }

  lemma FreeMembers(h: HeapState, a: int)
    requires a in h.headers && Distinct(h.index) && (MergesRight(h, a) ==> End(h, a) in h.index)
    requires !MergesLeft(h, a) ==> a !in h.index
    ensures Distinct(Free(h, a).index)
    ensures forall x :: x in Free(h, a).index <==>
                          (x in h.index && !(MergesRight(h, a) && x == End(h, a))) || (!MergesLeft(h, a) && x == a)
  {
    var r := End(h, a);
    var index := if MergesRight(h, a) then Removed(h.index, IndexOf(h.index, r)) else h.index;
    if MergesRight(h, a) {
      RemovedMembers(h.index, IndexOf(h.index, r));
    }
    InsertedMembers(index, SizeKey(Free(h, a).headers), a);
    hide Inserted, Removed;
    assert Free(h, a).index == if MergesLeft(h, a) then index else Inserted(index, SizeKey(Free(h, a).headers), a);
  }

  /** An index that lost the hole inside b..e and lists b is right for the merged tiles. */
  lemma MergeIndex(h: HeapState, g: HeapState, tiles: set<int>, b: int, e: int, gone: int)
    requires IndexOk(h, tiles) && Merges(h, g, tiles, b, e) && b in tiles && b < e
    requires Distinct(g.index) && forall x :: x in g.index <==> (x in h.index && x != gone) || x == b
    requires gone in h.index && gone != b ==> b < gone < e
    requires forall x :: x in h.index && b < x < e ==> x == gone
    ensures IndexOk(g, Outside(tiles, b, e))
  {
    forall x ensures x in g.index <==> x in Outside(tiles, b, e) && IsHole(g, x) {
      assert x in tiles && (x < b || e <= x) ==> Same(h, g, x);
    }
  }

  lemma FreeIndex(h: HeapState, tiles: set<int>, loose: set<int>, a: int)
    requires Sound(h, tiles, loose) && Freeable(h, tiles, loose, a)
    ensures MergesRight(h, a) ==> End(h, a) in h.index
    ensures IndexOk(Free(h, a), Outside(tiles, FreedStart(h, a), FreedEnd(h, a)))
  {
    MergesAre(h, tiles, loose, a);
    assert a !in h.index;
    assert MergesLeft(h, a) ==> FreedStart(h, a) in h.index;
    hide Sound, IsHole, IsLive;
    FreeMerges(h, tiles, loose, a);
    FreeMembers(h, a);
    hide Free, MergesRight, Freeable, FreedEnd;
    MergeIndex(h, Free(h, a), tiles, FreedStart(h, a), FreedEnd(h, a),
               if MergesRight(h, a) then End(h, a) else a);
  }

  lemma FreeApart(h: HeapState, tiles: set<int>, loose: set<int>, a: int)
    requires Sound(h, tiles, loose) && Freeable(h, tiles, loose, a)
    ensures MergesRight(h, a) ==> End(h, a) in h.index
    ensures HolesApart(Free(h, a), Outside(tiles, FreedStart(h, a), FreedEnd(h, a)))
  {
    MergesAre(h, tiles, loose, a);
    FreeMerges(h, tiles, loose, a);
    var b, e, g := FreedStart(h, a), FreedEnd(h, a), Free(h, a);
    MergeTiled(h, g, tiles, b, e);
    hide Free;
    forall x | x in Outside(tiles, b, e) && IsHole(g, x) && End(g, x) in Outside(tiles, b, e)
      ensures !IsHole(g, End(g, x))
    {
      assert Tile(h, tiles, x);
      if x == b {
        assert End(g, x) == e && Same(h, g, e);
      } else {
        assert Same(h, g, x) && !IsHole(h, End(h, x));
        assert End(h, x) == b ==> IsHole(h, b) || b == a;
        assert End(h, x) != b ==> Same(h, g, End(h, x));
      }
    }
  }

  /** hfree keeps the heap sound, up to the footer of a hole that was merged to the right. */
  lemma FreeKeeps(h: HeapState, tiles: set<int>, loose: set<int>, a: int)
    requires Sound(h, tiles, loose) && Freeable(h, tiles, loose, a)
    ensures MergesRight(h, a) ==> End(h, a) in h.index
    ensures var b, e := FreedStart(h, a), FreedEnd(h, a);
            && Sound(Free(h, a), Outside(tiles, b, e), if MergesRight(h, a) then loose + {b} else loose)
            && b <= a && End(h, a) <= e < Free(h, a).end
            && b in Outside(tiles, b, e) && b in Free(h, a).headers && Free(h, a).headers[b] == Header(true, e - b)
            && (forall x :: x in tiles && IsLive(h, x) && x != a ==> x in Outside(tiles, b, e) && Same(h, Free(h, a), x))
  {
    assert a in h.headers;
    hide *;
    FreeMerges(h, tiles, loose, a);
    FreeFooters(h, tiles, loose, a);
    FreeIndex(h, tiles, loose, a);
    FreeApart(h, tiles, loose, a);
    FreedLive(h, Free(h, a), tiles, loose, a);
  }

  lemma FreedLive(h: HeapState, g: HeapState, tiles: set<int>, loose: set<int>, a: int)
    requires Sound(h, tiles, loose) && Freeable(h, tiles, loose, a)
    requires Merges(h, g, tiles, FreedStart(h, a), FreedEnd(h, a))
    requires FreedStart(h, a) in tiles && FreedEnd(h, a) in tiles && FreedStart(h, a) <= a < End(h, a) <= FreedEnd(h, a)
    requires forall x :: x in tiles && FreedStart(h, a) < x < FreedEnd(h, a) ==> x == a || (x == End(h, a) && MergesRight(h, a))
    requires var left := Outside(tiles, FreedStart(h, a), FreedEnd(h, a));
             IndexOk(g, left) && HolesApart(g, left) &&
             FootersOk(g, left, if MergesRight(h, a) then loose + {FreedStart(h, a)} else loose)
    ensures var b, e := FreedStart(h, a), FreedEnd(h, a);
            && Sound(g, Outside(tiles, b, e), if MergesRight(h, a) then loose + {b} else loose)
            && e < g.end && b in Outside(tiles, b, e) && b in g.headers && g.headers[b] == Header(true, e - b)
            && (forall x :: x in tiles && IsLive(h, x) && x != a ==> x in Outside(tiles, b, e) && Same(h, g, x))
  {
    var b, e := FreedStart(h, a), FreedEnd(h, a);
    hide FootersOk, IndexOk, HolesApart;
    MergeTiled(h, g, tiles, b, e);
    StartNotLive(h, tiles, loose, a);
    hide FreedEnd, FreedStart;
  }

  lemma StartNotLive(h: HeapState, tiles: set<int>, loose: set<int>, a: int)
    requires Sound(h, tiles, loose) && Freeable(h, tiles, loose, a)
    ensures FreedStart(h, a) == a || !IsLive(h, FreedStart(h, a))
  {
    MergesAre(h, tiles, loose, a);
  }

  lemma StaleBounds(h: HeapState, tiles: set<int>, a: int)
    requires Sound(h, tiles, {}) && Freeable(h, tiles, {}, a) && MergesRight(h, a)
    ensures var r, n := End(h, a), FreedEnd(h, a);
            && a in h.headers && r in h.index && FreedStart(h, a) < r < n && r != a && IsHole(h, r) && a !in h.index
            && n - 8 in h.footers && h.footers[n - 8] == r && n in tiles && IsLive(h, n) && n !in h.index && n != a
  {
    MergesAre(h, tiles, {}, a);
    var r, n := End(h, a), FreedEnd(h, a);
    assert Tile(h, tiles, a) && Tile(h, tiles, r) && Tile(h, tiles, n);
    assert FooterOk(h, r);
    assert n == End(h, r);
    assert FreedStart(h, a) <= a by {
      if MergesLeft(h, a) {
        assert Tile(h, tiles, FreedStart(h, a));
      }
    }
    hide MergesLeft, FreedStart, HolesApart;
  }

  /** After a merge to the right the footer in front of the next block still names the header it swallowed. */
  lemma StaleFooter(h: HeapState, tiles: set<int>, a: int)
    requires Sound(h, tiles, {}) && Freeable(h, tiles, {}, a) && MergesRight(h, a)
    ensures End(h, a) in h.index
    ensures var g, r, n := Free(h, a), End(h, a), FreedEnd(h, a);
            && n - 8 in g.footers && g.footers[n - 8] == r && IsHole(g, r)
            && FreedStart(h, a) < r < n && n in tiles && IsLive(h, n) && Same(h, g, n) && n !in g.index
  {
    StaleBounds(h, tiles, a);
    assert Distinct(h.index);
    hide Sound, Tiled, FootersOk, IndexOk, HolesApart, Freeable, Distinct, Free, FreedStart, MergesLeft, MergesRight, FreedEnd;
    FreeLeavesTags(h, a);
    FreeMembers(h, a);
  }

  /** Every back pointer is right again exactly when the freed block was not merged to the right. */
  lemma BackPointersExact(h: HeapState, tiles: set<int>, a: int)
    requires Sound(h, tiles, {}) && Freeable(h, tiles, {}, a)
    ensures MergesRight(h, a) ==> End(h, a) in h.index
    ensures (exists t :: Sound(Free(h, a), t, {})) <==> !MergesRight(h, a)
  {
    assert a in h.headers;
    hide *;
    FreeKeeps(h, tiles, {}, a);
    var b, e, g := FreedStart(h, a), FreedEnd(h, a), Free(h, a);
    if MergesRight(h, a) {
      StaleFooter(h, tiles, a);
      forall t | Sound(g, t, {}) ensures false {
        NoSoundFooter(g, Outside(tiles, b, e), {} + {b}, t, b, e);
      }
    } else {
      assert Sound(g, Outside(tiles, b, e), {});
    }
  }

  lemma NoSoundFooter(g: HeapState, left: set<int>, loose: set<int>, t: set<int>, b: int, e: int)
    requires Sound(g, left, loose) && b in left && b in g.headers && g.headers[b] == Header(true, e - b) && e < g.end
    requires e - 8 in g.footers && g.footers[e - 8] != b
    ensures !Sound(g, t, {})
  {
    if Sound(g, t, {}) {
      SoundFooter(g, left, loose, t, b);
    }
  }

  lemma SoundFooter(g: HeapState, left: set<int>, loose: set<int>, t: set<int>, b: int)
    requires Sound(g, left, loose) && b in left && Sound(g, t, {})
    ensures FooterOk(g, b)
  {
    TilingUnique(g, left, t);
    assert FooterOk(g, b);
  }

  /**
   * After a merge to the right the stale footer leads the next free astray: it merges into the header
   * inside the hole, and no tiling of the resulting heap is sound.
   */
  lemma StaleFooterBreaksNextFree(h: HeapState, tiles: set<int>, a: int)
    requires Sound(h, tiles, {}) && Freeable(h, tiles, {}, a) && MergesRight(h, a)
    requires End(h, FreedEnd(h, a)) < h.end
    ensures End(h, a) in h.index
    ensures var g, n := Free(h, a), FreedEnd(h, a);
            && IsLive(g, n) && MergesLeft(g, n) && FreedStart(g, n) == End(h, a)
            && (MergesRight(g, n) ==> End(g, n) in g.index)
            && forall t, l :: !Sound(Free(g, n), t, l)
  {
    FreeKeeps(h, tiles, {}, a);
    StaleFooter(h, tiles, a);
    var b, n := FreedStart(h, a), FreedEnd(h, a);
    hide *;
    StaleNext(h, tiles, a);
    StaleFreeBreaks(Free(h, a), Outside(tiles, b, n), {} + {b}, n);
  }

  lemma StaleNext(h: HeapState, tiles: set<int>, a: int)
    requires MergesRight(h, a) && a in h.headers && End(h, a) in h.index
    requires var g, r, n := Free(h, a), End(h, a), FreedEnd(h, a);
             && n - 8 in g.footers && g.footers[n - 8] == r && IsHole(g, r)
             && FreedStart(h, a) < r < n && n in tiles && IsLive(h, n) && Same(h, g, n)
    requires End(h, FreedEnd(h, a)) < h.end
    ensures var g, n := Free(h, a), FreedEnd(h, a);
            var left := Outside(tiles, FreedStart(h, a), n);
            && n in left && End(g, n) < g.end && IsLive(g, n)
            && MergesLeft(g, n) && FreedStart(g, n) == End(h, a) && FreedStart(g, n) !in left && FreedStart(g, n) != n
  {
    var g := Free(h, a);
    assert g.end == h.end;
    hide Free;
  }

  lemma StaleFreeBreaks(g: HeapState, left: set<int>, loose: set<int>, n: int)
    requires Sound(g, left, loose) && n in left && End(g, n) < g.end && IsLive(g, n) && n !in g.index
    requires MergesLeft(g, n) && FreedStart(g, n) !in left && FreedStart(g, n) != n
    ensures MergesRight(g, n) ==> End(g, n) in g.index
    ensures forall t, l :: !Sound(Free(g, n), t, l)
  {
    assert Tile(g, left, n);
    assert MergesRight(g, n) ==> End(g, n) in g.index;
    var k := Free(g, n);
    FreeMembers(g, n);
    assert IsHole(k, n) && n !in k.index;
    forall x | x in left && x < n ensures x in k.headers && Size(k, x) == Size(g, x) && End(g, x) < k.end {
      assert Tile(g, left, x);
    }
    hide Free;
    forall t, l ensures !Sound(k, t, l) {
      if Sound(k, t, l) {
        TilesAgree(g, left, k, t, n);
      }
    }
  }

  /** Freeing the block just cut from a hole gives back the tiles, their headers and the indexed holes. */
  lemma FreeUndoesCut(h: HeapState, tiles: set<int>, i: nat, need: int)
    requires Sound(h, tiles, {}) && i < |h.index| && 17 <= need <= Size(h, h.index[i]) && End(h, h.index[i]) < h.end
    ensures h.index[i] in h.headers
    ensures var g, a := Cut(h, i, need), h.index[i];
            && a in g.headers && (MergesRight(g, a) ==> End(g, a) in g.index)
            && Sound(Free(g, a), tiles, {a})
            && (forall x :: x in tiles ==> Same(h, Free(g, a), x))
            && forall x :: x in Free(g, a).index <==> x in h.index
  {
    CutKeeps(h, tiles, {}, i, need);
    var a := h.index[i];
    var take, g := Taken(h, a, need), Cut(h, i, need);
    var split := SplitTiles(h, tiles, a, take);
    assert a in h.index && Tile(h, tiles, a);
    CutSplits(h, i, need);
    hide Cut;
    SplitTile(h, g, tiles, a, take, a);
    CutNotLeft(h, g, tiles, a, take);
    assert End(h, a) in tiles && !IsHole(h, End(h, a)) && Same(h, g, End(h, a));
    assert FreedStart(g, a) == a && FreedEnd(g, a) == End(h, a);
    FreeKeeps(g, split, {}, a);
    FreeMerges(g, split, {}, a);
    hide Free, MergesLeft, MergesRight, FreedStart, FreedEnd;
    UndoneTiles(h, g, Free(g, a), tiles, a, take);
  }

  lemma CutNotLeft(h: HeapState, g: HeapState, tiles: set<int>, a: int, take: int)
    requires Sound(h, tiles, {}) && a in tiles && IsHole(h, a) && End(h, a) < h.end
    requires 17 <= take && (take == Size(h, a) || take + 17 <= Size(h, a)) && Splits(h, g, a, take)
    requires Sound(g, SplitTiles(h, tiles, a, take), {})
    ensures !MergesLeft(g, a)
  {
    var split := SplitTiles(h, tiles, a, take);
    assert Tile(h, tiles, a) && Tile(g, split, a);
    if a != h.start {
      var l := Covered(h, tiles, a - 1);
      assert Tile(h, tiles, l) && End(h, l) == a && Same(h, g, l);
      assert !IsHole(h, l);
      assert FooterOk(g, l);
    }
  }

  lemma UndoneTiles(h: HeapState, g: HeapState, f: HeapState, tiles: set<int>, a: int, take: int)
    requires Sound(h, tiles, {}) && a in tiles && IsHole(h, a) && 17 <= take <= Size(h, a) && Splits(h, g, a, take)
    requires Merges(g, f, SplitTiles(h, tiles, a, take), a, End(h, a))
    requires Sound(f, Outside(SplitTiles(h, tiles, a, take), a, End(h, a)), {a})
    ensures Sound(f, tiles, {a})
    ensures forall x :: x in tiles ==> Same(h, f, x)
    ensures forall x :: x in f.index <==> x in h.index
  {
    forall x | x in tiles ensures x <= a || End(h, a) <= x {
      assert Tile(h, tiles, x);
    }
    assert Outside(SplitTiles(h, tiles, a, take), a, End(h, a)) == tiles;
    forall x | x in tiles ensures Same(h, f, x) {
      assert x != a ==> Same(h, g, x) && Same(g, f, x);
    }
    forall x ensures x in f.index <==> x in h.index {
      assert x in tiles ==> Same(h, f, x);
    }
  }
}
