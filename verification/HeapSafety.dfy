/** What a sound heap is, and what halloc keeps of it. */
module HeapSafety {
  import opened Bytes
  import opened OrderedArray
  import opened HeapValue

  /** The block or hole at a is a tile: it ends at the heap end or at another tile. */
  ghost predicate Tile(h: HeapState, tiles: set<int>, a: int) {
    a in h.headers && h.start <= a && 17 <= Size(h, a) && (End(h, a) == h.end || (End(h, a) < h.end && End(h, a) in tiles))
  }

  /** The headers tile start..end. */
  ghost predicate Tiled(h: HeapState, tiles: set<int>) {
    && 0 < h.start < h.end && h.start in tiles
    && (forall a {:trigger Tile(h, tiles, a)} :: a in tiles ==> Tile(h, tiles, a))
    && forall a, b :: a in tiles && b in tiles && a < b ==> End(h, a) <= b
  }

  /** The footer of the tile at a points back to it; the last hole needs none. */
  ghost predicate FooterOk(h: HeapState, a: int) {
    IsLive(h, a) || End(h, a) < h.end ==> End(h, a) - 8 in h.footers && h.footers[End(h, a) - 8] == a
  }

  /** Footers point back, except those of the holes in loose. */
  ghost predicate FootersOk(h: HeapState, tiles: set<int>, loose: set<int>) {
    && h.start - 8 !in h.footers
    && forall a {:trigger FooterOk(h, a)} :: a in tiles && a !in loose ==> FooterOk(h, a)
  }

  /** The index lists every hole once and nothing else. */
  ghost predicate IndexOk(h: HeapState, tiles: set<int>) {
    && (forall a :: a in h.index <==> a in tiles && IsHole(h, a))
    && Distinct(h.index)
  }

  ghost predicate HolesApart(h: HeapState, tiles: set<int>) {
    forall a {:trigger IsHole(h, End(h, a))} :: a in tiles && IsHole(h, a) && End(h, a) in tiles ==> !IsHole(h, End(h, a))
  }

  ghost predicate Sound(h: HeapState, tiles: set<int>, loose: set<int>) {
    Tiled(h, tiles) && FootersOk(h, tiles, loose) && IndexOk(h, tiles) && HolesApart(h, tiles)
  }

  /** Every address of the heap lies in exactly one tile. */
  lemma {:induction false} Covered(h: HeapState, tiles: set<int>, x: int) returns (a: int)
    requires Tiled(h, tiles) && h.start <= x < h.end
    ensures a in tiles && a <= x < End(h, a)
    ensures forall b :: b in tiles && b <= x < End(h, b) ==> b == a
    decreases x - h.start
  {
    a := h.start;
    assert Tile(h, tiles, a);
    if x != h.start {
      a := Covered(h, tiles, x - 1);
      assert Tile(h, tiles, a);
      if End(h, a) == x {
        a := x;
        assert Tile(h, tiles, a);
      }
    }
  }

  /** Two tilings with the same tiles up to x have the same tile behind it: the headers fix the tiling. */
  lemma {:induction false} TilesAgree(h: HeapState, tiles: set<int>, g: HeapState, other: set<int>, a: int)
    requires Tiled(h, tiles) && Tiled(g, other) && h.start == g.start && a in tiles
    requires forall b :: b in tiles && b < a ==> b in g.headers && Size(g, b) == Size(h, b) && End(h, b) < g.end
    ensures a in other
    decreases a - h.start
  {
    assert Tile(h, tiles, a);
    if a != h.start {
      var b := Covered(h, tiles, a - 1);
      TilesAgree(h, tiles, g, other, b);
      assert Tile(g, other, b) && Tile(h, tiles, b);
      assert End(h, b) == a;
    }
  }

  lemma TilesKnown(h: HeapState, tiles: set<int>, a: int)
    requires Tiled(h, tiles) && a in tiles
    ensures a in h.headers && h.start <= a && End(h, a) <= h.end
    ensures forall b :: b in tiles && b < a ==> b in h.headers && End(h, b) < h.end
  {
    assert Tile(h, tiles, a);
    forall b | b in tiles && b < a ensures b in h.headers && End(h, b) < h.end {
      assert Tile(h, tiles, b);
    }
  }

  /** The headers determine the tiling. */
  lemma TilingUnique(h: HeapState, tiles: set<int>, other: set<int>)
    requires Tiled(h, tiles) && Tiled(h, other)
    ensures tiles == other
  {
    forall a | a in tiles ensures a in other {
      TilesKnown(h, tiles, a);
      TilesAgree(h, tiles, h, other, a);
    }
    forall a | a in other ensures a in tiles {
      TilesKnown(h, other, a);
      TilesAgree(h, other, h, tiles, a);
    }
  }

  /* --- halloc --- */

  /** The header at x is the same in both heaps. */
  ghost predicate Same(h: HeapState, g: HeapState, x: int) {
    (x in h.headers <==> x in g.headers) && (x in h.headers ==> h.headers[x] == g.headers[x])
  }

  /** g is h with the hole at pos turned into a block of take bytes, and a hole for the rest. */
  ghost predicate Splits(h: HeapState, g: HeapState, pos: int, take: int) {
    && g.start == h.start && g.end == h.end && g.max == h.max
    && pos in g.headers && g.headers[pos] == Header(false, take)
    && (take < Size(h, pos) ==>
          pos + take in g.headers && g.headers[pos + take] == Header(true, Size(h, pos) - take))
    && forall x :: x != pos && (take < Size(h, pos) ==> x != pos + take) ==> Same(h, g, x)
  }

  /** The bytes cut from the hole at pos: everything when less than two tags would be left over. */
  function Taken(h: HeapState, pos: int, need: int): int {
    if Size(h, pos) - need < 17 then Size(h, pos) else need
  }

  lemma CutSplits(h: HeapState, i: nat, need: int)
    requires i < |h.index| && h.index[i] in h.headers && 0 < need <= Size(h, h.index[i])
    ensures Splits(h, Cut(h, i, need), h.index[i], Taken(h, h.index[i], need))
  {
  }

  ghost function SplitTiles(h: HeapState, tiles: set<int>, pos: int, take: int): set<int> {
    if take < Size(h, pos) then tiles + {pos + take} else tiles
  }

  ghost function SplitLoose(h: HeapState, loose: set<int>, pos: int, take: int): set<int> {
    if take < Size(h, pos) then loose - {pos, pos + take} else loose - {pos}
  }

  lemma SplitTile(h: HeapState, g: HeapState, tiles: set<int>, pos: int, take: int, a: int)
    requires Tiled(h, tiles) && pos in tiles && 17 <= take && (take == Size(h, pos) || take + 17 <= Size(h, pos))
    requires Splits(h, g, pos, take) && a in SplitTiles(h, tiles, pos, take)
    ensures Tile(g, SplitTiles(h, tiles, pos, take), a)
    ensures End(g, a) == if a == pos then pos + take else if a == pos + take < End(h, pos) then End(h, pos) else End(h, a)
  {
    assert Tile(h, tiles, pos);
    if a in tiles {
      assert Tile(h, tiles, a);
      if a != pos {
        assert a <= pos || End(h, pos) <= a;
        assert Same(h, g, a);
      }
    }
  }

  lemma SplitTiled(h: HeapState, g: HeapState, tiles: set<int>, pos: int, take: int)
    requires Tiled(h, tiles) && pos in tiles && 17 <= take && (take == Size(h, pos) || take + 17 <= Size(h, pos))
    requires Splits(h, g, pos, take)
    ensures Tiled(g, SplitTiles(h, tiles, pos, take))
  {
    var split := SplitTiles(h, tiles, pos, take);
    forall a | a in split ensures Tile(g, split, a) {
      SplitTile(h, g, tiles, pos, take, a);
    }
    forall a, b | a in split && b in split && a < b ensures End(g, a) <= b {
      hide Tile, Splits;
      SplitTile(h, g, tiles, pos, take, a);
      SplitTile(h, g, tiles, pos, take, b);
      assert Tile(h, tiles, pos);
    }
  }

  /** The footers a split writes. */
  ghost predicate SplitsFooters(h: HeapState, g: HeapState, pos: int, take: int) {
    && pos + take - 8 in g.footers && g.footers[pos + take - 8] == pos
    && (take < Size(h, pos) && End(h, pos) - 8 < h.end ==>
          End(h, pos) - 8 in g.footers && g.footers[End(h, pos) - 8] == pos + take)
    && forall x :: x != pos + take - 8 && (take < Size(h, pos) ==> x != End(h, pos) - 8) ==>
                     (x in g.footers <==> x in h.footers) && (x in h.footers ==> g.footers[x] == h.footers[x])
  }

  lemma CutSplitsFooters(h: HeapState, i: nat, need: int)
    requires i < |h.index| && h.index[i] in h.headers && 0 < need <= Size(h, h.index[i])
    ensures SplitsFooters(h, Cut(h, i, need), h.index[i], Taken(h, h.index[i], need))
  {
  }

  lemma SplitFooters(h: HeapState, g: HeapState, tiles: set<int>, loose: set<int>, pos: int, take: int)
    requires Tiled(h, tiles) && pos in tiles && 17 <= take && (take == Size(h, pos) || take + 17 <= Size(h, pos))
    requires FootersOk(h, tiles, loose) && Splits(h, g, pos, take) && SplitsFooters(h, g, pos, take)
    ensures FootersOk(g, SplitTiles(h, tiles, pos, take), SplitLoose(h, loose, pos, take))
  {
    var split := SplitTiles(h, tiles, pos, take);
    assert Tile(h, tiles, pos);
    forall a | a in split && a !in SplitLoose(h, loose, pos, take) ensures FooterOk(g, a) {
      SplitTile(h, g, tiles, pos, take, a);
      if a in tiles && a != pos {
        assert Tile(h, tiles, a);
        assert a < pos ==> End(h, a) <= pos;
        assert pos < a ==> End(h, pos) <= a;
        assert Same(h, g, a) && FooterOk(h, a);
      }
    }
  }

  lemma SplitHolesApart(h: HeapState, g: HeapState, tiles: set<int>, pos: int, take: int)
    requires Tiled(h, tiles) && pos in tiles && 17 <= take && (take == Size(h, pos) || take + 17 <= Size(h, pos))
    requires HolesApart(h, tiles) && IsHole(h, pos) && Splits(h, g, pos, take)
    ensures HolesApart(g, SplitTiles(h, tiles, pos, take))
  {
    var split := SplitTiles(h, tiles, pos, take);
    assert Tile(h, tiles, pos);
    assert End(h, pos) in tiles ==> !IsHole(h, End(h, pos)) && Same(h, g, End(h, pos));
    forall a | a in split && IsHole(g, a) && End(g, a) in split ensures !IsHole(g, End(g, a)) {
      SplitTile(h, g, tiles, pos, take, a);
      if a in tiles {
        assert Tile(h, tiles, a) && Same(h, g, a);
        assert !IsHole(h, End(h, a));
        assert Same(h, g, End(h, a));
      }
    }
  }

  lemma CutIndexIs(h: HeapState, i: nat, need: int)
    requires i < |h.index| && h.index[i] in h.headers
    ensures var pos, take, g := h.index[i], Taken(h, h.index[i], need), Cut(h, i, need);
            g.index == if take < Size(h, pos) then Inserted(Removed(h.index, i), SizeKey(g.headers), pos + take)
                       else Removed(h.index, i)
  {
    hide Inserted, Removed;
  }

  lemma CutMembers(h: HeapState, i: nat, need: int)
    requires Distinct(h.index) && i < |h.index| && h.index[i] in h.headers
    requires var take := Taken(h, h.index[i], need); take < Size(h, h.index[i]) ==> h.index[i] + take !in h.index
    ensures var pos, take, index := h.index[i], Taken(h, h.index[i], need), Cut(h, i, need).index;
            Distinct(index) &&
            forall x :: x in index <==> (x in h.index && x != pos) || (take < Size(h, pos) && x == pos + take)
  {
    hide Cut, Inserted, Removed, Distinct, Taken;
    CutIndexIs(h, i, need);
    RemovedMembers(h.index, i);
    InsertedMembers(Removed(h.index, i), SizeKey(Cut(h, i, need).headers), h.index[i] + Taken(h, h.index[i], need));
  }

  lemma SplitIndex(h: HeapState, g: HeapState, tiles: set<int>, pos: int, take: int)
    requires Tiled(h, tiles) && IndexOk(h, tiles) && pos in tiles && 17 <= take <= Size(h, pos)
    requires Splits(h, g, pos, take) && Distinct(g.index)
    requires forall x :: x in g.index <==> (x in h.index && x != pos) || (take < Size(h, pos) && x == pos + take)
    ensures IndexOk(g, SplitTiles(h, tiles, pos, take))
  {
    var split := SplitTiles(h, tiles, pos, take);
    forall a ensures a in g.index <==> a in split && IsHole(g, a) {
      if a in tiles && a != pos {
        assert Same(h, g, a);
      }
    }
  }

  /** Cutting a block from a hole keeps the heap sound. */
  lemma CutKeeps(h: HeapState, tiles: set<int>, loose: set<int>, i: nat, need: int)
    requires Sound(h, tiles, loose) && i < |h.index| && 17 <= need <= Size(h, h.index[i])
    ensures var pos, take := h.index[i], Taken(h, h.index[i], need);
            h.index[i] in h.headers &&
            Sound(Cut(h, i, need), SplitTiles(h, tiles, pos, take), SplitLoose(h, loose, pos, take))
  {
    var pos, take := h.index[i], Taken(h, h.index[i], need);
    assert pos in h.index;
    CutSplits(h, i, need);
    CutSplitsFooters(h, i, need);
    assert Tile(h, tiles, pos);
    CutMembers(h, i, need);
    SplitIndex(h, Cut(h, i, need), tiles, pos, take);
    hide Cut, Splits, SplitsFooters, Tiled, FootersOk, IndexOk, HolesApart;
    SplitTiled(h, Cut(h, i, need), tiles, pos, take);
    SplitFooters(h, Cut(h, i, need), tiles, loose, pos, take);
    SplitHolesApart(h, Cut(h, i, need), tiles, pos, take);
  }

  /* --- expand --- */

  function GrowTarget(h: HeapState): int {
    var k := Endmost(h.index, |h.index|);
    if k == -1 then h.end else h.index[k]
  }

  /** The heap has no hole, or its endmost hole ends where the heap ends. */
  predicate AbutsEnd(h: HeapState) {
    |h.index| == 0 || End(h, GrowTarget(h)) == h.end
  }

  /** g is h with the hole at m reaching up to the new end. */
  ghost predicate Extends(h: HeapState, g: HeapState, m: int) {
    && g.start == h.start && g.max == h.max && h.end + 17 <= g.end
    && IsHole(g, m) && End(g, m) == g.end
    && (forall x :: x != m ==> Same(h, g, x))
    && (forall x :: x in g.index <==> x in h.index || x == m) && Distinct(g.index)
    && forall x :: x != g.end - 8 ==> (x in g.footers <==> x in h.footers) && (x in h.footers ==> g.footers[x] == h.footers[x])
  }

  lemma SoundIsReady(h: HeapState, tiles: set<int>, loose: set<int>)
    requires Sound(h, tiles, loose)
    ensures Ready(h) && h.end !in h.index
    ensures |h.index| > 0 ==> Endmost(h.index, |h.index|) != -1 && GrowTarget(h) in h.index
  {
    forall k | 0 <= k < |h.index|
      ensures h.index[k] in h.headers && h.start <= h.index[k] < h.end && 0 <= Size(h, h.index[k])
    {
      assert h.index[k] in h.index;
      assert Tile(h, tiles, h.index[k]);
    }
  }

  lemma GrownExtends(h: HeapState, tiles: set<int>, loose: set<int>, need: nat)
    requires Sound(h, tiles, loose) && Ready(h) && 17 <= need && AbutsEnd(h)
    ensures Extends(h, Grown(h, need), GrowTarget(h))
  {
    SoundIsReady(h, tiles, loose);
    var m, g := GrowTarget(h), Grown(h, need);
    if |h.index| == 0 {
      InsertedMembers(h.index, SizeKey(g.headers), m);
    } else {
      assert m in h.index;
    }
  }

  lemma ExtendKeeps(h: HeapState, g: HeapState, tiles: set<int>, loose: set<int>, m: int)
    requires Sound(h, tiles, loose) && Extends(h, g, m)
    requires if |h.index| == 0 then m == h.end else m in h.index && End(h, m) == h.end
    ensures Sound(g, tiles + {m}, loose - {m})
  {
    assert m in tiles ==> Tile(h, tiles, m);
    forall a | a in tiles && a != m
      ensures Tile(g, tiles + {m}, a) && End(g, a) == End(h, a) && (a < m ==> End(h, a) <= m) && a <= m
      ensures a !in loose ==> FooterOk(g, a)
    {
      assert Tile(h, tiles, a) && Same(h, g, a);
      assert a !in loose ==> FooterOk(h, a);
      assert a in h.index <==> IsHole(h, a);
    }
    hide FooterOk;
    assert Tile(g, tiles + {m}, m);
    assert FooterOk(g, m) by { ExtendedFooter(g, m); }
    ExtendApart(h, g, tiles, m);
    ExtendIndex(h, g, tiles, m);
  }

  lemma ExtendIndex(h: HeapState, g: HeapState, tiles: set<int>, m: int)
    requires IndexOk(h, tiles) && Extends(h, g, m)
    ensures IndexOk(g, tiles + {m})
  {
    forall a ensures a in g.index <==> a in tiles + {m} && IsHole(g, a) {
      assert a != m ==> Same(h, g, a);
    }
  }

  lemma ExtendedFooter(g: HeapState, m: int)
    requires IsHole(g, m) && End(g, m) == g.end
    ensures FooterOk(g, m)
  {
  }

  lemma EndIsNoTile(h: HeapState, tiles: set<int>, x: int)
    requires Tiled(h, tiles) && h.end <= x
    ensures x !in tiles
  {
    if x in tiles {
      TileAt(h, tiles, x);
    }
  }

  lemma TileAt(h: HeapState, tiles: set<int>, a: int)
    requires Tiled(h, tiles) && a in tiles
    ensures Tile(h, tiles, a) && a < h.end
  {
    assert Tile(h, tiles, a);
  }

  /** Two tiles that end at the heap end are the same. */
  lemma LastTileUnique(h: HeapState, tiles: set<int>, a: int, b: int)
    requires Tiled(h, tiles) && a in tiles && b in tiles && End(h, a) == End(h, b) == h.end
    ensures a == b
  {
    TileAt(h, tiles, a);
    TileAt(h, tiles, b);
  }

  lemma ExtendApart(h: HeapState, g: HeapState, tiles: set<int>, m: int)
    requires Tiled(h, tiles) && IndexOk(h, tiles) && HolesApart(h, tiles) && Extends(h, g, m)
    requires if |h.index| == 0 then m == h.end else m in h.index && End(h, m) == h.end
    ensures HolesApart(g, tiles + {m})
  {
    forall a | a in tiles + {m} && IsHole(g, a) && End(g, a) in tiles + {m} ensures !IsHole(g, End(g, a)) {
      if a != m {
        assert Same(h, g, a) && a in h.index;
        assert Tile(h, tiles, a);
        assert End(h, a) in tiles;
        assert !IsHole(h, End(h, a));
        assert Same(h, g, End(h, a));
      } else {
        assert End(g, a) == g.end;
        EndIsNoTile(h, tiles, g.end);
      }
    }
  }

  /** Growing the endmost hole keeps the tiles exactly when that hole abuts the end, or there is no hole. */
  lemma GrownExact(h: HeapState, tiles: set<int>, loose: set<int>, need: nat)
    requires Sound(h, tiles, loose) && 17 <= need
    ensures Ready(h)
    ensures (exists t, l :: tiles <= t && Sound(Grown(h, need), t, l)) <==> AbutsEnd(h)
  {
    SoundIsReady(h, tiles, loose);
    var m, g := GrowTarget(h), Grown(h, need);
    if AbutsEnd(h) {
      GrownExtends(h, tiles, loose, need);
      ExtendKeeps(h, g, tiles, loose, m);
      assert tiles <= tiles + {m};
    } else {
      assert Tile(h, tiles, m);
      forall t, l | tiles <= t ensures !Sound(g, t, l) {
        assert m in t && End(h, m) in t && m < End(h, m) < End(g, m);
      }
    }
  }

  /** A grown hole that does not abut the old end covers the start of the live block behind it. */
  lemma GrownOverlaps(h: HeapState, tiles: set<int>, loose: set<int>, need: nat)
    requires Sound(h, tiles, loose) && 17 <= need && !AbutsEnd(h)
    ensures Ready(h)
    ensures var m, g := GrowTarget(h), Grown(h, need);
            && m in tiles && End(h, m) in tiles && IsLive(h, End(h, m)) && Same(h, g, End(h, m))
            && IsHole(g, m) && m < End(h, m) < End(g, m)
  {
    SoundIsReady(h, tiles, loose);
    var m := GrowTarget(h);
    assert Tile(h, tiles, m) && Tile(h, tiles, End(h, m));
    assert !IsHole(h, End(h, m));
  }

  /* --- halloc --- */

  /** A block for size bytes was added at b; every other allocated block is where and as it was. */
  ghost predicate Allocated(h: HeapState, tiles: set<int>, g: HeapState, after: set<int>, b: int, size: int) {
    && b in after && IsLive(g, b) && size + 17 <= Size(g, b) && !(b in tiles && IsLive(h, b))
    && (forall a :: a in tiles && IsLive(h, a) ==> a in after && Same(h, g, a))
    && forall a :: a in after && IsLive(g, a) && a != b ==> a in tiles && IsLive(h, a)
  }

  lemma CutAllocates(h: HeapState, tiles: set<int>, loose: set<int>, i: nat, size: nat)
    requires Sound(h, tiles, loose) && i < |h.index| && size + 17 <= Size(h, h.index[i])
    ensures h.index[i] in h.headers
    ensures var pos, take := h.index[i], Taken(h, h.index[i], size + 17);
            Allocated(h, tiles, Cut(h, i, size + 17), SplitTiles(h, tiles, pos, take), pos, size)
  {
    var pos, take := h.index[i], Taken(h, h.index[i], size + 17);
    assert pos in h.index;
    CutSplits(h, i, size + 17);
    hide Cut, Sound, Splits, SplitTiles, Allocated;
    SplitAllocates(h, Cut(h, i, size + 17), tiles, pos, take, size);
  }

  lemma SplitAllocates(h: HeapState, g: HeapState, tiles: set<int>, pos: int, take: int, size: nat)
    requires Tiled(h, tiles) && pos in tiles && IsHole(h, pos) && size + 17 <= take <= Size(h, pos) && Splits(h, g, pos, take)
    ensures Allocated(h, tiles, g, SplitTiles(h, tiles, pos, take), pos, size)
  {
    var after := SplitTiles(h, tiles, pos, take);
    forall a | a in tiles && IsLive(h, a) ensures a in after && Same(h, g, a) {
    }
    forall a | a in after && IsLive(g, a) && a != pos ensures a in tiles && IsLive(h, a) {
      assert a in tiles ==> Same(h, g, a);
    }
  }

  /** The only hole of the heap, if any, is at its end. */
  ghost predicate HoleAtEnd(h: HeapState, tiles: set<int>) {
    forall a :: a in tiles && IsHole(h, a) ==> End(h, a) == h.end
  }

  lemma FitKeeps(h: HeapState, tiles: set<int>, loose: set<int>, size: nat) returns (after: set<int>)
    requires Sound(h, tiles, loose) && FirstFit(h.headers, h.index, size + 17) < |h.index|
    ensures Ready(h) && Sound(CutFirstFit(h, size + 17).heap, after, loose - {CutFirstFit(h, size + 17).data - 9})
    ensures Allocated(h, tiles, CutFirstFit(h, size + 17).heap, after, CutFirstFit(h, size + 17).data - 9, size)
    ensures HoleAtEnd(h, tiles) ==> HoleAtEnd(CutFirstFit(h, size + 17).heap, after)
  {
    SoundIsReady(h, tiles, loose);
    var i := FirstFit(h.headers, h.index, size + 17);
    assert size + 17 <= Size(h, h.index[i]);
    hide Cut, Sound, FirstFit, Allocated, HoleAtEnd, SplitTiles, Ready, Size;
    CutSound(h, tiles, loose, i, size);
    after := SplitTiles(h, tiles, h.index[i], Taken(h, h.index[i], size + 17));
  }

  lemma CutSound(h: HeapState, tiles: set<int>, loose: set<int>, i: nat, size: nat)
    requires Sound(h, tiles, loose) && i < |h.index| && size + 17 <= Size(h, h.index[i])
    ensures h.index[i] in h.headers
    ensures var g, after := Cut(h, i, size + 17), SplitTiles(h, tiles, h.index[i], Taken(h, h.index[i], size + 17));
            Sound(g, after, loose - {h.index[i]}) && Allocated(h, tiles, g, after, h.index[i], size) &&
            (HoleAtEnd(h, tiles) ==> HoleAtEnd(g, after))
  {
    hide Cut, Sound, Allocated, HoleAtEnd, SplitTiles, Taken, Size;
    CutKeeps(h, tiles, loose, i, size + 17);
    CutAllocates(h, tiles, loose, i, size);
    CutHoleAtEnd(h, tiles, loose, i, size + 17);
    var pos, take := h.index[i], Taken(h, h.index[i], size + 17);
    LooseMore(Cut(h, i, size + 17), SplitTiles(h, tiles, pos, take), SplitLoose(h, loose, pos, take), loose - {pos});
  }

  lemma CutHoleAtEnd(h: HeapState, tiles: set<int>, loose: set<int>, i: nat, need: int)
    requires Sound(h, tiles, loose) && i < |h.index| && 17 <= need <= Size(h, h.index[i])
    ensures h.index[i] in h.headers
    ensures HoleAtEnd(h, tiles) ==> HoleAtEnd(Cut(h, i, need), SplitTiles(h, tiles, h.index[i], Taken(h, h.index[i], need)))
  {
    var pos, take, g := h.index[i], Taken(h, h.index[i], need), Cut(h, i, need);
    assert pos in h.index;
    CutSplits(h, i, need);
    hide Cut;
    forall a | HoleAtEnd(h, tiles) && a in SplitTiles(h, tiles, pos, take) && IsHole(g, a) ensures End(g, a) == g.end {
      SplitTile(h, g, tiles, pos, take, a);
      assert a in tiles && a != pos ==> Same(h, g, a);
    }
  }

  lemma LooseMore(h: HeapState, tiles: set<int>, some: set<int>, loose: set<int>)
    requires Sound(h, tiles, some) && some <= loose
    ensures Sound(h, tiles, loose)
  {
  }

  /** What was allocated after an expansion was allocated for the heap before it. */
  lemma AllocatedThrough(h: HeapState, tiles: set<int>, g: HeapState, m: int, end: HeapState, after: set<int>, b: int, size: int)
    requires Extends(h, g, m) && (m in tiles ==> IsHole(h, m))
    requires Allocated(g, tiles + {m}, end, after, b, size)
    ensures Allocated(h, tiles, end, after, b, size)
  {
    forall a | a in tiles && IsLive(h, a) ensures a in after && Same(h, end, a) {
      assert Same(h, g, a) && IsLive(g, a);
    }
    forall a | a in tiles + {m} && IsLive(g, a) ensures a in tiles && IsLive(h, a) {
      assert Same(h, g, a);
    }
    assert b in tiles && IsLive(h, b) ==> Same(h, g, b);
  }

  lemma NeedIs(size: U32)
    requires size + 17 < 0x1_0000_0000
    ensures Need(size) == size + 17
  {
  }

  lemma GrowSound(h: HeapState, tiles: set<int>, loose: set<int>, need: nat)
    requires Sound(h, tiles, loose) && 17 <= need && AbutsEnd(h)
    ensures var m := GrowTarget(h);
            Ready(h) && Sound(Grown(h, need), tiles + {m}, loose) && Extends(h, Grown(h, need), m) &&
            (m in tiles ==> IsHole(h, m)) && (HoleAtEnd(h, tiles) ==> HoleAtEnd(Grown(h, need), tiles + {m}))
  {
    GrowTargetIs(h, tiles, loose);
    var m, g := GrowTarget(h), Grown(h, need);
    GrownExtends(h, tiles, loose, need);
    ExtendHoleAtEnd(h, g, tiles, m);
    hide Sound, Extends, Grown, Ready, GrowTarget, AbutsEnd;
    ExtendKeeps(h, g, tiles, loose, m);
    LooseMore(g, tiles + {m}, loose - {m}, loose);
  }

  lemma ExtendHoleAtEnd(h: HeapState, g: HeapState, tiles: set<int>, m: int)
    requires Tiled(h, tiles) && IndexOk(h, tiles) && Extends(h, g, m)
    requires if |h.index| == 0 then m == h.end else m in h.index && End(h, m) == h.end
    ensures HoleAtEnd(h, tiles) ==> HoleAtEnd(g, tiles + {m})
  {
    if HoleAtEnd(h, tiles) {
      forall a | a in tiles && a != m && IsHole(g, a) ensures m in tiles && End(h, m) == h.end == End(h, a) {
        assert Same(h, g, a) && a in h.index;
      }
      forall a | a in tiles + {m} && IsHole(g, a) ensures a == m {
        if a != m {
          LastTileUnique(h, tiles, a, m);
        }
      }
    }
  }

  lemma GrowTargetIs(h: HeapState, tiles: set<int>, loose: set<int>)
    requires Sound(h, tiles, loose) && AbutsEnd(h)
    ensures Ready(h) && (GrowTarget(h) in tiles ==> IsHole(h, GrowTarget(h)))
    ensures if |h.index| == 0 then GrowTarget(h) == h.end
            else GrowTarget(h) in h.index && End(h, GrowTarget(h)) == h.end
  {
    SoundIsReady(h, tiles, loose);
    if GrowTarget(h) in tiles {
      assert Tile(h, tiles, GrowTarget(h));
    }
  }

  lemma GrowthKeeps(h: HeapState, tiles: set<int>, loose: set<int>, size: nat) returns (after: set<int>)
    requires Sound(h, tiles, loose) && AbutsEnd(h)
    ensures Ready(h)
    ensures var g := Grown(h, size + 17);
            && Ready(g) && FirstFit(g.headers, g.index, size + 17) < |g.index|
            && Sound(CutFirstFit(g, size + 17).heap, after, loose - {CutFirstFit(g, size + 17).data - 9})
            && Allocated(h, tiles, CutFirstFit(g, size + 17).heap, after, CutFirstFit(g, size + 17).data - 9, size)
            && (HoleAtEnd(h, tiles) ==> HoleAtEnd(CutFirstFit(g, size + 17).heap, after))
  {
    hide Sound, Allocated, HoleAtEnd, FirstFit, CutFirstFit, AbutsEnd, Grown, Ready, Extends, GrowTarget;
    GrowSound(h, tiles, loose, size + 17);
    GrownFits(h, size + 17);
    var g, m := Grown(h, size + 17), GrowTarget(h);
    after := FitKeeps(g, tiles + {m}, loose, size);
    AllocatedThrough(h, tiles, g, m, CutFirstFit(g, size + 17).heap, after, CutFirstFit(g, size + 17).data - 9, size);
  }

  /**
   * halloc of any size that fits 32 bits with its tags keeps a sound heap sound, whether it finds a hole
   * or has to expand a heap whose endmost hole abuts the end.
   */
  lemma AllocKeeps(h: HeapState, tiles: set<int>, loose: set<int>, size: U32) returns (after: set<int>)
    requires Sound(h, tiles, loose) && size + 17 < 0x1_0000_0000
    requires FirstFit(h.headers, h.index, size + 17) == |h.index| ==> AbutsEnd(h)
    ensures Ready(h) && Sound(Alloc(h, size).heap, after, loose - {Alloc(h, size).data - 9})
    ensures Allocated(h, tiles, Alloc(h, size).heap, after, Alloc(h, size).data - 9, size)
    ensures HoleAtEnd(h, tiles) ==> HoleAtEnd(Alloc(h, size).heap, after)
  {
    hide *;
    SoundIsReady(h, tiles, loose);
    NeedIs(size);
    AllocUnfolds(h, size);
    if FirstFit(h.headers, h.index, size + 17) < |h.index| {
      after := FitKeeps(h, tiles, loose, size);
    } else {
      after := GrowthKeeps(h, tiles, loose, size);
    }
  }

  lemma AllocUnfolds(h: HeapState, size: U32)
    requires Ready(h)
    ensures FirstFit(h.headers, h.index, Need(size)) < |h.index| ==> Alloc(h, size) == CutFirstFit(h, Need(size))
    ensures var g := Grown(h, Need(size));
            FirstFit(h.headers, h.index, Need(size)) == |h.index| ==>
              Ready(g) && FirstFit(g.headers, g.index, Need(size)) < |g.index| && Alloc(h, size) == CutFirstFit(g, Need(size))
  {
    hide Ready, Grown, FirstFit, CutFirstFit;
    GrownFits(h, Need(size));
  }

  /** With 32-bit sizes the returned block has room for the request exactly when size + 17 does not wrap around. */
  lemma AllocRoomExact(h: HeapState, tiles: set<int>, loose: set<int>, size: U32)
    requires Sound(h, tiles, loose)
    requires FirstFit(h.headers, h.index, Need(size)) == |h.index| ==> AbutsEnd(h)
    ensures Ready(h)
    ensures var g, b := Alloc(h, size).heap, Alloc(h, size).data - 9;
            IsLive(g, b) && size + 17 <= Size(g, b) <==> size + 17 < 0x1_0000_0000
  {
    SoundIsReady(h, tiles, loose);
    if size + 17 < 0x1_0000_0000 {
      NeedIs(size);
      var after := AllocKeeps(h, tiles, loose, size);
    } else {
      AllocTakes(h, size);
      assert Need(size) < 17;
    }
  }

  /** A block has less than 17 bytes more than halloc looks for. */
  lemma AllocTakes(h: HeapState, size: U32)
    requires Ready(h)
    ensures var g, b := Alloc(h, size).heap, Alloc(h, size).data - 9;
            IsLive(g, b) ==> Size(g, b) < Need(size) + 17
  {
    if FirstFit(h.headers, h.index, Need(size)) < |h.index| {
      FitTakes(h, Need(size));
    } else {
      GrownFits(h, Need(size));
      FitTakes(Grown(h, Need(size)), Need(size));
    }
    hide CutFirstFit, Grown, FirstFit;
  }

  lemma FitTakes(h: HeapState, need: nat)
    requires Ready(h) && FirstFit(h.headers, h.index, need) < |h.index|
    ensures var g, b := CutFirstFit(h, need).heap, CutFirstFit(h, need).data - 9;
            IsLive(g, b) ==> Size(g, b) < need + 17
  {
    hide Inserted, Removed, FirstFit;
  }

  /** The linear scan finds a smallest hole that fits, if one fits. */
  ghost predicate BestFor(headers: map<int, Header>, index: seq<int>, need: int) {
    var k := FirstFit(headers, index, need);
    forall j :: 0 <= j < |index| && need <= SizeKey(headers)(index[j]) ==>
                  k < |index| && SizeKey(headers)(index[k]) <= SizeKey(headers)(index[j])
  }

  /** For one request the scan misses a smallest hole exactly when the first hole that fits has a smaller one behind it that fits. */
  lemma BestForExact(headers: map<int, Header>, index: seq<int>, need: int)
    ensures BestFor(headers, index, need) <==>
            !exists i, j :: 0 <= i < j < |index| && need <= SizeKey(headers)(index[j]) < SizeKey(headers)(index[i]) &&
                            forall k :: 0 <= k < i ==> SizeKey(headers)(index[k]) < need
  {
    var k := FirstFit(headers, index, need);
    if i, j :| 0 <= i < j < |index| && need <= SizeKey(headers)(index[j]) < SizeKey(headers)(index[i]) &&
               forall k :: 0 <= k < i ==> SizeKey(headers)(index[k]) < need {
      FirstFitIs(headers, index, need, i);
    }
    forall j | 0 <= j < |index| && need <= SizeKey(headers)(index[j]) ensures k <= j {
    }
  }

  /** Every hole that lies behind a larger one has an equally large one in front of that. */
  ghost predicate Fronted(headers: map<int, Header>, index: seq<int>) {
    forall i, j :: 0 <= i < j < |index| && SizeKey(headers)(index[j]) < SizeKey(headers)(index[i]) ==>
                     exists k :: 0 <= k < i && SizeKey(headers)(index[k]) == SizeKey(headers)(index[j])
  }

  /** The scan is a best fit for every request exactly when the index is fronted in this sense, sorted or not. */
  lemma BestFitExact(headers: map<int, Header>, index: seq<int>)
    ensures (forall need :: BestFor(headers, index, need)) <==> Fronted(headers, index)
  {
    if forall need :: BestFor(headers, index, need) {
      forall i, j | 0 <= i < j < |index| && SizeKey(headers)(index[j]) < SizeKey(headers)(index[i])
        ensures exists k :: 0 <= k < i && SizeKey(headers)(index[k]) == SizeKey(headers)(index[j])
      {
        hide BestFor, FirstFit;
        BestInFront(headers, index, i, j);
      }
    }
    if Fronted(headers, index) {
      hide Fronted;
      forall need ensures BestFor(headers, index, need) {
        FrontedIsBest(headers, index, need);
      }
    }
  }

  lemma BestInFront(headers: map<int, Header>, index: seq<int>, i: nat, j: nat)
    requires i < j < |index| && SizeKey(headers)(index[j]) < SizeKey(headers)(index[i])
    requires BestFor(headers, index, SizeKey(headers)(index[j]))
    ensures exists k :: 0 <= k < i && SizeKey(headers)(index[k]) == SizeKey(headers)(index[j])
  {
    var k := FirstFit(headers, index, SizeKey(headers)(index[j]));
    assert SizeKey(headers)(index[k]) == SizeKey(headers)(index[j]) && k < i;
  }

  lemma FrontedIsBest(headers: map<int, Header>, index: seq<int>, need: int)
    requires Fronted(headers, index)
    ensures BestFor(headers, index, need)
  {
    hide FirstFit, Fronted;
    var k := FirstFit(headers, index, need);
    forall j | 0 <= j < |index| && need <= SizeKey(headers)(index[j])
      ensures k < |index| && SizeKey(headers)(index[k]) <= SizeKey(headers)(index[j])
    {
      if SizeKey(headers)(index[j]) < SizeKey(headers)(index[k]) {
        EqualInFront(headers, index, k, j);
      }
    }
  }

  lemma EqualInFront(headers: map<int, Header>, index: seq<int>, i: nat, j: nat)
    requires Fronted(headers, index) && i < j < |index| && SizeKey(headers)(index[j]) < SizeKey(headers)(index[i])
    ensures exists k :: 0 <= k < i && SizeKey(headers)(index[k]) == SizeKey(headers)(index[j])
  {
  }

  /** A sorted index is enough. */
  lemma BestFit(headers: map<int, Header>, index: seq<int>, need: int)
    requires Sorted(index, SizeKey(headers))
    ensures BestFor(headers, index, need)
  {
    BestForExact(headers, index, need);
  }
}
