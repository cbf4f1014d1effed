/** Counting free blocks: what taking and freeing whole chains does to the count. */
module FreeSpace {
  import opened Bytes
  import opened DiskLayout
  import opened FileChains
  import opened Reservation

  /** The members of a chain from block k on. */
  ghost function From(chain: Chain, k: nat): set<nat> {
    set x | x in chain && x >= k
  }

  lemma FromStep(chain: Chain, k: nat)
    ensures |From(chain, k)| == |From(chain, k + 1)| + if k in chain then 1 else 0
  {
    if k in chain {
      assert From(chain, k) == From(chain, k + 1) + {k};
    } else {
      assert From(chain, k) == From(chain, k + 1);
    }
  }

  lemma {:induction false} FromAll(chain: Chain)
    requires Distinct(chain)
    ensures |From(chain, 0)| == |chain|
  {
    if chain == [] {
      assert From(chain, 0) == {};
    } else {
      var x, rest := chain[|chain| - 1], chain[..|chain| - 1];
      FromAll(rest);
      assert x !in rest;
      assert chain == rest + [x];
      assert From(chain, 0) == From(rest, 0) + {x};
    }
  }

  lemma FromNone(chain: Chain)
    requires Placed(chain)
    ensures From(chain, MAX_BLOCKS) == {}
  {
    forall x | x in chain ensures x < MAX_BLOCKS {
      var i :| 0 <= i < |chain| && chain[i] == x;
    }
  }

  /** Setting clear bits takes as many free blocks as there are in the chain from k on. */
  lemma {:induction false} FreeAfterSet(before: seq<Byte>, after: seq<Byte>, chain: Chain, k: nat)
    requires |before| == |after| == 512 && BitsSet(before, after, chain) && Placed(chain) && k <= MAX_BLOCKS
    requires forall x :: 0 <= x < MAX_BLOCKS && x in chain ==> !MapBit(before, x)
    ensures FreeFrom(before, k) == FreeFrom(after, k) + |From(chain, k)|
    decreases MAX_BLOCKS - k
  {
    if k == MAX_BLOCKS {
      FromNone(chain);
    } else {
      FreeAfterSet(before, after, chain, k + 1);
      FromStep(chain, k);
    }
  }

  /** Taking a chain of free blocks and giving it back move the count by its length. */
  lemma FreeAfterTaking(before: seq<Byte>, after: seq<Byte>, chain: Chain)
    requires |before| == |after| == 512 && BitsSet(before, after, chain) && Placed(chain) && Distinct(chain)
    requires forall x :: 0 <= x < MAX_BLOCKS && x in chain ==> !MapBit(before, x)
    ensures FreeFrom(before, 0) == FreeFrom(after, 0) + |chain|
  {
    FreeAfterSet(before, after, chain, 0);
    FromAll(chain);
  }

  lemma FreeAfterFreeing(before: seq<Byte>, after: seq<Byte>, chain: Chain)
    requires |before| == |after| == 512 && BitsCleared(before, after, chain) && Placed(chain) && Distinct(chain)
    requires forall x :: 0 <= x < MAX_BLOCKS && x in chain ==> MapBit(before, x)
    ensures FreeFrom(after, 0) == FreeFrom(before, 0) + |chain|
  {
    assert BitsSet(after, before, chain);
    FreeAfterTaking(after, before, chain);
  }

  /** A file that grew took its new blocks from the free ones, whatever else the image holds. */
  lemma FreeAfterGrowth(img: Image, files: Files, img': Image, files': Files, n: nat)
    requires FsOk(img, files) && FsOk(img', files') && n in files && n in files'
    requires files' == files[n := files'[n]] && files[n] <= files'[n]
    ensures FreeFrom(img.bitmap, 0) == FreeFrom(img'.bitmap, 0) + |files'[n]| - |files[n]|
  {
    hide *;
    var taken := files'[n][|files[n]|..];
    assert files'[n] == files[n] + taken;
    GrowthFacts(img, files, img', files', n, taken);
    FreeAfterTaking(img.bitmap, img'.bitmap, taken);
  }

  lemma ChainPlaced(img: Image, files: Files, n: nat)
    requires FsOk(img, files) && n in files
    ensures Placed(files[n])
  {
    assert FileOk(img, n, files[n]);
    ChainFacts(img, files[n], img.INode(n).usedBytes);
  }

  lemma GrowthFacts(img: Image, files: Files, img': Image, files': Files, n: nat, taken: Chain)
    requires FsOk(img, files) && FsOk(img', files') && n in files && files' == files[n := files[n] + taken]
    ensures |img.bitmap| == |img'.bitmap| == 512 && BitsSet(img.bitmap, img'.bitmap, taken)
    ensures forall x :: 0 <= x < MAX_BLOCKS && x in taken ==> !MapBit(img.bitmap, x)
    ensures Distinct(taken) && Placed(taken)
  {
    ChainPlaced(img', files', n);
    hide FileOk, Separate, BitmapOk, BitsSet, Distinct, Placed;
    GrowthBits(img, files, img', files', n, taken);
    TailFacts(files', n, files[n], taken);
  }

  lemma TailFacts(files: Files, n: nat, front: Chain, taken: Chain)
    requires Separate(files) && n in files && files[n] == front + taken && Placed(files[n])
    ensures Distinct(taken) && Placed(taken)
  {
    assert Distinct(files[n]);
    forall i | 0 <= i < |taken| ensures taken[i] == files[n][|front| + i] {
    }
    forall i, j | 0 <= i < |taken| && 0 <= j < |taken| && taken[i] == taken[j] ensures i == j {
      assert files[n][|front| + i] == files[n][|front| + j];
    }
  }

  lemma GrowthBits(img: Image, files: Files, img': Image, files': Files, n: nat, taken: Chain)
    requires img.Valid() && img'.Valid() && Separate(files') && BitmapOk(img, files) && BitmapOk(img', files')
    requires n in files && files' == files[n := files[n] + taken]
    ensures BitsSet(img.bitmap, img'.bitmap, taken)
    ensures forall x :: 0 <= x < MAX_BLOCKS && x in taken ==> !MapBit(img.bitmap, x)
  {
    forall x | 0 <= x < MAX_BLOCKS
      ensures Owned(files', x) <==> Owned(files, x) || x in taken
      ensures x in taken ==> !Owned(files, x)
      ensures MapBit(img.bitmap, x) <==> Owned(files, x)
      ensures MapBit(img'.bitmap, x) <==> Owned(files', x)
    {
      OwnedGrowth(files, files', n, taken, x);
      assert img.Taken(x) <==> Owned(files, x);
      assert img'.Taken(x) <==> Owned(files', x);
    }
    hide Owned;
  }

  lemma OwnedGrowth(files: Files, files': Files, n: nat, taken: Chain, x: nat)
    requires n in files && files' == files[n := files[n] + taken] && Separate(files')
    ensures Owned(files', x) <==> Owned(files, x) || x in taken
    ensures x in taken ==> !Owned(files, x)
  {
    var all := files[n] + taken;
    assert x in all <==> x in files[n] || x in taken;
    if x in taken {
      assert x in files'[n];
      var i :| 0 <= i < |taken| && taken[i] == x;
      forall j | j in files ensures x !in files[j] {
        NotElsewhere(files', n, |files[n]| + i, j, if j == n then |files[n]| else |files'[j]|);
      }
    }
    if Owned(files, x) {
      var j :| j in files && x in files[j];
      assert x in files'[j];
    }
    if Owned(files', x) {
      var j :| j in files' && x in files'[j];
      assert j != n ==> x in files[j];
    }
  }

  /** The block at place p of a chain is not among the first m of the same chain, m <= p, nor in any other chain. */
  lemma NotElsewhere(files: Files, n: nat, p: nat, j: nat, m: nat)
    requires Separate(files) && n in files && p < |files[n]| && j in files && m <= |files[j]| && (j == n ==> m <= p)
    ensures files[n][p] !in files[j][..m]
  {
    forall q | 0 <= q < m ensures files[j][q] != files[n][p] {
      assert Distinct(files[n]);
      assert j != n ==> Disjoint(files[j], files[n]);
    }
  }

  /** A deleted file gives all its blocks back. */
  lemma FreeAfterRemoval(img: Image, files: Files, after: seq<Byte>, n: nat)
    requires FsOk(img, files) && n in files && |after| == 512 && BitsCleared(img.bitmap, after, files[n])
    ensures FreeFrom(after, 0) == FreeFrom(img.bitmap, 0) + |files[n]|
  {
    ChainPlaced(img, files, n);
    assert Distinct(files[n]);
    forall x | 0 <= x < MAX_BLOCKS && x in files[n] ensures MapBit(img.bitmap, x) {
      assert Owned(files, x);
      assert img.Taken(x);
    }
    hide FsOk, FreeFrom, BitsCleared, Distinct, Placed;
    FreeAfterFreeing(img.bitmap, after, files[n]);
  }
}
