/**
  What reserving and freeing blocks means: the lowest clear bits of the bitmap are taken and
  their pages linked into a chain; freeing clears the bits of a chain.
 */
module Reservation {
  import opened Bytes
  import opened Ata
  import opened DiskLayout
  import opened FileChains

  /** The number of clear bits of a bitmap from bit k on. */
  ghost function FreeFrom(bitmap: seq<Byte>, k: nat): nat
    requires |bitmap| == 512 && k <= MAX_BLOCKS
    decreases MAX_BLOCKS - k
  {
    if k == MAX_BLOCKS then 0 else (if MapBit(bitmap, k) then 0 else 1) + FreeFrom(bitmap, k + 1)
  }

  ghost predicate Ascending(chain: Chain) {
    forall i, j :: 0 <= i < j < |chain| ==> chain[i] < chain[j]
  }

  /** The clear bits of the bitmap below k, in order. */
  ghost predicate ClearBelow(bitmap: seq<Byte>, chain: Chain, k: nat)
    requires |bitmap| == 512 && k <= MAX_BLOCKS
  {
    && Ascending(chain)
    && Placed(chain)
    && forall x :: 0 <= x < MAX_BLOCKS ==> (x in chain <==> x < k && !MapBit(bitmap, x))
  }

  /** The chain consists of the lowest |chain| clear bits, in order. */
  ghost predicate LowestClear(bitmap: seq<Byte>, chain: Chain)
    requires |bitmap| == 512
  {
    && |chain| > 0 && Placed(chain)
    && ClearBelow(bitmap, chain, chain[|chain| - 1] + 1)
  }

  /** The bitmap with the bits of a chain set. */
  ghost predicate BitsSet(before: seq<Byte>, after: seq<Byte>, chain: Chain)
    requires |before| == 512 && |after| == 512
  {
    forall k :: 0 <= k < MAX_BLOCKS ==> (MapBit(after, k) <==> MapBit(before, k) || k in chain)
  }

  /** The bitmap with the bits of a chain cleared. */
  ghost predicate BitsCleared(before: seq<Byte>, after: seq<Byte>, chain: Chain)
    requires |before| == 512 && |after| == 512
  {
    forall k :: 0 <= k < MAX_BLOCKS ==> (MapBit(after, k) <==> MapBit(before, k) && k !in chain)
  }

  lemma PlacedFacts(chain: Chain)
    requires Placed(chain)
    ensures forall i :: 0 <= i < |chain| ==> chain[i] < MAX_BLOCKS
  {
  }

  lemma NoBitsCleared(bitmap: seq<Byte>)
    requires |bitmap| == 512
    ensures BitsCleared(bitmap, bitmap, [])
  {
  }

  lemma BitsClearedStep(before: seq<Byte>, block: seq<Byte>, chain: Chain, k: nat)
    requires |before| == 512 && |block| == 512 && k < MAX_BLOCKS && BitsCleared(before, block, chain)
    ensures BitsCleared(before, PutMapBit(block, k, false), chain + [k])
  {
    hide MapBit, PutMapBit;
    assert forall x :: x in chain + [k] <==> x in chain || x == k;
  }

  /** Setting clear bits and clearing them again restores the bitmap. */
  lemma ClearUndoesSet(before: seq<Byte>, middle: seq<Byte>, after: seq<Byte>, chain: Chain)
    requires |before| == |middle| == |after| == 512 && LowestClear(before, chain)
    requires BitsSet(before, middle, chain) && BitsCleared(middle, after, chain)
    ensures after == before
  {
    forall k | 0 <= k < 8 * |before|
      ensures MapBit(after, k) == MapBit(before, k)
    {
      assert k in chain ==> !MapBit(before, k);
    }
    BitmapExtensional(after, before);
  }

  /** The page headers written for a reserved chain: linked in order, with no bytes used. */
  ghost predicate PagesLinked(img: Image, chain: Chain, count: nat)
    requires img.Valid() && count <= |chain|
  {
    && Placed(chain)
    && (forall i :: 0 <= i < count ==> LinkOk(img.Page(chain[i]), chain, i))
    && (forall i :: 0 <= i < count ==> img.Page(chain[i]).usedBytes == 0)
  }

  /** The header the reservation loop writes into a page. */
  function FreshPage(nextSector: U32, nextOffset: U32, hasNextPage: U32): DiskPage {
    DiskPage(MAGIC_NUMBER, ATA0, nextSector, nextOffset, 256, 0, hasNextPage)
  }

  /** What the caller of a reservation learns: the first block, and how many there are. */
  function ReservedPage(k: nat, blocks: nat): DiskPage {
    DiskPage(MAGIC_NUMBER, ATA0, FILE_CONTENTS_INITIAL_SECTOR, ToU32(256 * k), ToU32(256 * blocks), 0,
      if blocks > 1 then 1 else 0)
  }

  lemma LowestInRange(bitmap: seq<Byte>, taken: Chain)
    requires |bitmap| == 512 && LowestClear(bitmap, taken)
    ensures |taken| > 0 && taken[0] < MAX_BLOCKS
  {
  }

  lemma ReservedIs(k: nat, blocks: nat)
    requires k < MAX_BLOCKS && blocks <= MAX_BLOCKS
    ensures ReservedPage(k, blocks) ==
      DiskPage(MAGIC_NUMBER, ATA0, FILE_CONTENTS_INITIAL_SECTOR, 256 * k, 256 * blocks, 0, if blocks > 1 then 1 else 0)
  {
  }

  /** Taking block k as the next page of the chain: the new page if it is the last one, then the link to it. */
  ghost function WithTaken(img: Image, chain: Chain, k: nat, last: bool, end: DiskPage): (r: Image)
    requires img.Valid() && Placed(chain) && k < MAX_BLOCKS
    ensures r.Valid()
  {
    var ended := if last then WithBlock(img, k, 0, PageBytes(end)) else img;
    if |chain| > 0 then
      WithBlock(ended, chain[|chain| - 1], 0, PageBytes(FreshPage(FILE_CONTENTS_INITIAL_SECTOR, 256 * k, 1)))
    else
      ended
  }

  lemma TakenKeepsLinks(img: Image, chain: Chain, k: nat, last: bool, end: DiskPage)
    requires img.Valid() && k < MAX_BLOCKS && k !in chain && Distinct(chain)
    requires PagesLinked(img, chain, if |chain| > 0 then |chain| - 1 else 0)
    requires end == FreshPage(end.nextSector, end.nextOffset, 0)
    ensures Placed(chain + [k])
    ensures PagesLinked(WithTaken(img, chain, k, last, end), chain + [k], if last then |chain| + 1 else |chain|)
    ensures OnlyBlocks(img, WithTaken(img, chain, k, last, end), chain + [k])
  {
    hide PageOf, PageBytes;
    var ended := if last then WithBlock(img, k, 0, PageBytes(end)) else img;
    PageWriteSetsPage(img, k, end);
    if |chain| > 0 {
      PageWriteSetsPage(ended, chain[|chain| - 1], FreshPage(FILE_CONTENTS_INITIAL_SECTOR, 256 * k, 1));
    }
    var img', chain' := WithTaken(img, chain, k, last, end), chain + [k];
    forall i | 0 <= i < if last then |chain| + 1 else |chain|
      ensures LinkOk(img'.Page(chain'[i]), chain', i) && img'.Page(chain'[i]).usedBytes == 0
    {
      if i < |chain| {
        assert chain'[i] == chain[i] != k;
      }
    }
  }

  /** A reserved chain has the shape of an empty file. */
  lemma ReservedIsEmptyFile(img: Image, taken: Chain)
    requires img.Valid() && |taken| >= 1 && PagesLinked(img, taken, |taken|)
    ensures ChainOk(img, taken, 0)
  {
  }

  /** The last page of a chain, pointed at a reserved chain. */
  function Relinked(page: DiskPage, k: nat): DiskPage {
    page.(hasNextPage := 1, nextSector := FILE_CONTENTS_INITIAL_SECTOR, nextOffset := ToU32(256 * k))
  }

  /** Appending a reserved chain to a file's chain keeps the file's length, shape and bytes. */
  lemma AppendReserved(img: Image, reserved: Image, chain: Chain, taken: Chain, length: nat)
    requires img.Valid() && reserved.Valid() && ChainOk(img, chain, length)
    requires Distinct(chain) && Disjoint(chain, taken)
    requires |taken| >= 1 && PagesLinked(reserved, taken, |taken|)
    requires forall i :: 0 <= i < |chain| ==> reserved.blocks[chain[i]] == img.blocks[chain[i]]
    ensures var last := chain[|chain| - 1];
            var linked := WithBlock(reserved, last, 0, PageBytes(Relinked(img.Page(last), taken[0])));
            && ChainOk(linked, chain + taken, length)
            && Stream(linked, chain + taken)[..228 * |chain|] == Stream(img, chain)
            && forall i :: 0 <= i < |chain| ==> linked.Page(chain[i]).usedBytes == img.Page(chain[i]).usedBytes
  {
    hide PageOf, PageBytes;
    var last, all := chain[|chain| - 1], chain + taken;
    var page := Relinked(img.Page(last), taken[0]);
    var linked := WithBlock(reserved, last, 0, PageBytes(page));
    PageWriteSetsPage(reserved, last, page);
    forall i | 0 <= i < |all|
      ensures LinkOk(linked.Page(all[i]), all, i) && UsedOk(linked.Page(all[i]).usedBytes, i, length)
    {
      if i < |chain| {
        assert UsedOk(img.Page(chain[i]).usedBytes, i, length) && LinkOk(img.Page(chain[i]), chain, i);
      } else {
        assert all[i] == taken[i - |chain|] && all[i] != last;
        assert LinkOk(reserved.Page(taken[i - |chain|]), taken, i - |chain|);
      }
    }
    forall v | 0 <= v < 228 * |chain|
      ensures Stream(linked, all)[..228 * |chain|][v] == Stream(img, chain)[v]
    {
    }
  }

  // ---- The file system invariant over the operations -------------------------

  /** A file whose inode entry and blocks did not change keeps its shape and its bytes. */
  lemma FileFrame(img: Image, img': Image, n: nat, chain: Chain)
    requires img.Valid() && img'.Valid() && FileOk(img, n, chain)
    requires img'.INodeTaken(n) && img'.INode(n) == img.INode(n)
    requires forall i :: 0 <= i < |chain| ==> img'.blocks[chain[i]] == img.blocks[chain[i]]
    ensures FileOk(img', n, chain) && Stream(img', chain) == Stream(img, chain)
  {
    ChainFrame(img, img', chain, img.INode(n).usedBytes);
  }

  /** Unchanged outside the blocks of one chain, and in every inode entry but one. */
  ghost predicate OnlyFile(img: Image, img': Image, n: nat, chain: Chain)
    requires img.Valid() && img'.Valid()
  {
    && (forall j :: 0 <= j < MAX_INODES && j != n ==> img'.INodeTaken(j) == img.INodeTaken(j))
    && (forall j :: 0 <= j < MAX_INODES && j != n ==> img'.INode(j) == img.INode(j))
    && (forall k :: 0 <= k < MAX_BLOCKS && k !in chain ==> img'.blocks[k] == img.blocks[k])
  }

  lemma OtherFileFrame(img: Image, img': Image, n: nat, chain: Chain, j: nat, other: Chain)
    requires img.Valid() && img'.Valid() && OnlyFile(img, img', n, chain)
    requires FileOk(img, j, other) && j != n && Disjoint(other, chain)
    ensures FileOk(img', j, other) && Stream(img', other) == Stream(img, other)
  {
    hide Stream, INodeOk, LinkOk, UsedOk, PageOf, INodeOf, MapBit;
    forall i | 0 <= i < |other|
      ensures img'.blocks[other[i]] == img.blocks[other[i]]
    {
      assert other[i] !in chain;
    }
    FileFrame(img, img', j, other);
  }

  /** The chain of inode n, or none. */
  ghost function ChainOf(files: Files, n: nat): Chain {
    if n in files then files[n] else []
  }

  lemma FreeIsUnowned(img: Image, files: Files, n: nat, taken: Chain)
    requires img.Valid() && BitmapOk(img, files) && n in files && Placed(taken)
    requires forall i :: 0 <= i < |taken| ==> !img.Taken(taken[i])
    ensures Disjoint(files[n], taken) && Disjoint(taken, files[n])
  {
    forall i, j | 0 <= i < |files[n]| && 0 <= j < |taken|
      ensures files[n][i] != taken[j]
    {
      assert files[n][i] in files[n];
      assert Owned(files, files[n][i]);
    }
  }

  lemma SeparateUpdate(img: Image, files: Files, n: nat, taken: Chain)
    requires img.Valid() && BitmapOk(img, files) && Separate(files) && Distinct(taken) && Placed(taken)
    requires forall i :: 0 <= i < |taken| ==> !img.Taken(taken[i])
    ensures Separate(files[n := ChainOf(files, n) + taken])
  {
    hide BitmapOk;
    var all := ChainOf(files, n) + taken;
    if n in files {
      FreeIsUnowned(img, files, n, taken);
    }
    assert Distinct(all);
    forall j | j in files && j != n
      ensures Disjoint(files[j], all) && Disjoint(all, files[j])
    {
      FreeIsUnowned(img, files, j, taken);
    }
  }

  lemma BitmapUpdate(img: Image, files: Files, img': Image, n: nat, taken: Chain)
    requires img.Valid() && img'.Valid() && BitmapOk(img, files)
    requires BitsSet(img.bitmap, img'.bitmap, taken)
    ensures BitmapOk(img', files[n := ChainOf(files, n) + taken])
  {
    hide MapBit;
    var files' := files[n := ChainOf(files, n) + taken];
    forall k | 0 <= k < MAX_BLOCKS
      ensures Owned(files', k) <==> Owned(files, k) || k in taken
    {
      if j :| j in files && k in files[j] {
        assert k in files'[j];
      }
      assert k in files'[n] <==> k in ChainOf(files, n) || k in taken;
      if j :| j in files' && k in files'[j] {
        assert j != n ==> k in files[j];
      }
    }
  }

  /** Giving inode n a chain made of its old chain and newly taken blocks. */
  lemma UpdateKeepsFs(img: Image, files: Files, img': Image, n: nat, taken: Chain)
    requires FsOk(img, files) && img'.Valid()
    requires Distinct(taken) && Placed(taken)
    requires forall i :: 0 <= i < |taken| ==> !img.Taken(taken[i])
    requires BitsSet(img.bitmap, img'.bitmap, taken)
    requires FileOk(img', n, ChainOf(files, n) + taken)
    requires OnlyFile(img, img', n, ChainOf(files, n) + taken)
    ensures FsOk(img', files[n := ChainOf(files, n) + taken])
    ensures forall j :: j in files && j != n ==> Stream(img', files[j]) == Stream(img, files[j])
  {
    hide ChainOk, INodeOk, INodeOf, Placed, Stream, BitmapOk, BitsSet, OnlyFile, MapBit;
    SeparateUpdate(img, files, n, taken);
    BitmapUpdate(img, files, img', n, taken);
    forall j | j in files && j != n
      ensures FileOk(img', j, files[j]) && Stream(img', files[j]) == Stream(img, files[j])
    {
      assert Disjoint(files[n := ChainOf(files, n) + taken][j], files[n := ChainOf(files, n) + taken][n]);
      OtherFileFrame(img, img', n, ChainOf(files, n) + taken, j, files[j]);
    }
  }

  lemma BitmapRemove(img: Image, files: Files, img': Image, n: nat)
    requires img.Valid() && img'.Valid() && BitmapOk(img, files) && Separate(files) && n in files
    requires BitsCleared(img.bitmap, img'.bitmap, files[n])
    ensures BitmapOk(img', files - {n})
  {
    hide MapBit;
    var files' := files - {n};
    forall k | 0 <= k < MAX_BLOCKS
      ensures Owned(files', k) <==> Owned(files, k) && k !in files[n]
    {
      if j :| j in files && k in files[j] && k !in files[n] {
        assert k in files'[j];
      }
      if j :| j in files' && k in files'[j] {
        assert k in files[j] && Disjoint(files[j], files[n]);
      }
    }
  }

  /** Freeing the chain of inode n and clearing its bit in the bitmap of inodes. */
  lemma RemoveKeepsFs(img: Image, files: Files, img': Image, n: nat)
    requires FsOk(img, files) && img'.Valid() && n in files
    requires BitsCleared(img.bitmap, img'.bitmap, files[n])
    requires OnlyFile(img, img', n, files[n])
    ensures FsOk(img', files - {n})
    ensures forall j :: j in files && j != n ==> Stream(img', files[j]) == Stream(img, files[j])
  {
    hide ChainOk, INodeOk, INodeOf, Placed, Stream, BitmapOk, BitsCleared, OnlyFile, MapBit;
    BitmapRemove(img, files, img', n);
    forall j | j in files && j != n
      ensures FileOk(img', j, files[j]) && Stream(img', files[j]) == Stream(img, files[j])
    {
      assert Disjoint(files[j], files[n]);
      OtherFileFrame(img, img', n, files[n], j, files[j]);
    }
  }

  /** What the reservation loop has done when it has looked at the bits below k. */
  ghost predicate Reserving(before: Image, img: Image, block: seq<Byte>, taken: Chain, k: nat, blocks: nat)
    requires before.Valid() && img.Valid()
  {
    && |block| == 512 && k <= MAX_BLOCKS
    && BitsSet(before.bitmap, block, taken)
    && ClearBelow(before.bitmap, taken, k)
    && |taken| <= blocks <= |taken| + FreeFrom(before.bitmap, k)
    && OnlyBlocks(before, img, taken)
    && PagesLinked(img, taken, if |taken| == 0 || |taken| == blocks then |taken| else |taken| - 1)
  }

  lemma ReservingSkips(before: Image, img: Image, block: seq<Byte>, taken: Chain, k: nat, blocks: nat)
    requires before.Valid() && img.Valid() && Reserving(before, img, block, taken, k, blocks)
    requires k < MAX_BLOCKS && MapBit(block, k)
    ensures Reserving(before, img, block, taken, k + 1, blocks)
  {
    assert MapBit(before.bitmap, k);
  }

  lemma ReservingTakes(before: Image, img: Image, block: seq<Byte>, taken: Chain, k: nat, blocks: nat, end: DiskPage)
    requires before.Valid() && img.Valid() && Reserving(before, img, block, taken, k, blocks)
    requires k < MAX_BLOCKS && !MapBit(block, k) && |taken| < blocks
    requires end == FreshPage(end.nextSector, end.nextOffset, 0)
    ensures k !in taken && !MapBit(before.bitmap, k)
    ensures Reserving(before, WithTaken(img, taken, k, |taken| + 1 == blocks, end), PutMapBit(block, k, true),
              taken + [k], k + 1, blocks)
  {
    hide PageOf, PageBytes, WithTaken, MapBit, PutMapBit, LinkOk;
    assert k !in taken && !MapBit(before.bitmap, k);
    TakenKeepsLinks(img, taken, k, |taken| + 1 == blocks, end);
    TakenBits(before.bitmap, block, taken, k);
    TakenBlocks(before, img, WithTaken(img, taken, k, |taken| + 1 == blocks, end), taken, k);
  }

  lemma TakenBits(bitmap: seq<Byte>, block: seq<Byte>, taken: Chain, k: nat)
    requires |bitmap| == 512 && |block| == 512 && k < MAX_BLOCKS && !MapBit(bitmap, k)
    requires BitsSet(bitmap, block, taken) && ClearBelow(bitmap, taken, k)
    ensures BitsSet(bitmap, PutMapBit(block, k, true), taken + [k])
    ensures ClearBelow(bitmap, taken + [k], k + 1)
  {
    hide MapBit, PutMapBit;
    assert forall x :: x in taken + [k] <==> x in taken || x == k;
    assert forall i :: 0 <= i < |taken| ==> taken[i] in taken;
  }

  lemma TakenBlocks(before: Image, img: Image, img': Image, taken: Chain, k: nat)
    requires before.Valid() && img.Valid() && img'.Valid()
    requires OnlyBlocks(before, img, taken) && OnlyBlocks(img, img', taken + [k])
    ensures OnlyBlocks(before, img', taken + [k])
  {
    assert forall x :: x in taken + [k] <==> x in taken || x == k;
  }

  lemma ReservingEnds(before: Image, img: Image, block: seq<Byte>, taken: Chain, k: nat, blocks: nat)
    requires before.Valid() && img.Valid() && Reserving(before, img, block, taken, k, blocks)
    requires |taken| == blocks > 0
    ensures LowestClear(before.bitmap, taken)
    ensures PagesLinked(img, taken, blocks)
  {
    hide MapBit;
    var last := taken[|taken| - 1];
    assert last in taken;
    forall x | 0 <= x < MAX_BLOCKS
      ensures x in taken <==> x < last + 1 && !MapBit(before.bitmap, x)
    {
      if x in taken {
        var i :| 0 <= i < |taken| && taken[i] == x;
      }
    }
  }

  lemma ReservingStarts(img: Image, blocks: nat)
    requires img.Valid() && blocks <= FreeFrom(img.bitmap, 0)
    ensures Reserving(img, img, img.bitmap, [], 0, blocks)
  {
  }

  lemma ReservingFacts(before: Image, img: Image, block: seq<Byte>, taken: Chain, k: nat, blocks: nat)
    requires before.Valid() && img.Valid() && Reserving(before, img, block, taken, k, blocks)
    ensures |block| == 512 && |taken| <= blocks && Placed(taken) && k <= MAX_BLOCKS
    ensures BitsSet(before.bitmap, block, taken) && OnlyBlocks(before, img, taken)
    ensures k == MAX_BLOCKS ==> |taken| == blocks
    ensures blocks <= MAX_BLOCKS
  {
    FreeBound(before.bitmap, k);
    AscendingBound(taken, k);
  }

  lemma {:induction false} FreeBound(bitmap: seq<Byte>, k: nat)
    requires |bitmap| == 512 && k <= MAX_BLOCKS
    ensures FreeFrom(bitmap, k) <= MAX_BLOCKS - k
    decreases MAX_BLOCKS - k
  {
    if k < MAX_BLOCKS {
      FreeBound(bitmap, k + 1);
    }
  }

  lemma {:induction false} AscendingBound(chain: Chain, k: nat)
    requires Ascending(chain) && forall x :: x in chain ==> x < k
    ensures |chain| <= k
  {
    if |chain| > 0 {
      var n := |chain| - 1;
      assert chain[n] in chain;
      forall x | x in chain[..n]
        ensures x < chain[n]
      {
      }
      AscendingBound(chain[..n], chain[n]);
    }
  }

  /** The caller's page and the loop's memory of the previous block. */
  ghost predicate PageSetUp(page: DiskPage, previousSector: U32, previousOffset: U32, taken: Chain, blocks: nat) {
    && (|taken| > 0 ==> previousSector == FILE_CONTENTS_INITIAL_SECTOR && previousOffset == 256 * taken[|taken| - 1])
    && (|taken| > 0 ==>
          page == ReservedPage(taken[0], blocks))
  }

  lemma BitmapWriteKeepsPages(before: Image, img: Image, block: seq<Byte>, taken: Chain, count: nat)
    requires before.Valid() && img.Valid() && |block| == 512 && count <= |taken|
    requires OnlyBlocks(before, img, taken) && PagesLinked(img, taken, count)
    ensures OnlyBlocks(before, img.(bitmap := block).(bitmap := before.bitmap), taken)
    ensures PagesLinked(img.(bitmap := block), taken, count)
  {
  }

  /** More bits set in the bitmap of inodes, which no file's shape forbids. */
  lemma INodeMapKeepsFs(img: Image, files: Files, img': Image)
    requires FsOk(img, files) && img'.Valid()
    requires img' == img.(head := img'.head)
    requires forall n :: n in files ==> n < MAX_INODES && img'.INodeTaken(n)
    ensures FsOk(img', files)
    ensures forall j :: j in files ==> FileOk(img, j, files[j]) && Stream(img', files[j]) == Stream(img, files[j])
  {
    hide Stream, INodeOk, LinkOk, UsedOk, PageOf, INodeOf, MapBit, Separate;
    assert forall k :: 0 <= k < MAX_BLOCKS ==> img'.Taken(k) == img.Taken(k);
    forall j | j in files
      ensures FileOk(img', j, files[j]) && Stream(img', files[j]) == Stream(img, files[j])
    {
      FileFrame(img, img', j, files[j]);
    }
  }

  /** Taking one clear bit leaves one free block less. */
  lemma {:induction false} FreeAfterOne(before: seq<Byte>, after: seq<Byte>, x: nat, k: nat)
    requires |before| == 512 && |after| == 512 && BitsSet(before, after, [x])
    requires x < MAX_BLOCKS && !MapBit(before, x) && k <= MAX_BLOCKS
    ensures FreeFrom(after, k) == FreeFrom(before, k) - if x >= k then 1 else 0
    decreases MAX_BLOCKS - k
  {
    hide MapBit;
    if k < MAX_BLOCKS {
      FreeAfterOne(before, after, x, k + 1);
      assert MapBit(after, k) <==> MapBit(before, k) || k == x;
    }
  }

  /** A new inode whose chain is the one reserved block, with its entry and header written. */
  lemma CreatedFile(img: Image, reserved: Image, files: Files, n: nat, taken: Chain, inode: INodeDisk, header: FileHeader)
    requires FsOk(img, files) && reserved.Valid() && header.Valid()
    requires n !in files && n < MAX_INODES && img.INodeTaken(n)
    requires |taken| == 1 && LowestClear(img.bitmap, taken) && PagesLinked(reserved, taken, 1)
    requires BitsSet(img.bitmap, reserved.bitmap, taken)
    requires OnlyBlocks(img, reserved.(bitmap := img.bitmap), taken)
    requires inode == INodeDisk(ReservedPage(taken[0], 1), 1, 0)
    ensures taken[0] < MAX_BLOCKS
    ensures var final := WithBlock(WithINode(reserved, n, inode), taken[0], 28, HeaderBytes(header));
            && FsOk(final, files[n := taken])
            && final.INode(n) == inode
            && final.head == img.head
            && Stream(final, taken)[..48] == HeaderBytes(header)
            && final.Page(taken[0]).usedBytes == 0
            && OnlyFile(img, final, n, taken)
            && forall j :: j in files && j != n ==> Stream(final, files[j]) == Stream(img, files[j])
  {
    hide PageOf, PageBytes, MapBit, UsedOk, INodeOf, INodeBytes, HeaderBytes, LowestClear;
    LowestClearFacts(img.bitmap, taken);
    var entered := WithINode(reserved, n, inode);
    var final := WithBlock(entered, taken[0], 28, HeaderBytes(header));
    INodeWriteSetsINode(reserved, n, inode);
    PayloadWriteKeepsPages(entered, taken[0], 28, HeaderBytes(header));
    ReservedIsEmptyFile(reserved, taken);
    assert ChainOk(final, taken, 0);
    StreamSlice(final, taken, 0, 0, 48);
    SpliceReadsBack(entered.blocks[taken[0]], 28, HeaderBytes(header));
    assert ChainOf(files, n) + taken == taken;
    assert OnlyFile(img, final, n, taken) by {
      assert forall j :: 0 <= j < MAX_INODES && j != n ==> reserved.INode(j) == img.INode(j);
    }
    assert final.INode(n) == entered.INode(n) == inode;
    assert INodeOk(inode, taken);
    assert Stream(final, taken)[..48] == HeaderBytes(header);
    CreatedFs(img, final, files, n, taken);
  }

  lemma CreatedFs(img: Image, final: Image, files: Files, n: nat, taken: Chain)
    requires FsOk(img, files) && final.Valid() && n !in files
    requires Placed(taken) && Distinct(taken) && forall i :: 0 <= i < |taken| ==> !img.Taken(taken[i])
    requires BitsSet(img.bitmap, final.bitmap, taken)
    requires FileOk(final, n, taken) && OnlyFile(img, final, n, taken)
    ensures FsOk(final, files[n := taken])
    ensures forall j :: j in files && j != n ==> Stream(final, files[j]) == Stream(img, files[j])
  {
    hide *;
    EmptyChainOf(files, n, taken);
    UpdateKeepsFs(img, files, final, n, taken);
  }

  lemma EmptyChainOf(files: Files, n: nat, taken: Chain)
    requires n !in files
    ensures ChainOf(files, n) + taken == taken
  {
  }

  // ---- Extending a file ------------------------------------------------------

  /** The number of blocks _extendMemory reserves for a file of the given total size. */
  function Estimate(size: nat): (blocks: nat)
    ensures blocks >= 1
  {
    var neededBlocks := size / 257 + 1;
    (size + neededBlocks * 48) / 257 + 1
  }

  /** The blocks a file of so many blocks holds after a write that ends at position total. */
  function BlocksAfter(blocks: nat, total: nat): (r: nat)
    ensures blocks <= r
  {
    if 48 + total > 228 * blocks then blocks + Estimate(total) else blocks
  }

  /** The two-pass estimate is always enough: the new blocks alone could hold the whole file. */
  lemma EstimateIsEnough(size: nat)
    ensures 228 * Estimate(size) > size
  {
    var needed := size / 257 + 1;
    var padded := size + needed * 48;
    assert 257 * needed > size;
    assert 257 * (padded / 257 + 1) > padded;
  }

  /** It is the least number of blocks of 257 bytes that is more than the size and 48 bytes for each 257 begun. */
  lemma EstimateExact(size: nat, begun: nat)
    requires 257 * (begun - 1) <= size < 257 * begun
    ensures 257 * (Estimate(size) - 1) <= size + 48 * begun < 257 * Estimate(size)
  {
  }

  /** What a drive with 4096 blocks can be asked for without overflowing any 32-bit count. */
  lemma EstimateBounds(size: nat)
    requires Estimate(size) <= MAX_BLOCKS
    ensures size < 0x20_0000
  {
  }

  lemma {:induction false} DistinctBound(chain: Chain, k: nat)
    requires Distinct(chain) && forall i :: 0 <= i < |chain| ==> chain[i] < k
    ensures |chain| <= k
  {
    assert |chain| > 0 ==> chain[0] < k;
    if k > 0 {
      if i :| 0 <= i < |chain| && chain[i] == k - 1 {
        DistinctBound(chain[..i] + chain[i + 1..], k - 1);
      } else {
        DistinctBound(chain, k - 1);
      }
    }
  }

  /** The state between reserving room for a file and writing its new contents and inode entry. */
  ghost predicate Extended(before: Image, img: Image, chain: Chain, taken: Chain, length: nat)
    requires before.Valid() && img.Valid() && Placed(chain)
  {
    && Placed(taken) && Distinct(taken)
    && (forall i :: 0 <= i < |taken| ==> !before.Taken(taken[i]))
    && BitsSet(before.bitmap, img.bitmap, taken)
    && OnlyBlocks(before, img.(bitmap := before.bitmap), chain + taken)
    && ChainOk(img, chain + taken, length)
    && Stream(img, chain + taken)[..228 * |chain|] == Stream(before, chain)
    && (forall i :: 0 <= i < |chain| ==> img.Page(chain[i]).usedBytes == before.Page(chain[i]).usedBytes)
  }

  lemma NotExtended(img: Image, chain: Chain, length: nat)
    requires img.Valid() && ChainOk(img, chain, length)
    ensures Extended(img, img, chain, [], length)
  {
    assert chain + [] == chain;
  }

  lemma LowestClearFacts(bitmap: seq<Byte>, taken: Chain)
    requires |bitmap| == 512 && LowestClear(bitmap, taken)
    ensures Placed(taken) && Distinct(taken) && |taken| > 0
    ensures forall i :: 0 <= i < |taken| ==> !MapBit(bitmap, taken[i])
  {
    assert forall i :: 0 <= i < |taken| ==> taken[i] in taken;
  }

  /** Reserving a chain and linking it behind a file's last page extends the file. */
  lemma ReservedExtends(img: Image, reserved: Image, chain: Chain, taken: Chain, length: nat)
    requires img.Valid() && reserved.Valid() && ChainOk(img, chain, length) && Distinct(chain)
    requires forall i :: 0 <= i < |chain| ==> img.Taken(chain[i])
    requires LowestClear(img.bitmap, taken) && PagesLinked(reserved, taken, |taken|)
    requires BitsSet(img.bitmap, reserved.bitmap, taken)
    requires OnlyBlocks(img, reserved.(bitmap := img.bitmap), taken)
    ensures |taken| > 0
    ensures var last := chain[|chain| - 1];
            var linked := WithBlock(reserved, last, 0, PageBytes(Relinked(img.Page(last), taken[0])));
            Extended(img, linked, chain, taken, length)
  {
    hide PageOf, PageBytes, MapBit, LinkOk, UsedOk, Stream, PagesLinked, LowestClear;
    LowestClearFacts(img.bitmap, taken);
    assert Disjoint(chain, taken);
    AppendReserved(img, reserved, chain, taken, length);
    var last := chain[|chain| - 1];
    var linked := WithBlock(reserved, last, 0, PageBytes(Relinked(img.Page(last), taken[0])));
    forall k | 0 <= k < MAX_BLOCKS && k !in chain + taken
      ensures linked.blocks[k] == img.blocks[k]
    {
      assert k !in chain && k !in taken;
      assert last in chain;
    }
  }

  lemma ExtendedFacts(before: Image, img: Image, files: Files, n: nat, taken: Chain)
    requires FsOk(before, files) && n in files && img.Valid()
    requires Extended(before, img, files[n], taken, before.INode(n).usedBytes)
    ensures ChainOk(img, files[n] + taken, before.INode(n).usedBytes)
    ensures Distinct(files[n] + taken) && Placed(files[n] + taken)
    ensures Stream(img, files[n] + taken)[..228 * |files[n]|] == Stream(before, files[n])
  {
    hide Stream, PageOf, INodeOf, LinkOk, UsedOk, MapBit;
    SeparateUpdate(before, files, n, taken);
    assert files[n := files[n] + taken][n] == files[n] + taken;
  }

  /** Writing into an extended file and then setting its inode entry completes a step of the file system. */
  lemma ExtendedWritten(before: Image, img: Image, written: Image, files: Files, n: nat, taken: Chain, length: nat,
      inode: INodeDisk)
    requires FsOk(before, files) && n in files && img.Valid() && written.Valid()
    requires Extended(before, img, files[n], taken, before.INode(n).usedBytes)
    requires INodeOk(inode, files[n] + taken) && inode.usedBytes == length
    requires OnlyBlocks(img, written, files[n] + taken) && ChainOk(written, files[n] + taken, length)
    ensures var final := WithINode(written, n, inode);
            && FsOk(final, files[n := files[n] + taken])
            && final.INode(n) == inode
            && Stream(final, files[n] + taken) == Stream(written, files[n] + taken)
            && final.head == before.head
            && OnlyFile(before, final, n, files[n] + taken)
            && forall j :: j in files && j != n ==> Stream(final, files[j]) == Stream(before, files[j])
  {
    hide WithINode, INodeOf, PageOf, LinkOk, UsedOk, MapBit, BitsSet;
    var all, final := files[n] + taken, WithINode(written, n, inode);
    INodeWriteSetsINode(written, n, inode);
    ExtendedInFile(before, img, written, files, n, taken, inode);
    ChainFrame(written, final, all, length);
    UpdateKeepsFs(before, files, final, n, taken);
  }

  lemma ExtendedInFile(before: Image, img: Image, written: Image, files: Files, n: nat, taken: Chain, inode: INodeDisk)
    requires FsOk(before, files) && n in files && img.Valid() && written.Valid()
    requires Extended(before, img, files[n], taken, before.INode(n).usedBytes)
    requires OnlyBlocks(img, written, files[n] + taken)
    ensures OnlyFile(before, WithINode(written, n, inode), n, files[n] + taken)
    ensures BitsSet(before.bitmap, WithINode(written, n, inode).bitmap, taken)
  {
    hide INodeOf, INodeBytes, Splice, Stream, ChainOk, INodeOk, Separate, BitmapOk, MapBit, WithINode;
    INodeWriteSetsINode(written, n, inode);
  }

  /** Contents after a write of data at offset, within or right behind them. */
  function Overwrite(contents: seq<Byte>, offset: nat, data: seq<Byte>): (r: seq<Byte>)
    requires offset <= |contents|
    ensures |r| == Max(|contents|, offset + |data|)
    ensures r[offset..offset + |data|] == data
  {
    contents[..offset] + data + if offset + |data| < |contents| then contents[offset + |data|..] else []
  }

  /** Writing at least the whole file from its start replaces it. */
  lemma OverwriteAll(contents: seq<Byte>, data: seq<Byte>)
    requires |data| >= |contents|
    ensures Overwrite(contents, 0, data) == data
  {
  }

  lemma OverwriteInside(contents: seq<Byte>, offset: nat, data: seq<Byte>)
    requires offset + |data| <= |contents|
    ensures Overwrite(contents, offset, data) == Splice(contents, offset, data)
  {
  }

  /**
    A file's contents before and after a write of data at offset: the data is where it belongs
    and every other old byte is kept. Bytes between the old end and offset are whatever the blocks held.
   */
  ghost predicate Written(was: seq<Byte>, now: seq<Byte>, offset: nat, data: seq<Byte>) {
    && |now| == Max(|was|, offset + |data|)
    && now[offset..offset + |data|] == data
    && (forall i :: 0 <= i < |was| && !(offset <= i < offset + |data|) ==> now[i] == was[i])
    && (offset <= |was| ==> now == Overwrite(was, offset, data))
  }

  /** What the bytes of the extended and written chain say about the file's contents. */
  lemma ContentsWritten(before: seq<Byte>, extended: seq<Byte>, room: nat, length: nat, offset: nat, data: seq<Byte>)
    requires 48 + length <= room == |before| && room <= |extended| && 48 + offset + |data| <= |extended|
    requires extended[..room] == before
    ensures var after := Splice(extended, 48 + offset, data);
            var contents := after[48..48 + Max(length, offset + |data|)];
            && after[..48] == before[..48]
            && Written(before[48..48 + length], contents, offset, data)
  {
    var after := Splice(extended, 48 + offset, data);
    var contents := after[48..48 + Max(length, offset + |data|)];
    assert forall i :: 0 <= i < room ==> extended[i] == extended[..room][i] == before[i];
    assert forall i :: 0 <= i < |contents| ==>
      contents[i] == if offset <= i < offset + |data| then data[i - offset] else extended[48 + i];
    var was := before[48..48 + length];
    assert forall i :: 0 <= i < length ==> was[i] == before[48 + i];
    if offset <= length {
      forall i | 0 <= i < |contents|
        ensures contents[i] == Overwrite(was, offset, data)[i]
      {
      }
    }
  }

  /** Deleting a file: its blocks are freed, its first block's header area overwritten, its inode bit cleared. */
  lemma DeletedFile(img: Image, freed: Image, files: Files, n: nat, junk: seq<Byte>, head: seq<Byte>)
    requires FsOk(img, files) && n in files && freed.Valid() && |junk| == 48
    requires freed == img.(bitmap := freed.bitmap) && BitsCleared(img.bitmap, freed.bitmap, files[n])
    requires |head| == 512 && head[..8] == img.head[..8] && head[8..] == PutMapBit(img.head[8..], n, false)
    ensures |files[n]| > 0 && files[n][0] < MAX_BLOCKS && n < MAX_INODES
    ensures var final := WithBlock(freed, files[n][0], 28, junk).(head := head);
            && FsOk(final, files - {n})
            && final.bitmap == freed.bitmap
            && (forall j :: 0 <= j < 4032 ==> final.INodeTaken(j) == (j != n && img.INodeTaken(j)))
            && OnlyFile(img, final, n, files[n])
            && forall j :: j in files && j != n ==> Stream(final, files[j]) == Stream(img, files[j])
  {
    hide Stream, LinkOk, UsedOk, PageOf, INodeOf, BitmapOk, Separate, MapBit, PutMapBit;
    assert FileOk(img, n, files[n]);
    var final := WithBlock(freed, files[n][0], 28, junk).(head := head);
    assert files[n][0] in files[n];
    RemoveKeepsFs(img, files, final, n);
  }

  // ---- A freshly formatted drive ---------------------------------------------

  lemma ZeroBits(bitmap: seq<Byte>)
    requires forall i :: 0 <= i < |bitmap| ==> bitmap[i] == 0
    ensures forall k :: 0 <= k < 8 * |bitmap| ==> !MapBit(bitmap, k)
  {
    forall k | 0 <= k < 8 * |bitmap|
      ensures !MapBit(bitmap, k)
    {
      ZeroBit(k % 8);
    }
  }

  lemma {:induction false} ZeroBit(j: nat)
    ensures !BitOf(0, j)
  {
    if j > 0 {
      ZeroBit(j - 1);
    }
  }

  lemma {:induction false} AllFree(bitmap: seq<Byte>, k: nat)
    requires |bitmap| == 512 && k <= MAX_BLOCKS && forall x :: 0 <= x < MAX_BLOCKS ==> !MapBit(bitmap, x)
    ensures FreeFrom(bitmap, k) == MAX_BLOCKS - k
    decreases MAX_BLOCKS - k
  {
    if k < MAX_BLOCKS {
      AllFree(bitmap, k + 1);
    }
  }

  lemma FormattedFs(img: Image)
    requires img.Valid() && forall i :: 0 <= i < 512 ==> img.bitmap[i] == 0
    ensures FsOk(img, map[])
    ensures FreeFrom(img.bitmap, 0) == MAX_BLOCKS
  {
    ZeroBits(img.bitmap);
    AllFree(img.bitmap, 0);
  }

  // ---- Inode numbers from 128 on -----------------------------------------------

  lemma SplicedBit(bitmap: seq<Byte>, a: nat, d: seq<Byte>, k: nat)
    requires |bitmap| == 512 && a + |d| <= 512 && k < MAX_BLOCKS
    ensures MapBit(Splice(bitmap, a, d), k) <==>
      if 8 * a <= k < 8 * (a + |d|) then BitOf(d[(k - 8 * a) / 8], k % 8) else MapBit(bitmap, k)
  {
    hide BitOf;
    SpliceAt(bitmap, a, d, k / 8);
    assert (k - 8 * a) / 8 == k / 8 - a;
  }

  lemma OverBitmapBit(img: Image, n: nat, inode: INodeDisk, k: nat)
    requires img.Valid() && MAX_INODES <= n < 142 && k < MAX_BLOCKS
    ensures var base := 288 * (n - 128);
            OverBitmap(img, n, inode).Taken(k) <==>
            if base <= k < base + 288 then BitOf(INodeBytes(inode)[(k - base) / 8], (k - base) % 8) else img.Taken(k)
  {
    hide INodeBytes, BitOf, MapBit, Splice;
    SplicedBit(img.bitmap, 36 * (n - 128), INodeBytes(inode), k);
  }

  /**
    The entry of an inode number from 128 on lies over 288 bits of the bitmap. The file system is
    still sound after it was set exactly if these bits were those of the entry already.
   */
  lemma OverBitmapExact(img: Image, files: Files, n: nat, inode: INodeDisk)
    requires FsOk(img, files) && MAX_INODES <= n < 142
    ensures FsOk(OverBitmap(img, n, inode), files) <==>
      forall k :: 0 <= k < 288 ==> (BitOf(INodeBytes(inode)[k / 8], k % 8) <==> img.Taken(288 * (n - 128) + k))
  {
    hide Stream, INodeOk, LinkOk, UsedOk, PageOf, INodeOf, INodeBytes, BitOf, MapBit, Separate, Splice;
    var after, base := OverBitmap(img, n, inode), 288 * (n - 128);
    forall j | j in files ensures FileOk(after, j, files[j]) {
      FileFrame(img, after, j, files[j]);
    }
    forall k | 0 <= k < MAX_BLOCKS
      ensures after.Taken(k) <==>
        if base <= k < base + 288 then BitOf(INodeBytes(inode)[(k - base) / 8], (k - base) % 8) else img.Taken(k)
    {
      OverBitmapBit(img, n, inode, k);
    }
    SameBitsExact(img, after, files, base, INodeBytes(inode));
  }

  lemma SameBitsExact(img: Image, after: Image, files: Files, base: nat, bytes: seq<Byte>)
    requires img.Valid() && after.Valid() && BitmapOk(img, files) && base + 288 <= MAX_BLOCKS && |bytes| == 36
    requires forall k :: 0 <= k < MAX_BLOCKS ==>
      (after.Taken(k) <==> if base <= k < base + 288 then BitOf(bytes[(k - base) / 8], (k - base) % 8) else img.Taken(k))
    ensures BitmapOk(after, files) <==>
      forall k :: 0 <= k < 288 ==> (BitOf(bytes[k / 8], k % 8) <==> img.Taken(base + k))
  {
    hide MapBit, BitOf, Owned;
    if BitmapOk(after, files) {
      forall k | 0 <= k < 288 ensures BitOf(bytes[k / 8], k % 8) <==> img.Taken(base + k) {
        assert after.Taken(base + k) <==> img.Taken(base + k);
        assert (base + k - base) / 8 == k / 8;
      }
    } else {
      var k :| 0 <= k < MAX_BLOCKS && (after.Taken(k) <==> !Owned(files, k));
      assert after.Taken(k) <==> !img.Taken(k);
      var i := k - base;
      assert 0 <= i < 288 && k == base + i;
    }
  }

  /** The magic number in front of such an entry shows six blocks as free. */
  lemma MagicOverBitmap(img: Image, files: Files, n: nat, inode: INodeDisk, k: nat)
    requires FsOk(img, files) && MAX_INODES <= n < 142 && inode.data.magic == MAGIC_NUMBER
    requires k < 6 && img.Taken(288 * (n - 128) + k)
    ensures !OverBitmap(img, n, inode).Taken(288 * (n - 128) + k)
    ensures !FsOk(OverBitmap(img, n, inode), files)
  {
    hide FileOk, Separate, BitmapOk, INodeBytes, BitOf, MapBit, OverBitmap;
    var base := 288 * (n - 128);
    assert base + k < MAX_BLOCKS && k / 8 == 0 && k % 8 == k;
    MagicBits(inode, k);
    OverBitmapBit(img, n, inode, base + k);
    TakenLost(img, OverBitmap(img, n, inode), files, base + k);
  }

  /** A file system whose bitmap lost a taken block is not sound. */
  lemma TakenLost(img: Image, after: Image, files: Files, k: nat)
    requires FsOk(img, files) && after.Valid() && k < MAX_BLOCKS && img.Taken(k) && !after.Taken(k)
    ensures !FsOk(after, files)
  {
    hide FileOk, Separate, MapBit, Owned;
  }

  lemma MagicBits(inode: INodeDisk, k: nat)
    requires inode.data.magic == MAGIC_NUMBER && k < 6
    ensures !BitOf(INodeBytes(inode)[0], k)
  {
    assert INodeBytes(inode)[0] == U32Bytes(MAGIC_NUMBER)[0] == 64;
    hide BitOf, INodeBytes;
    PowerBits(6, 64, k);
  }

  /** Bits k below i of 2 to the i are clear. */
  lemma {:induction false} PowerBits(i: nat, b: nat, k: nat)
    requires k < i <= 6 && b == [1, 2, 4, 8, 16, 32, 64][i]
    ensures !BitOf(b, k)
  {
    if k > 0 {
      PowerBits(i - 1, b / 2, k - 1);
    }
  }
}
