/**
  The disk manager: inodes, block reservation and file contents, through the sector cache
  (the strategy the file system selects) on drive ATA0.
 */
module DiskManager {
  import opened Bytes
  import opened Ata
  import opened CStrings
  import opened DiskLayout
  import opened EntryWrites
  import opened FileChains
  import opened FreeSpace
  import opened Options
  import opened PageWrites
  import opened Reservation
  import opened WritePosition
  import DiskCache

  /** What diskManager_readInode fills in. */
  datatype INode = INode(name: seq<Byte>, mask: U32, uid: U32, gid: U32, flags: U32, impl: U32,
                         id: nat, length: U32, sector: U32, offset: U32)

  class DiskManager {
    const cache: DiskCache.Cache
    // The chain of blocks of each live inode.
    ghost var files: Files

    /** The file system's regions as the cache presents them. */
    ghost function Img(): (img: Image)
      requires cache.Valid()
      reads cache.cachedData, cache.ata.primary, cache.ata.secondary
      ensures img.Valid()
    {
      ImageOf(cache.View(ATA0))
    }

    ghost predicate Valid()
      reads this, cache.cachedData, cache.ata.primary, cache.ata.secondary
    {
      cache.Valid() && FsOk(Img(), files)
    }

    /** diskManager_init with the cache strategy; files says what the drive already holds. */
    constructor (cache: DiskCache.Cache, ghost files: Files)
      requires cache.Valid() && FsOk(ImageOf(cache.View(ATA0)), files)
      ensures Valid() && this.cache == cache && this.files == files
    {
      this.cache := cache;
      this.files := files;
    }

    // ---- Files -------------------------------------------------------------

    /** A live file's header and contents, with the room behind them. */
    ghost function FileBytes(n: nat): (r: seq<Byte>)
      requires Valid() && n in files
      reads this, cache.cachedData, cache.ata.primary, cache.ata.secondary
      ensures |r| == 228 * |files[n]|
    {
      Stream(Img(), files[n])
    }

    ghost function Length(n: nat): (r: nat)
      requires Valid() && n in files
      reads this, cache.cachedData, cache.ata.primary, cache.ata.secondary
      ensures 48 + r <= 228 * |files[n]| && r < 0x1_0000_0000
    {
      assert FileOk(Img(), n, files[n]);
      Img().INode(n).usedBytes
    }

    ghost function Contents(n: nat): (r: seq<Byte>)
      requires Valid() && n in files
      reads this, cache.cachedData, cache.ata.primary, cache.ata.secondary
      ensures |r| == Length(n)
    {
      hide *;
      Behind(FileBytes(n), 48, Length(n))
    }

    ghost function Header(n: nat): (h: FileHeader)
      requires Valid() && n in files
      reads this, cache.cachedData, cache.ata.primary, cache.ata.secondary
      ensures h.Valid()
    {
      assert FileOk(Img(), n, files[n]);
      HeaderOf(FileBytes(n)[..48])
    }

    /** The number of blocks not taken by any file. */
    ghost function FreeBlocks(): nat
      requires Valid()
      reads this, cache.cachedData, cache.ata.primary, cache.ata.secondary
    {
      FreeFrom(Img().bitmap, 0)
    }

    // ---- Structures on disk ------------------------------------------------

    method ReadBlock(disk: U32, length: nat, sector: U32, offset: U32, ghost k: nat, ghost o: nat)
      returns (data: seq<Byte>)
      requires cache.Valid() && k < MAX_BLOCKS && o + length <= 256
      requires disk == ATA0 && sector == FILE_CONTENTS_INITIAL_SECTOR && offset == 256 * k + o
      modifies cache.cachedData, cache.ata.primary, cache.ata.secondary
      ensures cache.Valid() && Img() == old(Img())
      ensures |data| == length && data == Img().blocks[k][o..o + length]
    {
      hide ImageOf, cache.Valid, cache.View;
      data := cache.Read(disk, length, sector, offset);
      ImageBlockRead(cache.View(ATA0), k, o, length);
    }

    method WriteBlock(disk: U32, data: seq<Byte>, sector: U32, offset: U32, ghost k: nat, ghost o: nat)
      requires cache.Valid() && k < MAX_BLOCKS && o + |data| <= 256
      requires disk == ATA0 && sector == FILE_CONTENTS_INITIAL_SECTOR && offset == 256 * k + o
      modifies cache.cachedData, cache.ata.primary, cache.ata.secondary
      ensures cache.Valid() && Img() == WithBlock(old(Img()), k, o, data)
    {
      hide ImageOf, cache.Valid, cache.View;
      ImageBlockWrite(cache.View(ATA0), k, o, data);
      cache.Write(disk, data, sector, offset);
    }

    method ReadPage(disk: U32, sector: U32, offset: U32, ghost k: nat) returns (page: DiskPage)
      requires cache.Valid() && k < MAX_BLOCKS
      requires disk == ATA0 && sector == FILE_CONTENTS_INITIAL_SECTOR && offset == 256 * k
      modifies cache.cachedData, cache.ata.primary, cache.ata.secondary
      ensures cache.Valid() && Img() == old(Img())
      ensures page == Img().Page(k)
    {
      hide ImageOf, cache.Valid, cache.View, PageOf;
      var data := ReadBlock(disk, 28, sector, offset, k, 0);
      assert data[..28] == Img().blocks[k][..28];
      page := PageOf(data);
      PageOfPrefix(data, Img().blocks[k]);
    }

    method WritePage(disk: U32, page: DiskPage, sector: U32, offset: U32, ghost k: nat)
      requires cache.Valid() && k < MAX_BLOCKS
      requires disk == ATA0 && sector == FILE_CONTENTS_INITIAL_SECTOR && offset == 256 * k
      modifies cache.cachedData, cache.ata.primary, cache.ata.secondary
      ensures cache.Valid() && Img() == WithBlock(old(Img()), k, 0, PageBytes(page))
    {
      WriteBlock(disk, PageBytes(page), sector, offset, k, 0);
    }

    /** _getiNode, of any number that diskManager_nextInode may return. */
    method GetINode(n: nat) returns (inode: INodeDisk)
      requires cache.Valid() && (n < MAX_INODES || n < 4032)
      modifies cache.cachedData, cache.ata.primary, cache.ata.secondary
      ensures cache.Valid() && Img() == old(Img())
      ensures inode == INodeOf(cache.View(ATA0)[512 + 36 * n..512 + 36 * n + 36])
      ensures n < MAX_INODES ==> inode == Img().INode(n)
    {
      hide cache.Valid, cache.View, ImageOf, INodeOf;
      var data := cache.Read(ATA0, 36, INODES_INITIAL_SECTOR, n * 36);
      if n < MAX_INODES {
        ImageTableRead(cache.View(ATA0), n);
      }
      inode := INodeOf(data);
    }

    /** _setiNode, the same. From number 128 on the entry lies over the bitmap of blocks, and later over the blocks. */
    method SetINode(n: nat, inode: INodeDisk)
      requires cache.Valid() && (n < MAX_INODES || n < 4032)
      modifies cache.cachedData, cache.ata.primary, cache.ata.secondary
      ensures cache.Valid() && cache.View(ATA0) == Splice(old(cache.View(ATA0)), 512 + 36 * n, INodeBytes(inode))
      ensures n < MAX_INODES ==> Img() == WithINode(old(Img()), n, inode)
      ensures MAX_INODES <= n < 142 ==> Img() == OverBitmap(old(Img()), n, inode)
    {
      hide cache.Valid, cache.View, ImageOf, Splice, INodeBytes;
      if n < MAX_INODES {
        ImageTableWrite(cache.View(ATA0), 36 * n, INodeBytes(inode));
      } else if n < 142 {
        ImageBitmapWrite(cache.View(ATA0), 36 * (n - 128), INodeBytes(inode));
      }
      cache.Write(ATA0, INodeBytes(inode), INODES_INITIAL_SECTOR, n * 36);
    }

    method ReadBitmap() returns (block: seq<Byte>)
      requires cache.Valid()
      modifies cache.cachedData, cache.ata.primary, cache.ata.secondary
      ensures cache.Valid() && Img() == old(Img())
      ensures block == Img().bitmap
    {
      block := cache.Read(ATA0, 512, FILES_BIT_MAP_SECTOR, 0);
    }

    method WriteBitmap(block: seq<Byte>)
      requires cache.Valid() && |block| == 512
      modifies cache.cachedData, cache.ata.primary, cache.ata.secondary
      ensures cache.Valid() && Img() == old(Img()).(bitmap := block)
    {
      ImageBitmapWrite(cache.View(ATA0), 0, block);
      assert Splice(Img().bitmap, 0, block) == block;
      cache.Write(ATA0, block, FILES_BIT_MAP_SECTOR, 0);
    }

    method ReadINodeMap() returns (block: seq<Byte>)
      requires cache.Valid()
      modifies cache.cachedData, cache.ata.primary, cache.ata.secondary
      ensures cache.Valid() && Img() == old(Img())
      ensures |block| == 504 && block == Img().head[8..]
    {
      block := cache.Read(ATA0, 504, 0, 8);
      SliceOfSlice(cache.View(ATA0), 0, 512, 8, 504);
    }

    method WriteINodeMap(block: seq<Byte>)
      requires cache.Valid() && |block| == 504
      modifies cache.cachedData, cache.ata.primary, cache.ata.secondary
      ensures cache.Valid() && Img() == old(Img()).(head := old(Img()).head[..8] + block)
    {
      ImageHeadWrite(cache.View(ATA0), 8, block);
      cache.Write(ATA0, block, 0, 8);
    }

    // ---- File contents -----------------------------------------------------

    /**
      _readBlock, within the file's size. bytesFromContent is not initialised: leftover is the
      value it happens to hold. When the first page is skipped and leftover is 0, the function
      reports success without copying anything.
     */
    method ReadChain(page: DiskPage, length0: U32, offset0: U32, leftover: int, ghost chain: Chain, ghost size: nat)
      returns (status: int, contents: seq<Byte>)
      requires cache.Valid() && ChainOk(Img(), chain, size)
      requires page.disk == ATA0 && page.nextSector == FILE_CONTENTS_INITIAL_SECTOR && page.nextOffset == 256 * chain[0]
      requires offset0 + length0 <= size
      modifies cache.cachedData, cache.ata.primary, cache.ata.secondary
      ensures cache.Valid() && Img() == old(Img())
      ensures status == 0
      ensures contents ==
        if leftover == 0 && offset0 >= 180 then []
        else Stream(Img(), chain)[48 + offset0..48 + offset0 + length0]
    {
      hide *;
      ghost var start, img := 48 + offset0, Img();
      ChainFacts(img, chain, size);
      PageFacts(img, chain, size, 0);
      var length: U32, offset: U32 := length0, offset0;
      var currPage := ReadPage(page.disk, page.nextSector, page.nextOffset, chain[0]);
      LinkFacts(currPage, chain, 0);
      if currPage.magic != MAGIC_NUMBER {
        assert false;
      }
      FirstFullOrLast(currPage.usedBytes, size, offset);
      contents := [];
      var bytesFromContent := leftover;
      if offset < ToU32(currPage.usedBytes - 76) {
        MinFacts(180 - offset, length);
        bytesFromContent := Min(currPage.totalLength - 76 - offset, length);
        length := length - bytesFromContent;
        contents := ReadBlock(page.disk, bytesFromContent, page.nextSector, page.nextOffset + 76 + offset,
          chain[0], 76 + offset);
        NothingRead(Stream(img, chain), start);
        StreamGrow(img, chain, start, [], 0, start, contents);
        assert [] + contents == contents;
        offset := 0;
      } else {
        NothingRead(Stream(img, chain), start);
        offset := ToU32(offset - (currPage.usedBytes - 76));
      }
      if bytesFromContent == 0 {
        return 0, contents;
      }
      var rest := ReadNextPages(page.disk, currPage, length, offset, chain, size, start + |contents|);
      SliceAppend(Stream(img, chain), start, |contents|, length);
      return 0, contents + rest;
    }

    /** The loop of _readBlock over the pages after the first. */
    method ReadNextPages(disk: U32, firstPage: DiskPage, length0: U32, offset0: U32,
        ghost chain: Chain, ghost size: nat, ghost start: nat)
      returns (contents: seq<Byte>)
      requires cache.Valid() && ChainOk(Img(), chain, size)
      requires disk == ATA0 && firstPage == Img().Page(chain[0])
      requires length0 != 0 ==> start == 228 + offset0
      requires start + length0 <= 48 + size
      modifies cache.cachedData, cache.ata.primary, cache.ata.secondary
      ensures cache.Valid() && Img() == old(Img())
      ensures contents == Stream(Img(), chain)[start..start + length0]
    {
      hide ImageOf, cache.Valid, cache.View, Stream, PageOf, ToU32, ChainOk, UsedOk, Held, Placed;
      ghost var img := Img();
      ChainFacts(img, chain, size);
      contents := [];
      var currPage, length: U32, offset: U32 := firstPage, length0, offset0;
      ghost var i: nat := 0;
      while length != 0
        invariant 0 <= i < |chain|
        invariant cache.Valid() && Img() == img
        invariant currPage == img.Page(chain[i])
        invariant |contents| + length == length0
        invariant length != 0 ==> start + |contents| == 228 * (i + 1) + offset
        invariant contents == Stream(img, chain)[start..start + |contents|]
        decreases |chain| - i
      {
        PageFacts(img, chain, size, i);
        var currPageSector, currPageOffset := currPage.nextSector, currPage.nextOffset;
        i := i + 1;
        PageFacts(img, chain, size, i);
        currPage := ReadPage(currPage.disk, currPage.nextSector, currPage.nextOffset, chain[i]);
        FullOrLast(currPage.usedBytes, i, size, offset);
        if offset < ToU32(currPage.usedBytes - 28) {
          var bytesFromContent := Min(ToU32(currPage.usedBytes - 28 - offset), length);
          var part := ReadBlock(disk, bytesFromContent, currPageSector, currPageOffset + 28 + offset,
            chain[i], 28 + offset);
          StreamGrow(img, chain, start, contents, i, offset, part);
          contents := contents + part;
          length := length - bytesFromContent;
          offset := 0;
        } else {
          offset := ToU32(offset - (currPage.usedBytes - 28));
        }
      }
    }

    /** Copies data into a page and rewrites the page's header if its used count grew. */
    method WriteInPage(disk: U32, page: DiskPage, sector: U32, offset: U32, o: nat, data: seq<Byte>,
        ghost chain: Chain, ghost i: nat)
      returns (page': DiskPage)
      requires cache.Valid() && Placed(chain) && i < |chain| && o + |data| <= 228
      requires disk == ATA0 && sector == FILE_CONTENTS_INITIAL_SECTOR && offset == 256 * chain[i]
      requires page == Img().Page(chain[i])
      modifies cache.cachedData, cache.ata.primary, cache.ata.secondary
      ensures cache.Valid() && Img() == WithPageData(old(Img()), chain, i, o, data)
      ensures page' == Img().Page(chain[i])
    {
      hide ImageOf, cache.Valid, cache.View, PageOf;
      PageDataPages(Img(), chain, i, o, data);
      page' := page;
      WriteBlock(disk, data, sector, offset + 28 + o, chain[i], 28 + o);
      if 28 + o + |data| > page.usedBytes {
        page' := page.(usedBytes := 28 + o + |data|);
        WritePage(disk, page', sector, offset, chain[i]);
      }
    }

    /**
      _writeBlock: the data is laid over the pages from the place on where the skipping by used
      counts ends, as far as the chain goes. The status is -1 if that is not far enough.
     */
    method WriteChain(page: DiskPage, data: seq<Byte>, offset0: U32, ghost chain: Chain) returns (status: int)
      requires cache.Valid() && Linked(Img(), chain)
      requires page.disk == ATA0 && page.nextSector == FILE_CONTENTS_INITIAL_SECTOR && page.nextOffset == 256 * chain[0]
      modifies cache.cachedData, cache.ata.primary, cache.ata.secondary
      ensures cache.Valid()
      ensures var r := BlockWritten(old(Img()), chain, offset0, data); Img() == r.0 && status == r.1
    {
      hide *;
      ghost var img := Img();
      LinkedStart(img, chain);
      var currPage := ReadPage(page.disk, page.nextSector, page.nextOffset, chain[0]);
      LinkFacts(currPage, chain, 0);
      if currPage.magic != MAGIC_NUMBER {
        assert false;
      }
      var offset: U32 := offset0;
      var first := 0;
      if offset < currPage.totalLength - 76 {
        first := Min(currPage.totalLength - offset - 76, |data|);
        MinFacts(180 - offset, |data|);
        PageDataLinks(img, chain, 0, 48 + offset, data[..first]);
        FirstPageWrites(img, chain, offset, data, first);
        currPage := WriteInPage(page.disk, currPage, page.nextSector, page.nextOffset, 48 + offset, data[..first], chain, 0);
        SeekHere(UsedCounts(Img(), chain), 1, 0);
        offset := 0;
      } else {
        LaterPageWrites(img, chain, offset, data, Seek(UsedCounts(img, chain), 0, offset));
        SeekSkips(UsedCounts(img, chain), 0, offset, 180);
        offset := ToU32(offset - (currPage.usedBytes - 76));
        assert data[0..] == data;
      }
      status := WriteNextPages(page.disk, currPage, data[first..], offset, chain);
    }

    /** The loop of _writeBlock over the pages after the first. */
    method WriteNextPages(disk: U32, firstPage: DiskPage, data: seq<Byte>, offset0: U32, ghost chain: Chain)
      returns (status: int)
      requires cache.Valid() && Linked(Img(), chain)
      requires disk == ATA0 && firstPage == Img().Page(chain[0])
      modifies cache.cachedData, cache.ata.primary, cache.ata.secondary
      ensures cache.Valid()
      ensures var place := Seek(UsedCounts(old(Img()), chain), 1, offset0);
              && Img() == Laid(old(Img()), chain, place.0, place.1, data)
              && status == LaidStatus(|chain|, place.0, place.1, |data|)
    {
      hide *;
      ghost var img := Img();
      LinkedStart(img, chain);
      ghost var used := UsedCounts(img, chain);
      ghost var place := Seek(used, 1, offset0);
      SeekRoom(used, 1, offset0);
      ghost var goal := Laid(img, chain, place.0, place.1, data);
      if data == [] {
        LaidNothing(img, chain, place.0, place.1, data);
        StatusFits(|chain|, place.0, place.1, |data|);
      }
      var currPage, offset: U32, done := firstPage, offset0, 0;
      ghost var i: nat := 0;
      while done != |data|
        invariant 0 <= i < |chain| && 0 <= done <= |data|
        invariant cache.Valid() && Linked(Img(), chain)
        invariant currPage == Img().Page(chain[i])
        invariant done == 0 ==> Img() == img && Seek(used, i + 1, offset) == place
        invariant 0 < done ==> offset == 0 && goal == Laid(Img(), chain, i + 1, 0, data[done..])
        invariant 0 < done < |data| ==> 228 * (i + 1) == 228 * place.0 + place.1 + done
        invariant 0 < done ==> 228 * place.0 + place.1 + done <= 228 * |chain|
        decreases |chain| - i
      {
        ghost var before := Img();
        LinkedFacts(before, chain, i);
        LinkFacts(currPage, chain, i);
        var pageSector, pageOffset := currPage.nextSector, currPage.nextOffset;
        if currPage.hasNextPage == 0 {
          if done == 0 {
            SeekHere(used, |chain|, offset);
            LaidNothing(img, chain, place.0, place.1, data);
          } else {
            LaidNothing(before, chain, |chain|, 0, data[done..]);
          }
          StatusFails(|chain|, place.0, place.1, |data|);
          return -1;
        }
        i := i + 1;
        LinkedFacts(before, chain, i);
        currPage := ReadPage(currPage.disk, currPage.nextSector, currPage.nextOffset, chain[i]);
        LinkFacts(currPage, chain, i);
        if currPage.magic != MAGIC_NUMBER {
          assert false;
        }
        if offset < currPage.totalLength - 28 {
          var bytesFromContent := Min(currPage.totalLength - 28 - offset, |data| - done);
          MinFacts(228 - offset, |data| - done);
          ghost var rest := data[done..];
          SeekHere(used, i, offset);
          assert done == 0 ==> rest == data;
          LaidStep(before, chain, i, offset, rest, bytesFromContent);
          assert rest[..bytesFromContent] == data[done..done + bytesFromContent];
          assert rest[bytesFromContent..] == data[done + bytesFromContent..];
          PageDataLinks(before, chain, i, offset, rest[..bytesFromContent]);
          currPage := WriteInPage(disk, currPage, pageSector, pageOffset, offset, data[done..done + bytesFromContent], chain, i);
          done := done + bytesFromContent;
          offset := 0;
        } else {
          SeekSkips(used, i, offset, 228);
          offset := ToU32(offset - (currPage.usedBytes - 28));
        }
      }
      if |data| != 0 {
        assert data[done..] == [];
        LaidNothing(Img(), chain, i + 1, 0, data[done..]);
        StatusFits(|chain|, place.0, place.1, |data|);
      }
      status := 0;
    }

    // ---- Blocks ------------------------------------------------------------

    /** The writes of the reservation loop when it takes block k: its own header if it is the last, then the link to it. */
    method LinkBlock(page: DiskPage, sector: U32, offset: U32, previousSector: U32, previousOffset: U32, last: bool,
        first: bool, ghost taken: Chain, ghost k: nat)
      returns (page': DiskPage)
      requires cache.Valid() && Placed(taken) && k < MAX_BLOCKS && first == (|taken| == 0)
      requires sector == FILE_CONTENTS_INITIAL_SECTOR && offset == 256 * k
      requires !first ==> previousSector == FILE_CONTENTS_INITIAL_SECTOR && previousOffset == 256 * taken[|taken| - 1]
      modifies cache.cachedData, cache.ata.primary, cache.ata.secondary
      ensures cache.Valid()
      ensures Img() == WithTaken(old(Img()), taken, k, last, FreshPage(page.nextSector, page.nextOffset, 0))
    {
      hide ImageOf, cache.Valid, cache.View, PageOf, PageBytes;
      page' := DiskPage(MAGIC_NUMBER, ATA0, page.nextSector, page.nextOffset, 256, 0, page.hasNextPage);
      if last {
        page' := page'.(hasNextPage := 0);
        WritePage(page'.disk, page', sector, offset, k);
      }
      if !first {
        page' := page'.(hasNextPage := 1, nextSector := sector, nextOffset := offset);
        WritePage(page'.disk, page', previousSector, previousOffset, taken[|taken| - 1]);
      }
    }

    /**
      _reserveMemoryBitMap, when enough blocks are free: takes the lowest clear bits and links
      their pages. The next fields of the last page's header are left over from the stack.
     */
    method Reserve(blocks: nat) returns (status: int, page: DiskPage, ghost taken: Chain)
      requires cache.Valid() && 1 <= blocks <= FreeFrom(Img().bitmap, 0)
      modifies cache.cachedData, cache.ata.primary, cache.ata.secondary
      ensures cache.Valid()
      ensures status == 0
      ensures |taken| == blocks && LowestClear(old(Img()).bitmap, taken)
      ensures BitsSet(old(Img()).bitmap, Img().bitmap, taken)
      ensures OnlyBlocks(old(Img()), Img().(bitmap := old(Img()).bitmap), taken)
      ensures PagesLinked(Img(), taken, blocks)
      ensures page == ReservedPage(taken[0], blocks)
    {
      hide ImageOf, cache.Valid, cache.View, PageOf, PageBytes, Reserving, WithTaken, OnlyBlocks, PagesLinked,
        LowestClear, BitsSet, Placed, FreeFrom;
      var block: seq<Byte> := ReadBitmap();
      ghost var img := Img();
      taken := [];
      ghost var k: nat := 0;
      ReservingStarts(img, blocks);
      var currPage: DiskPage := *;
      var previousSector: U32, previousOffset: U32 := *, *;
      page := *;
      var reservedBlocks := 0;
      var i := 0;
      while i < 512 && reservedBlocks < blocks
        invariant 0 <= i <= 512 && (reservedBlocks < blocks ==> k == 8 * i)
        invariant cache.Valid() && Reserving(img, Img(), block, taken, k, blocks) && reservedBlocks == |taken|
        invariant PageSetUp(page, previousSector, previousOffset, taken, blocks)
        decreases 512 - i
      {
        var j := 0;
        while j < 8 && reservedBlocks < blocks
          invariant 0 <= j <= 8 && (reservedBlocks < blocks ==> k == 8 * i + j)
          invariant cache.Valid() && Reserving(img, Img(), block, taken, k, blocks) && reservedBlocks == |taken|
          invariant PageSetUp(page, previousSector, previousOffset, taken, blocks)
          decreases 8 - j
        {
          ReservingFacts(img, Img(), block, taken, k, blocks);
          var currSector: U32, currOffset: U32 := FILE_CONTENTS_INITIAL_SECTOR, ((i * 8) + j) * 256;
          if !BitOf(block[i], j) {
            ReservingTakes(img, Img(), block, taken, k, blocks, FreshPage(currPage.nextSector, currPage.nextOffset, 0));
            block := block[i := PutByteBit(block[i], j, true)];
            reservedBlocks := reservedBlocks + 1;
            currPage := LinkBlock(currPage, currSector, currOffset, previousSector, previousOffset,
              reservedBlocks == blocks, reservedBlocks == 1, taken, k);
            if reservedBlocks == 1 {
              page := DiskPage(MAGIC_NUMBER, ATA0, currSector, currOffset, blocks * 256, 0, if blocks > 1 then 1 else 0);
              assert page == ReservedPage(k, blocks);
            }
            previousSector, previousOffset := currSector, currOffset;
            taken := taken + [k];
          } else {
            ReservingSkips(img, Img(), block, taken, k, blocks);
          }
          k := k + 1;
          j := j + 1;
        }
        i := i + 1;
      }
      ReservingFacts(img, Img(), block, taken, k, blocks);
      ReservingEnds(img, Img(), block, taken, k, blocks);
      BitmapWriteKeepsPages(img, Img(), block, taken, blocks);
      WriteBitmap(block);
      status := 0;
    }

    /** _freeMemory: walks the chain and clears its bits. */
    method Free(page: DiskPage, ghost chain: Chain)
      requires cache.Valid() && |chain| >= 1 && Placed(chain)
      requires forall i :: 0 <= i < |chain| ==> LinkOk(Img().Page(chain[i]), chain, i)
      requires page.disk == ATA0 && page.nextSector == FILE_CONTENTS_INITIAL_SECTOR && page.nextOffset == 256 * chain[0]
      modifies cache.cachedData, cache.ata.primary, cache.ata.secondary
      ensures cache.Valid()
      ensures Img() == old(Img()).(bitmap := Img().bitmap)
      ensures BitsCleared(old(Img()).bitmap, Img().bitmap, chain)
    {
      hide ImageOf, cache.Valid, cache.View, PageOf, BitOf, BitsCleared, MapBit, PutMapBit, PutByteBit, Placed;
      PlacedFacts(chain);
      var block: seq<Byte> := ReadBitmap();
      ghost var img := Img();
      NoBitsCleared(img.bitmap);
      var curr := page;
      ghost var i := 0;
      var more := true;
      while more
        invariant 0 <= i <= |chain| && (more <==> i < |chain|)
        invariant cache.Valid() && Img() == img && |block| == 512
        invariant more ==> curr.disk == ATA0 && curr.nextSector == FILE_CONTENTS_INITIAL_SECTOR
        invariant more ==> curr.nextOffset == 256 * chain[i]
        invariant BitsCleared(img.bitmap, block, chain[..i])
        decreases |chain| - i
      {
        var currPageOffset := curr.nextOffset;
        curr := ReadPage(curr.disk, curr.nextSector, curr.nextOffset, chain[i]);
        currPageOffset := currPageOffset / 256;
        var charPos, bit := currPageOffset / 8, currPageOffset % 8;
        PutMapBitIs(block, chain[i], false);
        BitsClearedStep(img.bitmap, block, chain[..i], chain[i]);
        block := block[charPos := PutByteBit(block[charPos], bit, false)];
        assert chain[..i + 1] == chain[..i] + [chain[i]];
        i := i + 1;
        more := curr.hasNextPage != 0;
      }
      assert chain[..i] == chain;
      WriteBitmap(block);
    }

    /** _extendMemory: reserves the estimate for the total size and links it behind the last page. */
    method Extend(page: DiskPage, size: nat, ghost chain: Chain, ghost length: nat)
      returns (extra: int, page': DiskPage, ghost taken: Chain)
      requires cache.Valid() && ChainOk(Img(), chain, length) && Distinct(chain)
      requires forall i :: 0 <= i < |chain| ==> Img().Taken(chain[i])
      requires page.disk == ATA0 && page.nextSector == FILE_CONTENTS_INITIAL_SECTOR && page.nextOffset == 256 * chain[0]
      requires Estimate(size) <= FreeFrom(Img().bitmap, 0)
      modifies cache.cachedData, cache.ata.primary, cache.ata.secondary
      ensures cache.Valid()
      ensures extra == |taken| == Estimate(size)
      ensures LowestClear(old(Img()).bitmap, taken)
      ensures Extended(old(Img()), Img(), chain, taken, length)
      ensures page' == page.(totalLength := page'.totalLength) && page'.totalLength == 256 * extra
    {
      hide ImageOf, cache.Valid, cache.View, PageOf, PageBytes, BitOf, ChainOk, UsedOk, Stream, FreeFrom, Extended,
        LowestClear, BitsSet, OnlyBlocks, PagesLinked, Placed, Distinct, MapBit;
      ghost var img := Img();
      ChainFacts(img, chain, length);
      PageFacts(img, chain, length, 0);
      var lastPageSector, lastPageOffset := page.nextSector, page.nextOffset;
      var lastPage := ReadPage(page.disk, page.nextSector, page.nextOffset, chain[0]);
      ghost var i := 0;
      while lastPage.hasNextPage != 0
        invariant 0 <= i < |chain|
        invariant cache.Valid() && Img() == img
        invariant lastPage == img.Page(chain[i]) && LinkOk(lastPage, chain, i) && chain[i] < MAX_BLOCKS
        invariant lastPageSector == FILE_CONTENTS_INITIAL_SECTOR && lastPageOffset == 256 * chain[i]
        decreases |chain| - i
      {
        i := i + 1;
        PageFacts(img, chain, length, i);
        lastPageSector, lastPageOffset := lastPage.nextSector, lastPage.nextOffset;
        lastPage := ReadPage(lastPage.disk, lastPage.nextSector, lastPage.nextOffset, chain[i]);
      }
      var neededBlocks := size / 257 + 1;
      var padded := size + neededBlocks * 48;
      neededBlocks := padded / 257 + 1;
      var reserved, cont;
      reserved, cont, taken := Reserve(neededBlocks);
      if reserved == -1 {
        assert false;
      }
      ReservedExtends(img, Img(), chain, taken, length);
      page' := page.(totalLength := cont.totalLength);
      LowestInRange(img.bitmap, taken);
      FreeBound(img.bitmap, 0);
      ReservedIs(taken[0], neededBlocks);
      lastPage := lastPage.(hasNextPage := 1, nextSector := cont.nextSector, nextOffset := cont.nextOffset);
      WritePage(page.disk, lastPage, lastPageSector, lastPageOffset, chain[|chain| - 1]);
      extra := neededBlocks;
    }

    /** _availableMem. */
    function AvailableMem(inode: INodeDisk): int {
      if inode.blocks <= 0 then 0 else 180 + (inode.blocks - 1) * 228
    }

    lemma MemOfChain(inode: INodeDisk, chain: Chain)
      requires INodeOk(inode, chain)
      ensures AvailableMem(inode) == 228 * |chain| - 48
    {
    }

    /** The first half of diskManager_writeContents: extends the chain if the write does not fit its blocks. */
    method MakeRoom(inode: INodeDisk, total: U32, ghost chain: Chain) returns (inode': INodeDisk, ghost w: Rewrite)
      requires cache.Valid() && INodeOk(inode, chain) && Placed(chain) && Distinct(chain) && ChainOk(Img(), chain, inode.usedBytes)
      requires 48 + total > 228 * |chain| ==>
        Estimate(total) <= FreeFrom(Img().bitmap, 0) && forall i :: 0 <= i < |chain| ==> Img().Taken(chain[i])
      modifies cache.cachedData, cache.ata.primary, cache.ata.secondary
      ensures cache.Valid()
      ensures RoomMade(old(Img()), inode.usedBytes, chain, total, w)
      ensures Img() == w.extended && inode' == w.entry
      ensures w.taken != [] ==> LowestClear(old(Img()).bitmap, w.taken)
    {
      hide *;
      ghost var img := Img();
      NotExtended(img, chain, inode.usedBytes);
      ChainFacts(img, chain, inode.usedBytes);
      ghost var taken: Chain := [];
      assert chain + taken == chain;
      inode' := inode;
      MemOfChain(inode, chain);
      if total > AvailableMem(inode) {
        EstimateFits(img, total);
        EntryStart(inode, chain);
        var extra, data;
        extra, data, taken := Extend(inode.data, total, chain, inode.usedBytes);
        if extra == -1 {
          assert false;
        }
        ChainBound(chain);
        inode' := INodeDisk(data, inode.blocks + extra, inode.usedBytes);
        EntryExtended(inode, inode', chain, taken);
      }
      ghost var before := inode';
      if total > inode'.usedBytes {
        inode' := inode'.(usedBytes := total);
      }
      w := Rewrite(taken, Img(), inode');
      RoomIsMade(img, inode, chain, total, w, before);
    }

    /** The second half of diskManager_writeContents: the data, and the entry unless that failed. */
    method WriteRoomed(n: nat, inode: INodeDisk, data: seq<Byte>, offset: U32, ghost all: Chain) returns (status: int)
      requires cache.Valid() && n < MAX_INODES && Linked(Img(), all) && StartsAt(inode, all)
      modifies cache.cachedData, cache.ata.primary, cache.ata.secondary
      ensures cache.Valid()
      ensures var r := BlockWritten(old(Img()), all, offset, data);
              status == r.1 && Img() == if status != -1 then WithINode(r.0, n, inode) else r.0
    {
      hide *;
      StartFacts(inode, all);
      status := WriteChain(inode.data, data, offset, all);
      if status != -1 {
        SetINode(n, inode);
      }
    }

    /**
      diskManager_writeContents through the entry of any inode with the magic number, if what is
      written fits the blocks it counts: along whatever pages are linked behind its first one.
     */
    method WriteFitting(n: nat, data: seq<Byte>, offset: U32, ghost chain: Chain) returns (status: int)
      requires cache.Valid() && n < MAX_INODES && Img().INode(n).data.magic == MAGIC_NUMBER
      requires Linked(Img(), chain) && StartsAt(Img().INode(n), chain)
      requires ToU32(offset + |data|) <= AvailableMem(Img().INode(n))
      modifies cache.cachedData, cache.ata.primary, cache.ata.secondary
      ensures cache.Valid()
      ensures var r := BlockWritten(old(Img()), chain, offset, data);
              && (status == 0 || status == -1) && status == r.1
              && Img() == if status == 0 then WithINode(r.0, n, Covering(old(Img()).INode(n), ToU32(offset + |data|))) else r.0
    {
      hide *;
      var inode := GetINode(n);
      if inode.data.magic != MAGIC_NUMBER {
        assert false;
      }
      var total := ToU32(offset + |data|);
      CoveringIs(inode, total);
      if total > inode.usedBytes {
        inode := inode.(usedBytes := total);
      }
      CoveringStarts(Img().INode(n), total, chain);
      StatusIs(Img(), chain, offset, data);
      status := WriteRoomed(n, inode, data, offset, chain);
    }

    /** diskManager_writeContents, of an inode whose entry is not valid or fits the chain. */
    method WriteEntry(n: nat, data: seq<Byte>, offset: U32, ghost chain: Chain) returns (status: int, ghost w: Rewrite)
      requires cache.Valid() && n < MAX_INODES
      requires Img().INode(n).data.magic == MAGIC_NUMBER ==> EntryOk(Img(), n, chain)
      requires Img().INode(n).data.magic == MAGIC_NUMBER && 48 + ToU32(offset + |data|) > 228 * |chain| ==>
        && Estimate(ToU32(offset + |data|)) <= FreeFrom(Img().bitmap, 0)
        && forall i :: 0 <= i < |chain| ==> chain[i] < MAX_BLOCKS && Img().Taken(chain[i])
      modifies cache.cachedData, cache.ata.primary, cache.ata.secondary
      ensures cache.Valid()
      ensures old(Img()).INode(n).data.magic != MAGIC_NUMBER ==> status == -1 && Img() == old(Img())
      ensures old(Img()).INode(n).data.magic == MAGIC_NUMBER ==>
        Placed(chain) && Rewritten(old(Img()), Img(), n, chain, offset, data, status, w)
      ensures old(Img()).INode(n).data.magic == MAGIC_NUMBER && w.taken != [] ==> LowestClear(old(Img()).bitmap, w.taken)
    {
      hide *;
      w := Rewrite([], Img(), INodeDisk(DiskPage(0, 0, 0, 0, 0, 0, 0), 0, 0));
      ghost var img := Img();
      var inode := GetINode(n);
      if inode.data.magic != MAGIC_NUMBER {
        return -1, w;
      }
      EntryFacts(img, n, chain);
      var total := ToU32(offset + |data|);
      inode, w := MakeRoom(inode, total, chain);
      RoomFacts(img, img.INode(n).usedBytes, chain, total, w);
      EntryStart(inode, chain + w.taken);
      ghost var all := chain + w.taken;
      LinkedStart(w.extended, all);
      StatusIs(w.extended, all, offset, data);
      status := WriteRoomed(n, inode, data, offset, all);
      RewrittenIs(img, Img(), n, chain, offset, data, status, w);
    }

    /**
      diskManager_writeContents on an inode that is live, or whose entry is not valid, within the
      file or right behind full pages. The blocks the estimate asks for must be free if the write
      does not fit the file's own.
     */
    method WriteContents(n: nat, data: seq<Byte>, offset: U32) returns (status: int)
      requires Valid() && n < MAX_INODES
      requires n !in files ==> Img().INode(n).data.magic != MAGIC_NUMBER
      requires n in files ==> WriteOk(Length(n), offset, |data|)
      requires n in files && 48 + offset + |data| > 228 * |files[n]| ==> Estimate(offset + |data|) <= FreeBlocks()
      modifies this, cache.cachedData, cache.ata.primary, cache.ata.secondary
      ensures Valid()
      ensures n !in old(files) ==> status == -1 && files == old(files) && Img() == old(Img())
      ensures n in old(files) ==>
        && status == 0
        && n in files && files == old(files)[n := files[n]] && old(files)[n] <= files[n]
        && Written(old(Contents(n)), Contents(n), offset, data)
        && Header(n) == old(Header(n))
      ensures n in old(files) && 48 + offset + |data| <= 228 * |old(files)[n]| ==>
        files == old(files) && Img().bitmap == old(Img()).bitmap
      ensures n in old(files) && 48 + offset + |data| > 228 * |old(files)[n]| ==>
        && |files[n]| == |old(files)[n]| + Estimate(offset + |data|)
        && LowestClear(old(Img()).bitmap, files[n][|old(files)[n]|..])
      ensures Img().head == old(Img()).head
      ensures forall j :: 0 <= j < MAX_INODES && j != n ==> Img().INode(j) == old(Img()).INode(j)
      ensures forall j :: j in old(files) && j != n ==>
        Length(j) == old(Length(j)) && FileBytes(j) == old(FileBytes(j))
    {
      hide *;
      EntriesOk();
      FilesAre();
      ghost var img, was, w := Img(), files, Rewrite([], Img(), INodeDisk(DiskPage(0, 0, 0, 0, 0, 0, 0), 0, 0));
      if n in files {
        WriteInRange(n, offset, |data|);
      }
      status, w := WriteEntry(n, data, offset, if n in files then files[n] else []);
      if n in files {
        ghost var chain := files[n];
        RewrittenFacts(img, Img(), n, chain, offset, data, status, w);
        RoomFacts(img, img.INode(n).usedBytes, chain, offset + |data|, w);
        RewrittenInPlace(img, Img(), files, n, offset, data, status, w);
        BlocksAre(|chain|, offset + |data|);
        assert w.taken == [] ==> chain + w.taken == chain;
        files := files[n := chain + w.taken];
        WroteInPlace(img, was, n, offset, data, w);
      } else {
        ValidIf();
        FilesAre();
      }
    }

    /** What the new image says about the files after a write to file n. */
    lemma WroteInPlace(img: Image, was: Files, n: nat, offset: U32, data: seq<Byte>, w: Rewrite)
      requires cache.Valid() && img.Valid() && n < MAX_INODES && n in was && Placed(was[n]) && Placed(was[n] + w.taken)
      requires FsOk(img, was) && InPlace(img, Img(), was, n, offset, data, w) && files == was[n := was[n] + w.taken]
      requires 48 + img.INode(n).usedBytes <= 228 * |was[n]|
      ensures Valid() && Img().head == img.head && (w.taken == [] ==> Img().bitmap == img.bitmap)
      ensures forall j :: 0 <= j < MAX_INODES && j != n ==> Img().INode(j) == img.INode(j)
      ensures Header(n) == HeaderOf(Stream(img, was[n])[..48])
      ensures Written(Behind(Stream(img, was[n]), 48, img.INode(n).usedBytes), Contents(n), offset, data)
      ensures forall j :: j in was && j != n ==>
        j < MAX_INODES && Placed(was[j]) && FileBytes(j) == Stream(img, was[j]) && Length(j) == img.INode(j).usedBytes
    {
      hide *;
      InPlaceFacts(img, Img(), was, n, offset, data, w);
      ValidIf();
      FilesAre();
      forall j | j in was && j != n
        ensures j < MAX_INODES && Placed(was[j]) && FileBytes(j) == Stream(img, was[j]) && Length(j) == img.INode(j).usedBytes
      {
        assert files[j] == was[j];
      }
    }

    /**
      diskManager_writeContents on a live inode, neither within the file nor right behind full pages.
      The bytes go to the page after the file's last one, if it was written to before and they start
      less than a page behind its end; otherwise they go nowhere. The status is 0 if all of them found
      room. Whatever it is, no file has the inode any more, unless nothing was written or reserved.
     */
    method WriteOverGap(n: nat, data: seq<Byte>, offset: U32) returns (status: int, ghost all: Chain)
      requires Valid() && n in files && n < MAX_INODES && !WriteOk(Length(n), offset, |data|)
      requires 48 + offset + |data| > 228 * |files[n]| ==> Estimate(offset + |data|) <= FreeBlocks()
      modifies cache.cachedData, cache.ata.primary, cache.ata.secondary
      ensures cache.Valid()
      ensures GapLeft(old(Img()), Img(), n, old(files[n]), all, offset, data, status)
    {
      hide *;
      EntriesOk();
      FilesAre();
      ghost var img, chain := Img(), files[n];
      WriteInRange(n, offset, |data|);
      ghost var w;
      status, w := WriteEntry(n, data, offset, chain);
      all := chain + w.taken;
      RewrittenFacts(img, Img(), n, chain, offset, data, status, w);
      RoomFacts(img, img.INode(n).usedBytes, chain, offset + |data|, w);
      GapIsLeft(img, Img(), n, chain, offset, data, status, w);
    }

    lemma ValidIf()
      requires cache.Valid() && FsOk(Img(), files)
      ensures Valid()
    {
      hide FsOk, Img;
    }

    /** The files and their inode entries. */
    lemma EntriesOk()
      requires Valid()
      ensures cache.Valid() && FsOk(Img(), files) && FreeBlocks() == FreeFrom(Img().bitmap, 0)
      ensures forall j :: j in files ==>
        && j < MAX_INODES && Placed(files[j]) && EntryOk(Img(), j, files[j])
        && Img().INode(j).data.magic == MAGIC_NUMBER
        && forall i :: 0 <= i < |files[j]| ==> files[j][i] < MAX_BLOCKS && Img().Taken(files[j][i])
    {
      hide FsOk, Img, EntryOk, FreeFrom, INodeOf, MapBit;
      forall j | j in files
        ensures j < MAX_INODES && Placed(files[j]) && EntryOk(Img(), j, files[j])
        ensures Img().INode(j).data.magic == MAGIC_NUMBER
        ensures forall i :: 0 <= i < |files[j]| ==> files[j][i] < MAX_BLOCKS && Img().Taken(files[j][i])
      {
        LiveEntry(Img(), files, j);
        EntryFacts(Img(), j, files[j]);
      }
    }

    /** What the functions of a live inode say about the image. */
    lemma FilesAre()
      requires Valid()
      ensures forall j :: j in files ==>
        && j < MAX_INODES && Placed(files[j])
        && FileBytes(j) == Stream(Img(), files[j]) && Length(j) == Img().INode(j).usedBytes
        && Contents(j) == Behind(FileBytes(j), 48, Length(j))
        && Header(j) == HeaderOf(FileBytes(j)[..48])
    {
      hide FsOk, Img, HeaderOf, Behind, Stream, INodeOf, FileOk;
      forall j | j in files ensures j < MAX_INODES && Placed(files[j]) {
        LiveEntry(Img(), files, j);
      }
    }

    /** A write that fits the drive ends below 2^32, and so is counted rightly. */
    lemma WriteInRange(n: nat, offset: U32, count: nat)
      requires Valid() && n in files
      requires 48 + offset + count > 228 * |files[n]| ==> Estimate(offset + count) <= FreeBlocks()
      ensures offset + count < 0x1_0000_0000 && ToU32(offset + count) == offset + count
    {
      hide *;
      EntriesOk();
      EntryFacts(Img(), n, files[n]);
      ChainBound(files[n]);
      if 48 + offset + count > 228 * |files[n]| {
        EstimateFits(Img(), offset + count);
      }
    }

    /** With the same image and the same files, every file is as before. */
    twostate lemma SameImage()
      requires old(Valid()) && Valid() && Img() == old(Img()) && files == old(files)
      ensures forall j :: j in files ==>
        && FileBytes(j) == old(FileBytes(j)) && Length(j) == old(Length(j))
        && Contents(j) == old(Contents(j)) && Header(j) == old(Header(j))
      ensures FreeBlocks() == old(FreeBlocks())
    {
      hide FsOk, cache.Valid, cache.View, ImageOf, Stream, HeaderOf, FreeFrom, Img, INodeOf;
    }

    twostate lemma SameBitmap()
      requires old(Valid()) && Valid() && Img().bitmap == old(Img()).bitmap
      ensures FreeBlocks() == old(FreeBlocks())
    {
      hide FsOk, cache.Valid, cache.View, ImageOf, Stream, HeaderOf, FreeFrom, Img, INodeOf;
    }

    twostate lemma FreeAfterWrite(n: nat)
      requires old(Valid()) && Valid() && n in old(files) && n in files
      requires files == old(files)[n := files[n]] && old(files)[n] <= files[n]
      ensures FreeBlocks() == old(FreeBlocks()) - (|files[n]| - |old(files)[n]|)
    {
      hide Img, FsOk, FreeFrom;
      FreeAfterGrowth(old(Img()), old(files), Img(), files, n);
    }

    twostate lemma FreeAfterDelete(n: nat)
      requires old(Valid()) && Valid() && n in old(files)
      requires BitsCleared(old(Img()).bitmap, Img().bitmap, old(files)[n])
      ensures FreeBlocks() == old(FreeBlocks()) + |old(files)[n]|
    {
      hide Img, FsOk, FreeFrom, BitsCleared;
      FreeAfterRemoval(old(Img()), old(files), Img().bitmap, n);
    }

    /** The bytes and entries of every live inode but n are as before. */
    twostate predicate OthersKept(n: nat)
      requires old(Valid()) && Valid()
      reads this, cache.cachedData, cache.ata.primary, cache.ata.secondary
    {
      forall j :: j in old(files) && j != n ==>
        j in files && files[j] == old(files)[j] && FileBytes(j) == old(FileBytes(j)) && Length(j) == old(Length(j))
    }

    twostate lemma SameNumbers()
      requires old(Valid()) && Valid() && Img().head == old(Img()).head
      ensures forall k :: 0 <= k < 4032 ==> Img().INodeTaken(k) == old(Img()).INodeTaken(k)
    {
      SameHead(old(Img()), Img());
      hide FsOk, cache.Valid, cache.View, ImageOf, MapBit;
    }

    twostate lemma OthersFacts(n: nat)
      requires old(Valid()) && Valid() && OthersKept(n)
      ensures forall j :: j in old(files) && j != n ==>
        j in files && files[j] == old(files)[j] && FileBytes(j) == old(FileBytes(j)) && Length(j) == old(Length(j))
    {
      hide Valid, FileBytes, Length;
    }

    twostate lemma OthersAre(n: nat)
      requires old(Valid()) && Valid() && n in files && files == old(files)[n := files[n]]
      requires forall j :: j in old(files) && j != n ==> Length(j) == old(Length(j)) && FileBytes(j) == old(FileBytes(j))
      ensures OthersKept(n)
    {
      hide Valid, FileBytes, Length;
    }

    twostate lemma KeptBytes(n: nat)
      requires old(Valid()) && Valid()
      requires forall j :: j in files && j in old(files) && j != n ==> FileBytes(j) == old(FileBytes(j)) && Length(j) == old(Length(j))
      ensures forall j :: j in files && j in old(files) && j != n ==> Contents(j) == old(Contents(j))
    {
      hide ImageOf, cache.Valid, cache.View, Stream, HeaderOf, Img, FsOk, INodeOf, FileBytes, Length;
    }

    /** Every live file has the magic number in its header: so it is after formatting, and after every operation. */
    ghost predicate HeadersMarked()
      requires Valid()
      reads this, cache.cachedData, cache.ata.primary, cache.ata.secondary
    {
      forall j :: j in files ==> Header(j).magic == MAGIC_NUMBER
    }

    twostate lemma HeadersKept(n: nat)
      requires old(Valid()) && Valid() && old(HeadersMarked())
      requires forall j :: j in files && j != n ==> j in old(files) && Header(j) == old(Header(j))
      requires n in files ==> Header(n).magic == MAGIC_NUMBER
      ensures HeadersMarked()
    {
      hide Valid, Header;
    }

    /** Live files with the headers of before are marked as before. */
    twostate lemma AllMarked()
      requires old(Valid()) && Valid() && old(HeadersMarked())
      requires forall j :: j in files ==> j in old(files) && Header(j) == old(Header(j))
      ensures HeadersMarked()
    {
      hide Valid, Header;
    }

    twostate lemma WasMarked(n: nat)
      requires old(Valid()) && old(HeadersMarked()) && n in old(files)
      ensures old(Header(n)).magic == MAGIC_NUMBER
    {
      hide Valid, Header;
    }

    lemma HeaderMarked(n: nat)
      requires Valid() && HeadersMarked() && n in files
      ensures Header(n).magic == MAGIC_NUMBER
    {
      hide Valid, Header;
    }

    twostate lemma KeptOver()
      requires old(Valid()) && Valid() && forall j :: j in files ==> j in old(files)
      requires forall j :: j in files ==> FileBytes(j) == old(FileBytes(j)) && Length(j) == old(Length(j))
      ensures forall j :: j in files ==> Contents(j) == old(Contents(j)) && Header(j) == old(Header(j))
    {
      hide ImageOf, cache.Valid, cache.View, Stream, HeaderOf, Img, FsOk, INodeOf, FileBytes, Length;
    }

    twostate lemma KeptContents(n: nat)
      requires old(Valid()) && Valid() && OthersKept(n)
      ensures forall j :: j in old(files) && j != n ==>
        && j in files && Contents(j) == old(Contents(j)) && Header(j) == old(Header(j))
    {
      hide ImageOf, cache.Valid, cache.View, Stream, HeaderOf, Img, FsOk, INodeOf, FileBytes, Length;
    }

    /**
      diskManager_readContents within the entry's length. The inode is refused exactly if its entry
      has not the magic number; leftover is the initial value of an uninitialised local.
     */
    method ReadEntry(n: nat, length: U32, offset: U32, leftover: int, ghost chain: Chain)
      returns (status: int, contents: seq<Byte>)
      requires cache.Valid() && n < MAX_INODES
      requires Img().INode(n).data.magic == MAGIC_NUMBER ==>
        EntryOk(Img(), n, chain) && offset + length <= Img().INode(n).usedBytes
      modifies cache.cachedData, cache.ata.primary, cache.ata.secondary
      ensures cache.Valid() && Img() == old(Img())
      ensures status == if Img().INode(n).data.magic != MAGIC_NUMBER then -1 else 0
      ensures status == -1 ==> contents == []
      ensures status == 0 ==>
        && Placed(chain) && 48 + Img().INode(n).usedBytes <= 228 * |chain|
        && contents ==
             if leftover == 0 && offset >= 180 then []
             else Behind(Stream(Img(), chain), 48, Img().INode(n).usedBytes)[offset..offset + length]
    {
      hide *;
      ghost var img := Img();
      var inode := GetINode(n);
      if inode.data.magic != MAGIC_NUMBER {
        return -1, [];
      }
      EntryFacts(img, n, chain);
      EntryStart(inode, chain);
      status, contents := ReadChain(inode.data, length, offset, leftover, chain, inode.usedBytes);
      BehindSlice(Stream(img, chain), 48, inode.usedBytes, offset, length);
    }

    /** diskManager_readContents within the file's length, on an inode that is live or whose entry is not valid. */
    method ReadContents(n: nat, length: U32, offset: U32, leftover: int) returns (status: int, contents: seq<Byte>)
      requires Valid() && n < MAX_INODES
      requires n !in files ==> Img().INode(n).data.magic != MAGIC_NUMBER
      requires n in files ==> offset + length <= Length(n)
      modifies cache.cachedData, cache.ata.primary, cache.ata.secondary
      ensures Valid() && Img() == old(Img())
      ensures n !in files ==> status == -1 && contents == []
      ensures n in files ==> status == 0
      ensures n in files && !(leftover == 0 && offset >= 180) ==> contents == Contents(n)[offset..offset + length]
      ensures n in files && leftover == 0 && offset >= 180 ==> contents == []
    {
      hide *;
      EntriesOk();
      FilesAre();
      status, contents := ReadEntry(n, length, offset, leftover, if n in files then files[n] else []);
      ValidIf();
      FilesAre();
    }

    /** diskManager_nextInode: the lowest inode number whose bit is clear, which is set; -1 if there is none. */
    method NextINode() returns (next: int)
      requires Valid()
      modifies cache.cachedData, cache.ata.primary, cache.ata.secondary
      ensures Valid()
      ensures -1 <= next < 4032
      ensures next == -1 ==> Img() == old(Img()) && forall k :: 0 <= k < 4032 ==> Img().INodeTaken(k)
      ensures next != -1 ==> !old(Img()).INodeTaken(next) && forall k :: 0 <= k < next ==> old(Img()).INodeTaken(k)
      ensures next != -1 ==> forall k :: 0 <= k < 4032 ==> Img().INodeTaken(k) == (k == next || old(Img()).INodeTaken(k))
      ensures next !in files
      ensures Img() == old(Img()).(head := Img().head) && Img().head[..8] == old(Img()).head[..8]
      ensures FreeBlocks() == old(FreeBlocks())
      ensures forall j :: j in files ==> FileBytes(j) == old(FileBytes(j)) && Length(j) == old(Length(j))
    {
      hide ImageOf, cache.Valid, cache.View, Stream, PageOf, INodeOf, BitOf, ChainOk, Separate, BitmapOk;
      var block: seq<Byte> := ReadINodeMap();
      ghost var img, bits := Img(), block;
      next := -1;
      var i := 0;
      while i < 504 && next == -1
        invariant 0 <= i <= 504 && |block| == 504
        invariant next == -1 ==> block == bits && forall k :: 0 <= k < 8 * i ==> MapBit(bits, k)
        invariant next != -1 ==> 0 <= next < 4032 && !MapBit(bits, next) && block == PutMapBit(bits, next, true)
        invariant next != -1 ==> forall k :: 0 <= k < next ==> MapBit(bits, k)
        decreases 504 - i
      {
        var j := 0;
        while j < 8 && next == -1
          invariant 0 <= j <= 8 && |block| == 504
          invariant next == -1 ==> block == bits && forall k :: 0 <= k < 8 * i + j ==> MapBit(bits, k)
          invariant next != -1 ==> 0 <= next < 4032 && !MapBit(bits, next) && block == PutMapBit(bits, next, true)
          invariant next != -1 ==> forall k :: 0 <= k < next ==> MapBit(bits, k)
          decreases 8 - j
        {
          assert MapBit(bits, 8 * i + j) == BitOf(bits[i], j);
          if !BitOf(block[i], j) {
            next := i * 8 + j;
            block := block[i := PutByteBit(block[i], j, true)];
          }
          j := j + 1;
        }
        i := i + 1;
      }
      if next == -1 {
        return -1;
      }
      ghost var img' := img.(head := img.head[..8] + block);
      assert img'.head[8..] == block;
      INodeMapKeepsFs(img, files, img');
      WriteINodeMap(block);
    }

    /**
      diskManager_createInode on an inode number taken from the bitmap. The header's name buffer
      holds leftover bytes behind the terminator.
     */
    method CreateINode(n: nat, name: seq<Byte>, fields: FileHeader)
      requires Valid() && n < MAX_INODES && n !in files && Img().INodeTaken(n)
      requires FreeBlocks() >= 1 && |name| < MAX_NAME_LENGTH
      modifies this, cache.cachedData, cache.ata.primary, cache.ata.secondary
      ensures Valid() && n in files && files == old(files)[n := files[n]]
      ensures |files[n]| == 1 && files[n][0] < MAX_BLOCKS && !old(Img()).Taken(files[n][0])
      ensures LowestClear(old(Img()).bitmap, files[n])
      ensures Length(n) == 0 && Img().Page(files[n][0]).usedBytes == 0
      ensures Img().INode(n) ==
        INodeDisk(DiskPage(MAGIC_NUMBER, ATA0, FILE_CONTENTS_INITIAL_SECTOR, 256 * files[n][0], 256, 0, 0), 1, 0)
      ensures Header(n) == fields.(magic := MAGIC_NUMBER, name := Header(n).name)
      ensures Header(n).name[..|name| + 1] == name + [0]
      ensures OthersKept(n)
      ensures forall j :: 0 <= j < MAX_INODES && j != n ==> Img().INode(j) == old(Img()).INode(j)
      ensures Img().head == old(Img()).head
      ensures BitsSet(old(Img()).bitmap, Img().bitmap, files[n])
      ensures FreeBlocks() == old(FreeBlocks()) - 1
    {
      hide ImageOf, cache.Valid, cache.View, Stream, PageOf, INodeOf, MapBit, FreeFrom, LowestClear, WithINode, ChainOk, Separate,
        BitmapOk, OnlyBlocks, PagesLinked, HeaderOf, HeaderBytes, BitsSet;
      ghost var img := Img();
      var reserved, data;
      ghost var taken;
      reserved, data, taken := Reserve(1);
      if reserved == -1 {
        assert false;
      }
      LowestInRange(img.bitmap, taken);
      ReservedIs(taken[0], 1);
      var inode := INodeDisk(data, 1, 0);
      ghost var middle := Img();
      SetINode(n, inode);
      assert |seq(MAX_NAME_LENGTH - |name| - 1, _ => 0 as Byte)| == MAX_NAME_LENGTH - |name| - 1;
      var junk: seq<Byte> :| |junk| == MAX_NAME_LENGTH - |name| - 1;
      var header := FileHeader(MAGIC_NUMBER, name + [0] + junk, fields.mask, fields.uid, fields.gid, fields.flags, fields.impl);
      CreatedFile(img, middle, files, n, taken, inode, header);
      WriteBlock(inode.data.disk, HeaderBytes(header), inode.data.nextSector, inode.data.nextOffset + 28, taken[0], 28);
      files := files[n := taken];
      HeaderRoundTrip(header);
      LowestClearFacts(img.bitmap, taken);
      assert taken == [taken[0]];
      FreeAfterOne(img.bitmap, Img().bitmap, taken[0], 0);
    }

    /** On a new file a byte for offset 200 goes nowhere; the block reserved for it stays linked, and uncounted. */
    method FreshFileGap(n: nat, name: seq<Byte>, fields: FileHeader, b: Byte) returns (status: int, ghost all: Chain)
      requires Valid() && n < MAX_INODES && n !in files && Img().INodeTaken(n)
      requires FreeBlocks() >= 2 && |name| < MAX_NAME_LENGTH
      modifies this, cache.cachedData, cache.ata.primary, cache.ata.secondary
      ensures status == -1 && cache.Valid() && Linked(Img(), all) && |all| == 2 && Img().INode(n).blocks == 1
      ensures forall f: Files :: n in f ==> !FsOk(Img(), f)
    {
      hide *;
      OutOfPlace();
      CreateINode(n, name, fields);
      EntriesOk();
      FilesAre();
      EntryFacts(Img(), n, files[n]);
      EntryStart(Img().INode(n), files[n]);
      ghost var before := Img();
      status, all := WriteOverGap(n, [b], 200);
      FreshGap(before, Img(), n, files[n], all, b, status);
    }

    /** On a new file of one byte a byte for offset 200 is put at offset 379, and the file is lost. */
    method ShortFileGap(n: nat, name: seq<Byte>, fields: FileHeader, a: Byte, b: Byte) returns (status: int, ghost all: Chain)
      requires Valid() && n < MAX_INODES && n !in files && Img().INodeTaken(n)
      requires FreeBlocks() >= 2 && |name| < MAX_NAME_LENGTH
      modifies this, cache.cachedData, cache.ata.primary, cache.ata.secondary
      ensures status == 0 && cache.Valid() && Placed(all) && |all| == 2 && Stream(Img(), all)[48 + 379] == b
      ensures forall f: Files :: n in f ==> !FsOk(Img(), f)
    {
      hide *;
      OutOfPlace();
      CreateINode(n, name, fields);
      label Made:
      var _ := WriteContents(n, [a], 0);
      SameBitmap@Made();
      OneByte(old@Made(Contents(n)), Contents(n), a);
      EntriesOk();
      FilesAre();
      ghost var before := Img();
      status, all := WriteOverGap(n, [b], 200);
      ShortGap(before, Img(), n, files[n], all, b, status);
    }

    /** _getFileheader: refused if the entry has not the magic number. */
    method GetFileHeader(n: nat) returns (header: Option<FileHeader>)
      requires Valid() && n < MAX_INODES && (n !in files ==> Img().INode(n).data.magic != MAGIC_NUMBER)
      modifies cache.cachedData, cache.ata.primary, cache.ata.secondary
      ensures Valid() && Img() == old(Img())
      ensures header == if n in files then Some(Header(n)) else None
    {
      hide ImageOf, cache.Valid, cache.View, Stream, PageOf, INodeOf, MapBit, ChainOk, Separate, BitmapOk, HeaderOf;
      EntriesOk();
      var inode := GetINode(n);
      if inode.data.magic != MAGIC_NUMBER {
        return None;
      }
      assert FileOk(Img(), n, files[n]);
      ChainFacts(Img(), files[n], Img().INode(n).usedBytes);
      var bytes := ReadBlock(inode.data.disk, 48, inode.data.nextSector, inode.data.nextOffset + 28, files[n][0], 28);
      StreamSlice(Img(), files[n], 0, 0, 48);
      assert FileBytes(n)[0..48] == FileBytes(n)[..48];
      header := Some(HeaderOf(bytes));
    }

    /**
      diskManager_readInode, of a live inode or of whatever the entry says. It is refused exactly if
      the entry or the header it leads to has not the magic number.
     */
    method ReadINode(n: nat, ghost chain: Chain) returns (inode: Option<INode>)
      requires cache.Valid() && n < MAX_INODES
      requires Img().INode(n).data.magic == MAGIC_NUMBER ==> StartsAt(Img().INode(n), chain) && Placed(chain)
      modifies cache.cachedData, cache.ata.primary, cache.ata.secondary
      ensures cache.Valid() && Img() == old(Img())
      ensures Img().INode(n).data.magic != MAGIC_NUMBER ==> inode == None
      ensures Img().INode(n).data.magic == MAGIC_NUMBER ==>
        && |chain| >= 1 && chain[0] < MAX_BLOCKS
        && var header := HeaderOf(Img().blocks[chain[0]][28..76]);
           && (inode.None? <==> header.magic != MAGIC_NUMBER)
           && (inode.Some? ==>
                 && inode.value.name == Text(header.name) && inode.value.mask == header.mask && inode.value.uid == header.uid
                 && inode.value.gid == header.gid && inode.value.flags == header.flags && inode.value.impl == header.impl
                 && inode.value.id == n && inode.value.length == Img().INode(n).usedBytes
                 && inode.value.sector == FILE_CONTENTS_INITIAL_SECTOR && inode.value.offset == 256 * chain[0])
    {
      hide *;
      var entry := GetINode(n);
      if entry.data.magic != MAGIC_NUMBER {
        return None;
      }
      StartFacts(entry, chain);
      PlacedFacts(chain);
      BlockSizes(Img());
      var bytes := ReadBlock(entry.data.disk, 48, entry.data.nextSector, entry.data.nextOffset + 28, chain[0], 28);
      var header := HeaderOf(bytes);
      if header.magic != MAGIC_NUMBER {
        return None;
      }
      inode := Some(INode(Text(header.name), header.mask, header.uid, header.gid, header.flags, header.impl,
                          n, entry.usedBytes, entry.data.nextSector, entry.data.nextOffset));
    }

    /** diskManager_readInode of a live inode: its header, number and length, if the header has the magic number. */
    method ReadLiveINode(n: nat) returns (inode: Option<INode>)
      requires Valid() && n in files
      modifies cache.cachedData, cache.ata.primary, cache.ata.secondary
      ensures Valid() && Img() == old(Img())
      ensures inode.Some? <==> Header(n).magic == MAGIC_NUMBER
      ensures old(HeadersMarked()) ==> inode.Some?
      ensures inode.Some? ==>
        && inode.value.name == Text(Header(n).name) && inode.value.mask == Header(n).mask && inode.value.uid == Header(n).uid
        && inode.value.gid == Header(n).gid && inode.value.flags == Header(n).flags && inode.value.impl == Header(n).impl
        && inode.value.id == n && inode.value.length == Length(n)
    {
      hide *;
      EntriesOk();
      FilesAre();
      LiveLinked(Img(), files, n);
      HeaderInPage(Img(), files[n]);
      if HeadersMarked() {
        HeaderMarked(n);
      }
      inode := ReadINode(n, files[n]);
      ValidIf();
      FilesAre();
    }

    /** A deleted inode is refused, although its entry still has the magic number. */
    method DeleteThenReadINode(n: nat) returns (inode: Option<INode>)
      requires Valid() && n in files
      modifies this, cache.cachedData, cache.ata.primary, cache.ata.secondary
      ensures Valid() && files == old(files) - {n} && inode == None
    {
      hide *;
      EntriesOk();
      ghost var chain := files[n];
      LiveLinked(Img(), files, n);
      ghost var img := Img();
      Delete(n);
      EntriesOk();
      SameTable(img, Img());
      ErasedHeader(Img(), chain);
      inode := ReadINode(n, chain);
      ValidIf();
    }

    /**
      diskManager_delete through any entry with the magic number: clears the bits of whatever pages are
      linked behind its first one. The header written over is uninitialised but for its magic.
     */
    method DeleteEntry(n: nat, ghost chain: Chain) returns (ghost junk: seq<Byte>, ghost bitmap: seq<Byte>)
      requires cache.Valid() && n < MAX_INODES && Img().INode(n).data.magic == MAGIC_NUMBER
      requires Linked(Img(), chain) && StartsAt(Img().INode(n), chain)
      modifies cache.cachedData, cache.ata.primary, cache.ata.secondary
      ensures cache.Valid() && Gone(old(Img()), Img(), n, chain, junk, bitmap)
      ensures HeaderErased(Img(), chain)
    {
      hide *;
      ghost var img := Img();
      LinkedStart(img, chain);
      LinksOf(img, chain);
      var inode := GetINode(n);
      StartFacts(inode, chain);
      Free(inode.data, chain);
      ghost var freed := Img();
      SameTable(img, freed);

      AnyHeader();
      var header: FileHeader :| header.Valid() && header.magic == 0;
      var _ := SetFileHeader(n, header, chain);

      var inodes := ReadINodeMap();
      var pos, bit := n / 8, n % 8;
      InodeBit(inodes, n);
      inodes := inodes[pos := PutByteBit(inodes[pos], bit, false)];
      WriteINodeMap(inodes);
      ImageSizes(img);
      ImageSizes(freed);
      HeadSplit(img.head, Img().head, inodes);
      junk, bitmap := HeaderBytes(header), freed.bitmap;
      HeaderRoundTrip(header);
      GoneIs(img, Img(), n, chain, junk, bitmap, Img().head);
      GoneFacts(img, Img(), n, chain, junk, bitmap);
    }

    /** diskManager_delete of a live inode. The inode entry stays valid: its pages, though free, still hold the old contents. */
    method Delete(n: nat)
      requires Valid() && n in files
      modifies this, cache.cachedData, cache.ata.primary, cache.ata.secondary
      ensures Valid() && files == old(files) - {n}
      ensures n < MAX_INODES && Placed(old(files)[n]) && Img().table == old(Img()).table
      ensures |Img().head| == |old(Img()).head| == 512 && Img().head[..8] == old(Img()).head[..8]
      ensures StillThere(Img(), n, old(files)[n], old(Contents(n)))
      ensures HeaderErased(Img(), old(files)[n])
      ensures BitsCleared(old(Img()).bitmap, Img().bitmap, old(files)[n])
      ensures forall j :: 0 <= j < 4032 ==> Img().INodeTaken(j) == (j != n && old(Img()).INodeTaken(j))
      ensures forall j :: j in files ==> FileBytes(j) == old(FileBytes(j)) && Length(j) == old(Length(j))
    {
      hide *;
      EntriesOk();
      FilesAre();
      ghost var img, chain := Img(), files[n];
      LiveLinked(img, files, n);
      ghost var junk, bitmap := DeleteEntry(n, chain);
      GoneFacts(img, Img(), n, chain, junk, bitmap);
      ghost var freed := img.(bitmap := bitmap);
      DeletedFile(img, freed, files, n, junk, Img().head);
      DeadEntry(img, freed, files, n, junk, Img().head);
      files := files - {n};
      ValidIf();
      SameTable(img, Img());
      FilesAre();
    }

    /** A deleted file is still read, as long as its blocks are not used again. */
    method DeleteThenRead(n: nat, length: U32, offset: U32, leftover: int) returns (status: int, contents: seq<Byte>)
      requires Valid() && n in files && offset + length <= Length(n)
      modifies this, cache.cachedData, cache.ata.primary, cache.ata.secondary
      ensures Valid() && files == old(files) - {n} && status == 0
      ensures contents == if leftover == 0 && offset >= 180 then [] else old(Contents(n))[offset..offset + length]
    {
      hide *;
      EntriesOk();
      FilesAre();
      ghost var chain := files[n];
      Delete(n);
      EntriesOk();
      StillThereFacts(Img(), n, chain, old(Contents(n)));
      status, contents := ReadEntry(n, length, offset, leftover, chain);
      ValidIf();
    }

    /** A deleted file is even written to: the bytes go into free blocks. No live file changes. */
    method DeleteThenWrite(n: nat, data: seq<Byte>, offset: U32) returns (status: int)
      requires Valid() && n in files && WriteOk(Length(n), offset, |data|) && 48 + offset + |data| <= 228 * |files[n]|
      modifies this, cache.cachedData, cache.ata.primary, cache.ata.secondary
      ensures Valid() && files == old(files) - {n} && status == 0
      ensures Placed(old(files)[n]) && Stream(Img(), old(files)[n])[48 + offset..48 + offset + |data|] == data
      ensures forall i :: 0 <= i < |old(files)[n]| ==> !Img().Taken(old(files)[n][i])
      ensures forall j :: j in files ==> FileBytes(j) == old(FileBytes(j)) && Length(j) == old(Length(j))
    {
      hide *;
      EntriesOk();
      FilesAre();
      ghost var chain := files[n];
      EntryFacts(Img(), n, chain);
      ChainBound(chain);
      Delete(n);
      EntriesOk();
      FilesAre();
      ghost var dead := Img();
      StillThereFacts(dead, n, chain, old(Contents(n)));
      ghost var w;
      status, w := WriteEntry(n, data, offset, chain);
      RewrittenDead(dead, Img(), files, n, chain, offset, data, status, w);
      ValidIf();
      FilesAre();
    }

    /** _setFileheader: refused if the entry has not the magic number. */
    method SetFileHeader(n: nat, header: FileHeader, ghost chain: Chain) returns (done: bool)
      requires cache.Valid() && header.Valid() && n < MAX_INODES
      requires Img().INode(n).data.magic == MAGIC_NUMBER ==> StartsAt(Img().INode(n), chain) && Placed(chain)
      modifies cache.cachedData, cache.ata.primary, cache.ata.secondary
      ensures cache.Valid() && done == (old(Img()).INode(n).data.magic == MAGIC_NUMBER)
      ensures done ==> |chain| >= 1 && chain[0] < MAX_BLOCKS && Img() == WithBlock(old(Img()), chain[0], 28, HeaderBytes(header))
      ensures !done ==> Img() == old(Img())
    {
      hide ImageOf, cache.Valid, cache.View, INodeOf, HeaderBytes;
      var inode := GetINode(n);
      if inode.data.magic != MAGIC_NUMBER {
        return false;
      }
      WriteBlock(inode.data.disk, HeaderBytes(header), inode.data.nextSector, inode.data.nextOffset + 28, chain[0], 28);
      done := true;
    }

    /** diskManager_size, of a live inode or of whatever the entry says. */
    method Size(n: nat) returns (size: U32)
      requires Valid() && n < MAX_INODES
      modifies cache.cachedData, cache.ata.primary, cache.ata.secondary
      ensures Valid() && Img() == old(Img())
      ensures size == Img().INode(n).usedBytes && (n in files ==> size == Length(n))
    {
      hide ImageOf, cache.Valid, cache.View, Stream, PageOf, INodeOf, MapBit, ChainOk, Separate, BitmapOk;
      var inode := GetINode(n);
      size := inode.usedBytes;
    }

    /** diskManager_writeHeader: an empty file system, with no inode and no block taken. */
    method WriteHeader(maxNodes: U32)
      requires cache.Valid()
      modifies this, cache.cachedData, cache.ata.primary, cache.ata.secondary
      ensures Valid() && files == map[]
      ensures FreeBlocks() == MAX_BLOCKS
      ensures forall k :: 0 <= k < 4032 ==> !Img().INodeTaken(k)
      ensures Img().head[..8] == WordBytes([MAGIC_NUMBER, maxNodes])
    {
      hide ImageOf, cache.Valid, cache.View, MapBit, FreeFrom, FsOk, WordBytes, Splice;
      var block: seq<Byte> := seq(512, _ => 0);
      ImageHeadWrite(cache.View(ATA0), 0, WordBytes([MAGIC_NUMBER, maxNodes]));
      cache.Write(ATA0, WordBytes([MAGIC_NUMBER, maxNodes]), 0, 0);
      SpliceReadsBack(old(Img()).head, 0, WordBytes([MAGIC_NUMBER, maxNodes]));
      ghost var head := Img().head;
      assert head[0..0 + 8] == WordBytes([MAGIC_NUMBER, maxNodes]);
      WriteINodeMap(block[..504]);
      assert Img().head[8..] == block[..504] && Img().head[..8] == head[..8];
      WriteBitmap(block);
      ZeroBits(Img().head[8..]);
      FormattedFs(Img());
      files := map[];
    }

    /**
      A write within or right behind a file's contents is read back as written, and changes nothing
      else in that file or any other; leftover is the uninitialised local of the read.
     */
    method WriteThenRead(n: nat, data: seq<Byte>, offset: U32, leftover: int) returns (contents: seq<Byte>)
      requires Valid() && n in files && n < MAX_INODES && offset <= Length(n)
      requires 48 + offset + |data| > 228 * |files[n]| ==> Estimate(offset + |data|) <= FreeBlocks()
      requires offset + |data| < 0x1_0000_0000 && (leftover != 0 || offset < 180)
      modifies this, cache.cachedData, cache.ata.primary, cache.ata.secondary
      ensures Valid() && contents == data
      ensures n in files && Contents(n) == Overwrite(old(Contents(n)), offset, data)
      ensures forall j :: j in old(files) && j != n ==> j in files && Contents(j) == old(Contents(j))
    {
      hide Valid, Img, FileBytes, Length, Contents, Header, FreeBlocks, Overwrite, Estimate;
      var written := WriteContents(n, data, offset);
      KeptContents(n);
      label L:
      ghost var now := Contents(n);
      var status;
      status, contents := ReadContents(n, |data|, offset, leftover);
      SameImage@L();
    }

    /** _reserveMemoryBitMap and _freeMemory undo each other on the bitmap. */
    method ReserveThenFree(blocks: nat)
      requires cache.Valid() && 1 <= blocks <= FreeFrom(Img().bitmap, 0)
      modifies cache.cachedData, cache.ata.primary, cache.ata.secondary
      ensures cache.Valid() && Img().bitmap == old(Img()).bitmap
    {
      hide ImageOf, cache.Valid, cache.View, MapBit, FreeFrom, LowestClear, PageOf, BitsSet, BitsCleared;
      ghost var before := Img().bitmap;
      var status, page;
      ghost var taken;
      status, page, taken := Reserve(blocks);
      ghost var middle := Img().bitmap;
      LowestClearFacts(before, taken);
      Free(page, taken);
      ClearUndoesSet(before, middle, Img().bitmap, taken);
    }
  }
}
