/**
  diskManager_writeContents as a step on the image: room is made behind the blocks of an inode
  entry, the data is written, and the entry is set unless the write failed.
 */
module EntryWrites {
  import opened Ata
  import opened Bytes
  import opened DiskLayout
  import opened FileChains
  import opened PageWrites
  import opened Reservation
  import opened WritePosition

  /** The given number of bytes behind the first k. */
  ghost function Behind(bytes: seq<Byte>, k: nat, length: nat): (r: seq<Byte>)
    requires k + length <= |bytes|
    ensures |r| == length
  {
    bytes[k..k + length]
  }

  /** The entry of inode n and the pages of the chain fit together, whether or not the inode is live. */
  ghost predicate EntryOk(img: Image, n: nat, chain: Chain)
    requires img.Valid() && n < MAX_INODES
  {
    && Placed(chain) && Distinct(chain)
    && INodeOk(img.INode(n), chain)
    && ChainOk(img, chain, img.INode(n).usedBytes)
  }

  lemma EntryFacts(img: Image, n: nat, chain: Chain)
    requires img.Valid() && n < MAX_INODES && EntryOk(img, n, chain)
    ensures Placed(chain) && Distinct(chain) && INodeOk(img.INode(n), chain) && ChainOk(img, chain, img.INode(n).usedBytes)
    ensures |chain| >= 1 && 48 + img.INode(n).usedBytes <= 228 * |chain|
  {
  }

  lemma LiveEntry(img: Image, files: Files, n: nat)
    requires FsOk(img, files) && n in files
    ensures img.Valid() && n < MAX_INODES && Placed(files[n]) && EntryOk(img, n, files[n])
    ensures forall i :: 0 <= i < |files[n]| ==> img.Taken(files[n][i])
  {
    hide LinkOk, UsedOk, PageOf, INodeOf, MapBit;
    assert FileOk(img, n, files[n]);
    forall i | 0 <= i < |files[n]| ensures img.Taken(files[n][i]) {
      assert files[n][i] in files[n];
      assert Owned(files, files[n][i]);
    }
  }

  lemma EntryStart(inode: INodeDisk, chain: Chain)
    requires INodeOk(inode, chain)
    ensures |chain| >= 1 && inode.data.disk == ATA0 && inode.data.nextSector == FILE_CONTENTS_INITIAL_SECTOR
    ensures inode.data.nextOffset == 256 * chain[0] && inode.data.magic == MAGIC_NUMBER && inode.blocks == |chain|
    ensures StartsAt(inode, chain)
  {
  }

  /** The entry names the first page of the chain. */
  ghost predicate StartsAt(inode: INodeDisk, chain: Chain) {
    && |chain| >= 1 && inode.data.disk == ATA0
    && inode.data.nextSector == FILE_CONTENTS_INITIAL_SECTOR && inode.data.nextOffset == 256 * chain[0]
  }

  lemma StartFacts(inode: INodeDisk, chain: Chain)
    requires StartsAt(inode, chain)
    ensures |chain| >= 1 && inode.data.disk == ATA0
    ensures inode.data.nextSector == FILE_CONTENTS_INITIAL_SECTOR && inode.data.nextOffset == 256 * chain[0]
  {
  }

  /** The entry with its length grown to cover a write. */
  function Covering(inode: INodeDisk, total: U32): INodeDisk {
    if total > inode.usedBytes then inode.(usedBytes := total) else inode
  }

  lemma CoveringIs(inode: INodeDisk, total: U32)
    ensures Covering(inode, total) == if total > inode.usedBytes then inode.(usedBytes := total) else inode
  {
  }

  lemma CoveringStarts(inode: INodeDisk, total: U32, chain: Chain)
    requires StartsAt(inode, chain)
    ensures StartsAt(Covering(inode, total), chain)
  {
  }

  lemma EntryGrown(inode: INodeDisk, chain: Chain, usedBytes: U32)
    requires INodeOk(inode, chain)
    ensures INodeOk(inode.(usedBytes := usedBytes), chain)
  {
  }

  /** The blocks added, the image once they are linked, and the entry to be set. */
  datatype Rewrite = Rewrite(taken: Chain, extended: Image, entry: INodeDisk)

  ghost predicate RoomMade(img: Image, size: nat, chain: Chain, total: nat, w: Rewrite)
    requires img.Valid() && Placed(chain)
  {
    var all := chain + w.taken;
    && w.extended.Valid() && Extended(img, w.extended, chain, w.taken, size)
    && Linked(w.extended, all) && |all| <= MAX_BLOCKS && 48 + total <= 228 * |all|
    && (48 + total <= 228 * |chain| ==> w.taken == [] && w.extended == img)
    && |all| == BlocksAfter(|chain|, total)
    && INodeOk(w.entry, all) && w.entry.usedBytes == Max(size, total)
  }

  ghost predicate Rewritten(img: Image, after: Image, n: nat, chain: Chain, offset: U32, data: seq<Byte>, status: int, w: Rewrite)
    requires img.Valid() && Placed(chain) && n < MAX_INODES
  {
    && RoomMade(img, img.INode(n).usedBytes, chain, ToU32(offset + |data|), w)
    && var r := BlockWritten(w.extended, chain + w.taken, offset, data);
       status == r.1 && after == if status == 0 then WithINode(r.0, n, w.entry) else r.0
  }

  lemma RoomFacts(img: Image, size: nat, chain: Chain, total: nat, w: Rewrite)
    requires img.Valid() && Placed(chain) && RoomMade(img, size, chain, total, w)
    ensures var all := chain + w.taken;
            && w.extended.Valid() && Extended(img, w.extended, chain, w.taken, size)
            && Linked(w.extended, all) && |all| <= MAX_BLOCKS && 48 + total <= 228 * |all|
            && Placed(all) && Distinct(all) && ChainOk(w.extended, all, size)
            && INodeOk(w.entry, all) && w.entry.usedBytes == Max(size, total)
            && |all| == BlocksAfter(|chain|, total)
    ensures 48 + total <= 228 * |chain| ==> w.taken == [] && w.extended == img
  {
    hide ChainOk, LinkOk, INodeOk, OnlyBlocks, BitsSet, Stream;
  }

  lemma StatusIs(img: Image, chain: Chain, offset: U32, data: seq<Byte>)
    requires img.Valid() && Linked(img, chain)
    ensures BlockWritten(img, chain, offset, data).1 == 0 || BlockWritten(img, chain, offset, data).1 == -1
  {
    hide Laid, Linked, Seek, WithPageData;
  }

  lemma RewrittenFacts(img: Image, after: Image, n: nat, chain: Chain, offset: U32, data: seq<Byte>, status: int, w: Rewrite)
    requires img.Valid() && Placed(chain) && n < MAX_INODES && Rewritten(img, after, n, chain, offset, data, status, w)
    ensures RoomMade(img, img.INode(n).usedBytes, chain, ToU32(offset + |data|), w)
    ensures w.extended.Valid() && Linked(w.extended, chain + w.taken)
    ensures var r := BlockWritten(w.extended, chain + w.taken, offset, data);
            status == r.1 && after == if status == 0 then WithINode(r.0, n, w.entry) else r.0
    ensures after.Valid() && (status == 0 || status == -1)
  {
    StatusIs(w.extended, chain + w.taken, offset, data);
    hide BlockWritten, Linked, Extended, INodeOk, INodeOf;
  }

  /** What a write in its place makes of the file system. */
  ghost predicate InPlace(img: Image, after: Image, files: Files, n: nat, offset: U32, data: seq<Byte>, w: Rewrite)
    requires img.Valid() && after.Valid() && n < MAX_INODES && n in files && Placed(files[n]) && Placed(files[n] + w.taken)
  {
    var all := files[n] + w.taken;
    && FsOk(after, files[n := all])
    && after.INode(n) == w.entry && after.head == img.head
    && OnlyFile(img, after, n, all)
    && (forall j :: j in files && j != n ==> Placed(files[j]) && Stream(after, files[j]) == Stream(img, files[j]))
    && WrittenStream(Stream(img, files[n]), Stream(after, all), img.INode(n).usedBytes, w.entry.usedBytes, offset, data)
    && (w.taken == [] ==> after.bitmap == img.bitmap)
  }

  /** A write that starts within a file or behind full pages completes a step of the file system. */
  lemma RewrittenInPlace(img: Image, after: Image, files: Files, n: nat, offset: U32, data: seq<Byte>, status: int, w: Rewrite)
    requires img.Valid() && after.Valid() && n < MAX_INODES && n in files && Placed(files[n]) && Placed(files[n] + w.taken)
    requires FsOk(img, files)
    requires Rewritten(img, after, n, files[n], offset, data, status, w)
    requires offset + |data| < 0x1_0000_0000 && WriteOk(img.INode(n).usedBytes, offset, |data|)
    ensures status == 0 && InPlace(img, after, files, n, offset, data, w)
  {
    hide *;
    var chain, all, size := files[n], files[n] + w.taken, img.INode(n).usedBytes;
    LiveEntry(img, files, n);
    EntryFacts(img, n, chain);
    RewrittenFacts(img, after, n, chain, offset, data, status, w);
    RoomFacts(img, size, chain, offset + |data|, w);
    WrittenInPlace(w.extended, all, size, offset, data);
    var written := BlockWritten(w.extended, all, offset, data).0;
    OnlyBlocksKeepBitmap(w.extended, written, all);
    ExtendedWritten(img, w.extended, written, files, n, w.taken, w.entry.usedBytes, w.entry);
    ExtendedFacts(img, w.extended, files, n, w.taken);
    ContentsWritten(Stream(img, chain), Stream(w.extended, all), 228 * |chain|, size, offset, data);
    MaxFacts(size, offset + |data|);
    StreamIs(Stream(img, chain), Stream(written, all), size, w.entry.usedBytes, offset, data);
    if w.taken == [] {
      assert |all| == |chain|;
      NotTaken(|chain|, offset + |data|, all);
    }
    OthersPlaced(img, files);
    InPlaceIs(img, after, files, n, offset, data, w);
  }

  lemma OthersPlaced(img: Image, files: Files)
    requires FsOk(img, files)
    ensures forall j :: j in files ==> Placed(files[j])
  {
    hide ChainOk, INodeOk, Placed;
    forall j | j in files ensures Placed(files[j]) {
      assert FileOk(img, j, files[j]);
    }
  }

  lemma InPlaceIs(img: Image, after: Image, files: Files, n: nat, offset: U32, data: seq<Byte>, w: Rewrite)
    requires img.Valid() && after.Valid() && n < MAX_INODES && n in files && Placed(files[n]) && Placed(files[n] + w.taken)
    requires forall j :: j in files ==> Placed(files[j])
    requires var all := files[n] + w.taken;
    && FsOk(after, files[n := all])
    && after.INode(n) == w.entry && after.head == img.head
    && OnlyFile(img, after, n, all)
    && (forall j :: j in files && j != n ==> Stream(after, files[j]) == Stream(img, files[j]))
    && WrittenStream(Stream(img, files[n]), Stream(after, all), img.INode(n).usedBytes, w.entry.usedBytes, offset, data)
    && (w.taken == [] ==> after.bitmap == img.bitmap)
    ensures InPlace(img, after, files, n, offset, data, w)
  {
    hide FsOk, OnlyFile, WrittenStream, Stream, Placed, INodeOf;
  }

  lemma NotTaken(blocks: nat, total: nat, all: Chain)
    requires |all| == BlocksAfter(blocks, total) == blocks
    ensures 48 + total <= 228 * blocks
  {
    hide Estimate;
  }

  /** A file's stream before and after a write: the header is kept, the contents are overwritten. */
  ghost predicate WrittenStream(before: seq<Byte>, after: seq<Byte>, was: nat, now: nat, offset: nat, data: seq<Byte>) {
    && 48 + was <= |before| && 48 + now <= |after|
    && after[..48] == before[..48]
    && Written(Behind(before, 48, was), Behind(after, 48, now), offset, data)
  }

  lemma StreamIs(before: seq<Byte>, after: seq<Byte>, was: nat, now: nat, offset: nat, data: seq<Byte>)
    requires 48 + was <= |before| && 48 + now <= |after| && after[..48] == before[..48]
    requires Written(before[48..48 + was], after[48..48 + now], offset, data)
    ensures WrittenStream(before, after, was, now, offset, data)
  {
    hide Written;
  }

  lemma InPlaceFacts(img: Image, after: Image, files: Files, n: nat, offset: U32, data: seq<Byte>, w: Rewrite)
    requires img.Valid() && after.Valid() && n < MAX_INODES && n in files && Placed(files[n]) && Placed(files[n] + w.taken)
    requires FsOk(img, files) && InPlace(img, after, files, n, offset, data, w)
    ensures var all := files[n] + w.taken;
            && FsOk(after, files[n := all]) && after.head == img.head && after.INode(n) == w.entry
            && (forall j :: j in files && j != n ==> Placed(files[j]) && Stream(after, files[j]) == Stream(img, files[j]))
            && (forall j :: j in files ==> j < MAX_INODES)
            && (forall j :: 0 <= j < MAX_INODES && j != n ==> after.INode(j) == img.INode(j))
            && var before, now := Stream(img, files[n]), Stream(after, all);
               && 48 + img.INode(n).usedBytes <= |before| && 48 + w.entry.usedBytes <= |now| && now[..48] == before[..48]
               && Written(Behind(before, 48, img.INode(n).usedBytes), Behind(now, 48, w.entry.usedBytes), offset, data)
    ensures w.taken == [] ==> after.bitmap == img.bitmap
  {
    hide Written, Behind, Stream, INodeOf, ChainOk, INodeOk, Separate, BitmapOk, Placed;
    forall j | j in files ensures j < MAX_INODES {
      assert FileOk(img, j, files[j]);
    }
  }

  lemma BlocksAre(blocks: nat, total: nat)
    ensures BlocksAfter(blocks, total) == blocks + if 48 + total > 228 * blocks then Estimate(total) else 0
  {
    hide Estimate;
  }

  /** A chain holds no more blocks than there are. */
  lemma ChainBound(chain: Chain)
    requires Placed(chain) && Distinct(chain)
    ensures |chain| <= MAX_BLOCKS == 4096
  {
    DistinctBound(chain, MAX_BLOCKS);
  }

  lemma EstimateFits(img: Image, total: nat)
    requires img.Valid() && Estimate(total) <= FreeFrom(img.bitmap, 0)
    ensures total < 0x20_0000 && Estimate(total) <= 4096
  {
    FreeBound(img.bitmap, 0);
    EstimateBounds(total);
    hide Estimate, FreeFrom;
  }

  lemma EntryExtended(inode: INodeDisk, inode': INodeDisk, chain: Chain, taken: Chain)
    requires INodeOk(inode, chain) && inode'.blocks == |chain| + |taken| && inode'.data == inode.data.(totalLength := inode'.data.totalLength)
    ensures INodeOk(inode', chain + taken)
  {
  }

  lemma ExtendedDistinct(img: Image, extended: Image, chain: Chain, taken: Chain, size: nat)
    requires img.Valid() && extended.Valid() && Placed(chain) && Distinct(chain) && Extended(img, extended, chain, taken, size)
    requires taken == [] || forall i :: 0 <= i < |chain| ==> img.Taken(chain[i])
    ensures Placed(chain + taken) && Distinct(chain + taken) && ChainOk(extended, chain + taken, size)
  {
    hide ChainOk, OnlyBlocks, BitsSet, Stream, MapBit;
  }

  lemma RoomIsMade(img: Image, inode: INodeDisk, chain: Chain, total: U32, w: Rewrite, before: INodeDisk)
    requires img.Valid() && w.extended.Valid() && Placed(chain) && Distinct(chain) && 48 + inode.usedBytes <= 228 * |chain|
    requires Extended(img, w.extended, chain, w.taken, inode.usedBytes)
    requires w.taken == [] || forall i :: 0 <= i < |chain| ==> img.Taken(chain[i])
    requires 48 + total <= 228 * |chain| ==> w.taken == [] && w.extended == img
    requires 48 + total > 228 * |chain| ==> |w.taken| == Estimate(total)
    requires INodeOk(before, chain + w.taken) && before.usedBytes == inode.usedBytes
    requires w.entry == if total > before.usedBytes then before.(usedBytes := total) else before
    ensures RoomMade(img, inode.usedBytes, chain, total, w)
  {
    hide *;
    var all := chain + w.taken;
    ExtendedDistinct(img, w.extended, chain, w.taken, inode.usedBytes);
    ChainBound(all);
    ChainLinked(w.extended, all, inode.usedBytes);
    BlocksAre(|chain|, total);
    EstimateIsEnough(total);
    EntryGrown(before, all, total);
    MaxIs(inode.usedBytes, total);
    RoomMadeIs(img, inode.usedBytes, chain, total, w);
  }

  lemma MaxIs(x: nat, y: nat)
    ensures Max(x, y) == if y > x then y else x
  {
  }

  lemma RoomMadeIs(img: Image, size: nat, chain: Chain, total: nat, w: Rewrite)
    requires img.Valid() && w.extended.Valid() && Placed(chain)
    requires Extended(img, w.extended, chain, w.taken, size)
    requires Linked(w.extended, chain + w.taken) && |chain + w.taken| <= MAX_BLOCKS && 48 + total <= 228 * |chain + w.taken|
    requires 48 + total <= 228 * |chain| ==> w.taken == [] && w.extended == img
    requires |chain + w.taken| == BlocksAfter(|chain|, total)
    requires INodeOk(w.entry, chain + w.taken) && w.entry.usedBytes == Max(size, total)
    ensures RoomMade(img, size, chain, total, w)
  {
    hide Extended, Linked, BlocksAfter, INodeOk, Max, Placed;
  }

  lemma RewrittenIs(img: Image, after: Image, n: nat, chain: Chain, offset: U32, data: seq<Byte>, status: int, w: Rewrite)
    requires img.Valid() && Placed(chain) && n < MAX_INODES && w.extended.Valid() && Linked(w.extended, chain + w.taken)
    requires RoomMade(img, img.INode(n).usedBytes, chain, ToU32(offset + |data|), w)
    requires var r := BlockWritten(w.extended, chain + w.taken, offset, data);
             status == r.1 && after == if status == 0 then WithINode(r.0, n, w.entry) else r.0
    ensures Rewritten(img, after, n, chain, offset, data, status, w)
  {
    hide RoomMade, BlockWritten, ToU32, INodeOf, Linked, WithINode;
  }

  // ---- Over a gap ------------------------------------------------------------

  /** Where a write over a gap puts its bytes: on the page after the file's last one. */
  function GapPosition(size: nat, offset: nat): int {
    228 * ((48 + size) / 228 + 1) + offset - size
  }

  lemma TableKept(img: Image, after: Image, chain: Chain, n: nat)
    requires img.Valid() && after.Valid() && n < MAX_INODES && OnlyBlocks(img, after, chain)
    ensures after.INode(n) == img.INode(n)
  {
    hide INodeOf;
  }

  lemma ExtendedTable(img: Image, extended: Image, chain: Chain, taken: Chain, size: nat, n: nat)
    requires img.Valid() && extended.Valid() && Placed(chain) && n < MAX_INODES && |chain| >= 1
    requires Extended(img, extended, chain, taken, size)
    ensures extended.INode(n) == img.INode(n)
    ensures chain[0] < MAX_BLOCKS && extended.Page(chain[0]).usedBytes == img.Page(chain[0]).usedBytes
    ensures BitsSet(img.bitmap, extended.bitmap, taken)
  {
    hide INodeOf, PageOf, Stream, ChainOk, BitsSet, Distinct;
  }

  lemma EntrySet(img: Image, n: nat, entry: INodeDisk, chain: Chain)
    requires img.Valid() && n < MAX_INODES && Linked(img, chain) && Placed(chain)
    ensures var after := WithINode(img, n, entry);
            && after.INode(n) == entry && Linked(after, chain) && Stream(after, chain) == Stream(img, chain)
            && forall i :: 0 <= i < |chain| ==> after.Page(chain[i]) == img.Page(chain[i])
  {
    hide PageOf, LinkOk, WithINode, Distinct;
    INodeWriteSetsINode(img, n, entry);
  }

  lemma PageCount(img: Image, chain: Chain, size: nat, i: nat)
    requires img.Valid() && Placed(chain) && ChainOk(img, chain, size) && i < |chain|
    ensures UsedOk(img.Page(chain[i]).usedBytes, i, size)
  {
  }

  /** After a write outside its place that reports success, the entry counts more than the last page holds. */
  lemma LengthTooGreat(img: Image, after: Image, n: nat, all: Chain, size: nat, c: Chain)
    requires img.Valid() && after.Valid() && Placed(all) && ChainOk(img, all, size) && Linked(after, all) && n < MAX_INODES
    requires INodeOk(after.INode(n), all) && size < after.INode(n).usedBytes && 48 + after.INode(n).usedBytes <= 228 * |all|
    requires var q := (48 + size) / 228; q < |all| ==> after.Page(all[q]) == img.Page(all[q])
    ensures !FileOk(after, n, c)
  {
    hide *;
    var q := (48 + size) / 228;
    LastPageOnChain(|all|, size, after.INode(n).usedBytes);
    LinkedFacts(after, all, q);
    PageCount(img, all, size, q);
    ShortPage(img.Page(all[q]).usedBytes, q, size, after.INode(n).usedBytes);
    Miscounted(after, n, all, c, q);
  }

  lemma BlocksOfEntry(img: Image, n: nat, chain: Chain)
    requires img.Valid() && n < MAX_INODES && INodeOk(img.INode(n), chain)
    ensures |chain| >= 1 && img.INode(n).blocks == |chain| && img.INode(n).data.nextOffset == 256 * chain[0]
  {
    hide INodeOf;
  }

  /** The blocks of a write over a gap, before the entry is set. */
  lemma GapBlocks(img: Image, n: nat, chain: Chain, all: Chain, offset: U32, data: seq<Byte>, w: Rewrite, r: (Image, int))
    requires img.Valid() && n < MAX_INODES && Placed(chain) && |chain| >= 1 && w.extended.Valid()
    requires all == chain + w.taken && Placed(all) && Linked(w.extended, all)
    requires r.0.Valid() && r == BlockWritten(w.extended, all, offset, data)
    requires RoomMade(img, img.INode(n).usedBytes, chain, offset + |data|, w)
    requires !WriteOk(img.INode(n).usedBytes, offset, |data|)
    ensures chain[0] < MAX_BLOCKS && offset > img.INode(n).usedBytes
    ensures Linked(r.0, all) && r.0.INode(n) == img.INode(n) && r.0.bitmap == w.extended.bitmap
    ensures var size, q := img.INode(n).usedBytes, (48 + img.INode(n).usedBytes as int) / 228;
            var near, at, room := Near(img.Page(chain[0]).usedBytes, size, offset), GapPosition(size, offset), 228 * |all|;
            && (r.1 == if data == [] || (near && at + |data| <= room) then 0 else -1)
            && (q < |all| ==> all[q] < MAX_BLOCKS && r.0.Page(all[q]) == w.extended.Page(all[q]))
            && (data != [] && near ==>
                  && q + 1 < |all| && offset - size < 228 && r.0 == Laid(w.extended, all, q + 1, offset - size, data)
                  && all[q + 1] < MAX_BLOCKS && r.0.Page(all[q + 1]).usedBytes > 28)
            && (data == [] || !near ==> r.0 == w.extended)
  {
    hide *;
    var size: nat := img.INode(n).usedBytes;
    RoomFacts(img, size, chain, offset + |data|, w);
    ExtendedTable(img, w.extended, chain, w.taken, size, n);
    LinkedPlaced(w.extended, all);
    GapWritten(w.extended, all, size, offset, data);
    GapPlace(size, offset);
    var q := (48 + size) / 228;
    if data == [] || !Near(img.Page(chain[0]).usedBytes, size, offset) {
      NoBlocks(w.extended, all);
    } else {
      LaidLinks(w.extended, all, q + 1, offset - size, data);
      TableKept(w.extended, r.0, all, n);
      OnlyBlocksKeepBitmap(w.extended, r.0, all);
      StatusOf(|all|, q + 1, offset - size, |data|);
    }
  }

  /** The bytes a write over a gap leaves in the stream. */
  lemma GapStream(img: Image, all: Chain, size: nat, offset: nat, data: seq<Byte>)
    requires img.Valid() && Placed(all) && Distinct(all)
    requires size <= offset < size + 228 && (48 + size) / 228 + 1 < |all|
    ensures 0 <= GapPosition(size, offset) < 228 * |all|
    ensures Stream(Laid(img, all, (48 + size) / 228 + 1, offset - size, data), all)
         == Splice(Stream(img, all), GapPosition(size, offset), data[..Min(|data|, 228 * |all| - GapPosition(size, offset))])
  {
    hide *;
    GapPlace(size, offset);
    var q := (48 + size) / 228;
    MinFacts(|data|, 228 * |all| - GapPosition(size, offset));
    LaidStream(img, all, q + 1, offset - size, data, Min(|data|, 228 * |all| - GapPosition(size, offset)));
  }

  lemma StatusOf(n: nat, i: nat, o: nat, count: nat)
    ensures LaidStatus(n, i, o, count) == if count == 0 || 228 * i + o + count <= 228 * n then 0 else -1
  {
  }

  lemma GapPlace(size: nat, offset: nat)
    ensures GapPosition(size, offset) == 228 * ((48 + size) / 228 + 1) + offset - size
  {
  }

  /**
    What a write leaves that starts neither within a file nor behind full pages. It fails unless its
    bytes find room from a page boundary on, to which its distance from the end is added. Only if it
    fails without having reserved or written anything does the entry still describe a file.
   */
  lemma RewrittenOverGap(img: Image, after: Image, n: nat, chain: Chain, offset: U32, data: seq<Byte>, status: int, w: Rewrite)
    requires img.Valid() && after.Valid() && n < MAX_INODES && Placed(chain) && Placed(chain + w.taken) && EntryOk(img, n, chain)
    requires Rewritten(img, after, n, chain, offset, data, status, w)
    requires offset + |data| < 0x1_0000_0000 && !WriteOk(img.INode(n).usedBytes, offset, |data|)
    ensures |chain| >= 1 && chain[0] < MAX_BLOCKS && offset > img.INode(n).usedBytes
    ensures var size, all := img.INode(n).usedBytes, chain + w.taken;
            var near, at, room := Near(img.Page(chain[0]).usedBytes, size, offset), GapPosition(size, offset), 228 * |all|;
            && (status == if data == [] || (near && at + |data| <= room) then 0 else -1)
            && (data != [] && near ==>
                  0 <= at < room && Stream(after, all) == Splice(Stream(w.extended, all), at, data[..Min(|data|, room - at)]))
            && Linked(after, all) && after.bitmap == w.extended.bitmap && (status == -1 ==> after.INode(n) == img.INode(n))
            && (if data != [] && !near && w.taken == [] then after == img else forall c :: !FileOk(after, n, c))
  {
    hide *;
    var size: nat, all := img.INode(n).usedBytes, chain + w.taken;
    EntryFacts(img, n, chain);
    BlocksOfEntry(img, n, chain);
    RewrittenFacts(img, after, n, chain, offset, data, status, w);
    RoomFacts(img, size, chain, offset + |data|, w);
    var r := BlockWritten(w.extended, all, offset, data);
    GapBlocks(img, n, chain, all, offset, data, w, r);
    MaxFacts(size, offset + |data|);
    if data != [] && Near(img.Page(chain[0]).usedBytes, size, offset) {
      GapStream(w.extended, all, size, offset, data);
    }
    if status == 0 {
      EntrySet(r.0, n, w.entry, all);
      forall c ensures !FileOk(after, n, c) {
        LengthTooGreat(w.extended, after, n, all, size, c);
      }
    } else if w.taken != [] {
      forall c ensures !FileOk(after, n, c) {
        LinkedButNotCounted(after, n, all, c);
      }
    } else {
      assert all == chain;
      if Near(img.Page(chain[0]).usedBytes, size, offset) {
        FilledBehind(after.Page(all[(48 + size) / 228 + 1]).usedBytes, size);
        forall c ensures !FileOk(after, n, c) {
          Miscounted(after, n, chain, c, (48 + size) / 228 + 1);
        }
      } else {
        UnchangedRoom(|chain|, offset + |data|, w.taken);
      }
    }
  }

  /** What diskManager_writeContents makes of an inode's blocks when the write does not start in its place. */
  ghost predicate GapLeft(before: Image, after: Image, n: nat, chain: Chain, all: Chain, offset: U32, data: seq<Byte>, status: int) {
    && before.Valid() && after.Valid() && n < MAX_INODES
    && chain <= all && |all| == BlocksAfter(|chain|, offset + |data|)
    && |chain| >= 1 && Placed(all) && chain[0] < MAX_BLOCKS
    && Linked(after, all) && BitsSet(before.bitmap, after.bitmap, all[|chain|..])
    && var size := before.INode(n).usedBytes;
       var near := Near(before.Page(chain[0]).usedBytes, size, offset);
       var at, room := GapPosition(size, offset), 228 * |all|;
       && (status == if data == [] || (near && at + |data| <= room) then 0 else -1)
       && (data != [] && near ==>
             && 0 <= at < room
             && Stream(after, all)[at..at + Min(|data|, room - at)] == data[..Min(|data|, room - at)])
       && (status == -1 ==> after.INode(n) == before.INode(n))
       && (if data != [] && !near && all == chain
           then after == before
           else forall f: Files :: n in f ==> !FsOk(after, f))
  }

  lemma GapIsLeft(img: Image, after: Image, n: nat, chain: Chain, offset: U32, data: seq<Byte>, status: int, w: Rewrite)
    requires img.Valid() && after.Valid() && n < MAX_INODES && Placed(chain) && Placed(chain + w.taken) && EntryOk(img, n, chain)
    requires Rewritten(img, after, n, chain, offset, data, status, w)
    requires offset + |data| < 0x1_0000_0000 && !WriteOk(img.INode(n).usedBytes, offset, |data|)
    ensures GapLeft(img, after, n, chain, chain + w.taken, offset, data, status)
  {
    hide *;
    RewrittenFacts(img, after, n, chain, offset, data, status, w);
    var size: nat := img.INode(n).usedBytes;
    var all := chain + w.taken;
    RoomFacts(img, size, chain, offset + |data|, w);
    RewrittenOverGap(img, after, n, chain, offset, data, status, w);
    EntryFacts(img, n, chain);
    ExtendedTable(img, w.extended, chain, w.taken, size, n);
    assert all[|chain|..] == w.taken && (all == chain <==> w.taken == []);
    NoFileSystem(after, n);
    if data != [] && Near(img.Page(chain[0]).usedBytes, size, offset) {
      GapRead(Stream(w.extended, all), GapPosition(size, offset), data);
    }
    GapLeftIs(img, after, w.extended, n, chain, all, offset, data, status);
  }

  /** What is read back of data laid over bytes at a place near their end. */
  lemma GapRead(bytes: seq<Byte>, at: int, data: seq<Byte>)
    requires 0 <= at < |bytes|
    ensures Min(|data|, |bytes| - at) >= 0
    ensures Splice(bytes, at, data[..Min(|data|, |bytes| - at)])[at..at + Min(|data|, |bytes| - at)] == data[..Min(|data|, |bytes| - at)]
  {
    SpliceReadsBack(bytes, at, data[..Min(|data|, |bytes| - at)]);
  }

  lemma GapLeftIs(before: Image, after: Image, extended: Image, n: nat, chain: Chain, all: Chain, offset: U32, data: seq<Byte>, status: int)
    requires before.Valid() && after.Valid() && extended.Valid() && n < MAX_INODES
    requires chain <= all && |all| == BlocksAfter(|chain|, offset + |data|)
    requires |chain| >= 1 && Placed(all) && chain[0] < MAX_BLOCKS
    requires Linked(after, all) && BitsSet(before.bitmap, after.bitmap, all[|chain|..])
    requires var size := before.INode(n).usedBytes;
       var near := Near(before.Page(chain[0]).usedBytes, size, offset);
       var at, room := GapPosition(size, offset), 228 * |all|;
       && (status == if data == [] || (near && at + |data| <= room) then 0 else -1)
       && (data != [] && near ==>
             && 0 <= at < room
             && Stream(after, all)[at..at + Min(|data|, room - at)] == data[..Min(|data|, room - at)])
       && (status == -1 ==> after.INode(n) == before.INode(n))
       && (if data != [] && !near && all == chain
           then after == before
           else forall f: Files :: n in f ==> !FsOk(after, f))
    ensures GapLeft(before, after, n, chain, all, offset, data, status)
  {
    hide Near, GapPosition, BlocksAfter, Linked, BitsSet, Stream, FsOk, FileOk, INodeOf, PageOf, Placed, Min;
  }

  lemma OutOfPlace()
    ensures !WriteOk(0, 200, 1) && !WriteOk(1, 200, 1) && WriteOk(0, 0, 1) && Estimate(201) == 1
  {
  }

  lemma OneByte(was: seq<Byte>, now: seq<Byte>, a: Byte)
    requires Written(was, now, 0, [a]) && |was| == 0
    ensures |now| == 1
  {
  }

  /** One byte at offset 200 of a file that was never written to. */
  lemma FreshGap(before: Image, after: Image, n: nat, chain: Chain, all: Chain, b: Byte, status: int)
    requires GapLeft(before, after, n, chain, all, 200, [b], status)
    requires |chain| == 1 && before.INode(n).usedBytes == 0 && before.Page(chain[0]).usedBytes == 0
    ensures status == -1 && |all| == 2 && Linked(after, all) && after.INode(n) == before.INode(n)
    ensures forall f: Files :: n in f ==> !FsOk(after, f)
  {
    hide Linked, FsOk, INodeOf, PageOf, Stream, BitsSet;
    OutOfPlace();
  }

  /** One byte at offset 200 of a file of one byte: it lands at position 427 of the stream, not 248. */
  lemma ShortGap(before: Image, after: Image, n: nat, chain: Chain, all: Chain, b: Byte, status: int)
    requires GapLeft(before, after, n, chain, all, 200, [b], status)
    requires |chain| == 1 && before.INode(n).usedBytes == 1 && EntryOk(before, n, chain)
    ensures status == 0 && |all| == 2 && Placed(all) && after.Valid() && Stream(after, all)[427] == b
    ensures forall f: Files :: n in f ==> !FsOk(after, f)
  {
    hide Linked, FsOk, INodeOf, PageOf, Stream, BitsSet, LinkOk;
    OutOfPlace();
    assert UsedOk(before.Page(chain[0]).usedBytes, 0, 1);
    assert Stream(after, all)[427..428][0] == [b][..1][0];
  }

  lemma UnchangedRoom(blocks: nat, total: nat, taken: Chain)
    requires blocks + |taken| == BlocksAfter(blocks, total) && taken == []
    ensures 48 + total <= 228 * blocks
  {
    hide Estimate;
  }

  // ---- On a dead inode -------------------------------------------------------

  /** No live file has a block of the chain. */
  ghost predicate Apart(files: Files, chain: Chain) {
    forall j :: j in files ==> Disjoint(files[j], chain)
  }

  /** Changes to a dead inode and to blocks no live file has leave every live file as it is. */
  lemma ApartKeepsFs(img: Image, after: Image, files: Files, n: nat, chain: Chain)
    requires FsOk(img, files) && n !in files && after.Valid() && OnlyFile(img, after, n, chain) && Apart(files, chain)
    requires forall k :: 0 <= k < MAX_BLOCKS ==> after.Taken(k) == img.Taken(k)
    ensures FsOk(after, files)
    ensures forall j :: j in files ==>
      FileOk(img, j, files[j]) && Stream(after, files[j]) == Stream(img, files[j]) && after.INode(j) == img.INode(j)
  {
    hide INodeOf, PageOf, LinkOk, UsedOk, MapBit, Stream, Separate, Disjoint;
    forall j | j in files
      ensures FileOk(img, j, files[j]) && FileOk(after, j, files[j]) && Stream(after, files[j]) == Stream(img, files[j])
    {
      assert FileOk(img, j, files[j]);
      OtherFileFrame(img, after, n, chain, j, files[j]);
    }
  }

  /** A write through the entry of a dead inode whose blocks no live file has touches no live file. */
  lemma DeadWriteKeepsFs(img: Image, written: Image, files: Files, n: nat, chain: Chain, entry: INodeDisk)
    requires FsOk(img, files) && n !in files && n < MAX_INODES && written.Valid() && Placed(chain)
    requires Apart(files, chain) && OnlyBlocks(img, written, chain)
    ensures FsOk(WithINode(written, n, entry), files)
    ensures forall j :: j in files ==> FileOk(img, j, files[j]) && Stream(WithINode(written, n, entry), files[j]) == Stream(img, files[j])
  {
    INodeWriteSetsINode(written, n, entry);
    hide INodeOf, MapBit, Stream, WithINode, FsOk, FileOk;
    ApartKeepsFs(img, WithINode(written, n, entry), files, n, chain);
  }

  /** Free blocks belong to no live file. */
  lemma FreeApart(img: Image, files: Files, chain: Chain)
    requires FsOk(img, files) && Placed(chain) && forall i :: 0 <= i < |chain| ==> chain[i] < MAX_BLOCKS && !img.Taken(chain[i])
    ensures Apart(files, chain)
  {
    hide MapBit;
    forall j | j in files ensures Disjoint(files[j], chain) {
      LiveEntry(img, files, j);
    }
  }

  lemma LiveLinks(img: Image, files: Files, n: nat)
    requires FsOk(img, files) && n in files
    ensures img.Valid() && n < MAX_INODES && Placed(files[n]) && |files[n]| >= 1 && INodeOk(img.INode(n), files[n])
    ensures forall i :: 0 <= i < |files[n]| ==> files[n][i] < MAX_BLOCKS && LinkOk(img.Page(files[n][i]), files[n], i)
  {
    hide LinkOk, UsedOk, INodeOk, INodeOf, PageOf, MapBit, Separate, BitmapOk;
    assert FileOk(img, n, files[n]);
  }

  lemma SameTable(img: Image, img': Image)
    requires img.Valid() && img'.Valid() && img'.table == img.table
    ensures forall j :: 0 <= j < MAX_INODES ==> img'.INode(j) == img.INode(j)
  {
    hide INodeOf;
  }

  lemma SameHead(img: Image, img': Image)
    requires img.Valid() && img'.Valid() && img'.head == img.head
    ensures forall k :: 0 <= k < 4032 ==> img'.INodeTaken(k) == img.INodeTaken(k)
  {
    hide MapBit;
  }

  lemma AnyHeader()
    ensures var h := FileHeader(0, seq(24, _ => 0 as Byte), 0, 0, 0, 0, 0); h.Valid() && h.magic == 0
  {
  }

  lemma InodeBit(inodes: seq<Byte>, n: nat)
    requires |inodes| == 504 && n < MAX_INODES
    ensures n / 8 < 504
    ensures inodes[n / 8 := PutByteBit(inodes[n / 8], n % 8, false)] == PutMapBit(inodes, n, false)
  {
    hide PutMapBit, PutByteBit;
    PutMapBitIs(inodes, n, false);
  }

  lemma HeadSplit(before: seq<Byte>, after: seq<Byte>, inodes: seq<Byte>)
    requires |before| == 512 && |inodes| == 504 && after == before[..8] + inodes
    ensures |after| == 512 && after[8..] == inodes && after[..8] == before[..8]
  {
  }

  lemma ImageSizes(img: Image)
    requires img.Valid()
    ensures |img.head| == 512 && |img.bitmap| == 512
  {
  }

  /** What a deletion makes of the image: cleared bits, a header overwritten by one without the magic number, and the inode bit cleared. */
  ghost predicate Gone(img: Image, after: Image, n: nat, chain: Chain, junk: seq<Byte>, bitmap: seq<Byte>) {
    && img.Valid() && after.Valid() && |chain| >= 1 && chain[0] < MAX_BLOCKS && |junk| == 48 && |bitmap| == 512 && n < MAX_INODES
    && after == WithBlock(img.(bitmap := bitmap), chain[0], 28, junk).(head := after.head)
    && HeaderOf(junk).magic == 0
    && BitsCleared(img.bitmap, bitmap, chain)
    && after.head[..8] == img.head[..8] && after.head[8..] == PutMapBit(img.head[8..], n, false)
  }

  lemma GoneFacts(img: Image, after: Image, n: nat, chain: Chain, junk: seq<Byte>, bitmap: seq<Byte>)
    requires Gone(img, after, n, chain, junk, bitmap)
    ensures img.Valid() && after.Valid() && |chain| >= 1 && chain[0] < MAX_BLOCKS && |junk| == 48 && |bitmap| == 512 && n < MAX_INODES
    ensures img.(bitmap := bitmap).Valid() && |after.head| == 512 && |img.head| == 512
    ensures after == WithBlock(img.(bitmap := bitmap), chain[0], 28, junk).(head := after.head)
    ensures HeaderErased(after, chain)
    ensures BitsCleared(img.bitmap, bitmap, chain) && after.table == img.table && after.bitmap == bitmap
    ensures after.head[..8] == img.head[..8] && after.head[8..] == PutMapBit(img.head[8..], n, false)
  {
    SpliceReadsBack(img.blocks[chain[0]], 28, junk);
    hide BitsCleared, PutMapBit, HeaderOf;
  }

  lemma GoneIs(img: Image, after: Image, n: nat, chain: Chain, junk: seq<Byte>, bitmap: seq<Byte>, head: seq<Byte>)
    requires img.Valid() && after.Valid() && |chain| >= 1 && chain[0] < MAX_BLOCKS && |junk| == 48 && |bitmap| == 512 && n < MAX_INODES
    requires img.(bitmap := bitmap).Valid() && after == WithBlock(img.(bitmap := bitmap), chain[0], 28, junk).(head := head)
    requires BitsCleared(img.bitmap, bitmap, chain) && HeaderOf(junk).magic == 0
    requires |img.head| == 512 && head[..8] == img.head[..8] && head[8..] == PutMapBit(img.head[8..], n, false)
    ensures Gone(img, after, n, chain, junk, bitmap)
  {
    hide BitsCleared, PutMapBit, WithBlock, HeaderOf;
  }

  lemma LinksOf(img: Image, chain: Chain)
    requires img.Valid() && Linked(img, chain)
    ensures |chain| >= 1 && Placed(chain) && forall i :: 0 <= i < |chain| ==> chain[i] < MAX_BLOCKS && LinkOk(img.Page(chain[i]), chain, i)
  {
  }

  /** The header in the first page of the chain has 0 for its magic number. */
  ghost predicate HeaderErased(img: Image, chain: Chain) {
    img.Valid() && |chain| >= 1 && chain[0] < MAX_BLOCKS && HeaderOf(img.blocks[chain[0]][28..76]).magic == 0
  }

  lemma ErasedHeader(img: Image, chain: Chain)
    requires HeaderErased(img, chain)
    ensures img.Valid() && |chain| >= 1 && chain[0] < MAX_BLOCKS && |img.blocks[chain[0]]| == 256
    ensures HeaderOf(img.blocks[chain[0]][28..76]).magic == 0 != MAGIC_NUMBER
  {
  }

  lemma BlockSizes(img: Image)
    requires img.Valid()
    ensures |img.blocks| == MAX_BLOCKS && forall k :: 0 <= k < MAX_BLOCKS ==> |img.blocks[k]| == 256
  {
  }

  /** The file header is in the payload of the first page. */
  lemma HeaderInPage(img: Image, chain: Chain)
    requires img.Valid() && Placed(chain) && |chain| >= 1
    ensures chain[0] < MAX_BLOCKS && |img.blocks[chain[0]]| == 256 && |Stream(img, chain)| >= 48
    ensures img.blocks[chain[0]][28..76] == Stream(img, chain)[..48]
  {
  }

  lemma LiveLinked(img: Image, files: Files, n: nat)
    requires FsOk(img, files) && n in files
    ensures img.Valid() && n < MAX_INODES && Placed(files[n]) && Linked(img, files[n]) && StartsAt(img.INode(n), files[n])
    ensures img.INode(n).data.magic == MAGIC_NUMBER
  {
    LiveLinks(img, files, n);
    hide LinkOk, UsedOk, INodeOf, PageOf, MapBit, BitmapOk, FileOk;
  }

  /** What a deletion leaves: an entry that fits its chain, blocks that are free, and the contents in them. */
  ghost predicate StillThere(img: Image, n: nat, chain: Chain, contents: seq<Byte>)
    requires img.Valid() && n < MAX_INODES && Placed(chain)
  {
    && EntryOk(img, n, chain)
    && (forall i :: 0 <= i < |chain| ==> !img.Taken(chain[i]))
    && 48 + img.INode(n).usedBytes <= 228 * |chain|
    && Behind(Stream(img, chain), 48, img.INode(n).usedBytes) == contents
  }

  lemma StillThereFacts(img: Image, n: nat, chain: Chain, contents: seq<Byte>)
    requires img.Valid() && n < MAX_INODES && Placed(chain) && StillThere(img, n, chain, contents)
    ensures EntryOk(img, n, chain) && img.INode(n).data.magic == MAGIC_NUMBER && 48 + img.INode(n).usedBytes <= 228 * |chain|
    ensures forall i :: 0 <= i < |chain| ==> chain[i] < MAX_BLOCKS && !img.Taken(chain[i])
    ensures Behind(Stream(img, chain), 48, img.INode(n).usedBytes) == contents
  {
    hide ChainOk, Behind, Stream, INodeOf, MapBit;
  }

  lemma DeadEntry(img: Image, freed: Image, files: Files, n: nat, junk: seq<Byte>, head: seq<Byte>)
    requires FsOk(img, files) && n in files && freed.Valid() && |junk| == 48 && |head| == 512
    requires freed == img.(bitmap := freed.bitmap) && BitsCleared(img.bitmap, freed.bitmap, files[n])
    ensures n < MAX_INODES && Placed(files[n]) && |files[n]| > 0 && files[n][0] < MAX_BLOCKS
    ensures 48 + img.INode(n).usedBytes <= 228 * |files[n]|
    ensures var final := WithBlock(freed, files[n][0], 28, junk).(head := head);
            && final.INode(n) == img.INode(n)
            && StillThere(final, n, files[n], Behind(Stream(img, files[n]), 48, img.INode(n).usedBytes))
  {
    hide *;
    LiveEntry(img, files, n);
    var chain := files[n];
    EntryFacts(img, n, chain);
    DeadPages(img, freed, chain, img.INode(n).usedBytes, junk, head);
    var final := WithBlock(freed, chain[0], 28, junk).(head := head);
    BehindSplice(Stream(img, chain), junk, img.INode(n).usedBytes);
    DeadEntryIs(img, freed, final, n, chain, Behind(Stream(img, chain), 48, img.INode(n).usedBytes));
  }

  lemma DeadEntryIs(img: Image, freed: Image, final: Image, n: nat, chain: Chain, contents: seq<Byte>)
    requires img.Valid() && freed.Valid() && final.Valid() && n < MAX_INODES && EntryOk(img, n, chain) && Placed(chain)
    requires final.table == img.table && final.bitmap == freed.bitmap && BitsCleared(img.bitmap, freed.bitmap, chain)
    requires ChainOk(final, chain, img.INode(n).usedBytes) && 48 + img.INode(n).usedBytes <= 228 * |chain|
    requires contents == Behind(Stream(final, chain), 48, img.INode(n).usedBytes)
    ensures final.INode(n) == img.INode(n) && StillThere(final, n, chain, contents)
  {
    hide ChainOk, INodeOk, INodeOf, Behind, Stream, MapBit;
    forall i | 0 <= i < |chain| ensures !final.Taken(chain[i]) {
      assert chain[i] in chain;
    }
  }

  lemma DeadPages(img: Image, freed: Image, chain: Chain, size: nat, junk: seq<Byte>, head: seq<Byte>)
    requires img.Valid() && freed.Valid() && |junk| == 48 && |head| == 512 && Distinct(chain) && Placed(chain)
    requires freed == img.(bitmap := freed.bitmap) && ChainOk(img, chain, size)
    ensures |chain| > 0 && chain[0] < MAX_BLOCKS
    ensures var final := WithBlock(freed, chain[0], 28, junk).(head := head);
            && final.Valid() && ChainOk(final, chain, size) && final.table == img.table && final.bitmap == freed.bitmap
            && Stream(final, chain) == Splice(Stream(img, chain), 0, junk)
  {
    hide PageOf, LinkOk, UsedOk, Splice;
    PayloadWriteKeepsPages(freed, chain[0], 28, junk);
    StreamWrite(freed, chain, 0, 0, junk);
    SameStream(img, freed, chain);
    var final := WithBlock(freed, chain[0], 28, junk).(head := head);
    SameStream(WithBlock(freed, chain[0], 28, junk), final, chain);
    forall i | 0 <= i < |chain|
      ensures LinkOk(final.Page(chain[i]), chain, i) && UsedOk(final.Page(chain[i]).usedBytes, i, size)
    {
      assert final.Page(chain[i]) == freed.Page(chain[i]) == img.Page(chain[i]);
    }
  }

  lemma SameStream(img: Image, img': Image, chain: Chain)
    requires img.Valid() && img'.Valid() && Placed(chain) && img'.blocks == img.blocks
    ensures Stream(img', chain) == Stream(img, chain)
  {
  }

  lemma BehindSplice(bytes: seq<Byte>, junk: seq<Byte>, length: nat)
    requires |junk| == 48 && 48 + length <= |bytes|
    ensures Behind(Splice(bytes, 0, junk), 48, length) == Behind(bytes, 48, length)
  {
  }

  lemma BehindSlice(bytes: seq<Byte>, k: nat, length: nat, o: nat, n: nat)
    requires k + length <= |bytes| && o + n <= length
    ensures bytes[k + o..k + o + n] == Behind(bytes, k, length)[o..o + n]
  {
    SliceOfSlice(bytes, k, length, o, n);
  }

  /** A write through a dead inode's entry, within its blocks and in its place. */
  lemma RewrittenDead(img: Image, after: Image, files: Files, n: nat, chain: Chain, offset: U32, data: seq<Byte>, status: int, w: Rewrite)
    requires FsOk(img, files) && n !in files && n < MAX_INODES && img.Valid() && after.Valid() && Placed(chain) && EntryOk(img, n, chain)
    requires forall i :: 0 <= i < |chain| ==> chain[i] < MAX_BLOCKS && !img.Taken(chain[i])
    requires Rewritten(img, after, n, chain, offset, data, status, w)
    requires WriteOk(img.INode(n).usedBytes, offset, |data|) && 48 + offset + |data| <= 228 * |chain| && |chain| <= 4096
    ensures status == 0 && FsOk(after, files)
    ensures Stream(after, chain)[48 + offset..48 + offset + |data|] == data
    ensures forall i :: 0 <= i < |chain| ==> !after.Taken(chain[i])
    ensures forall j :: j in files ==> j < MAX_INODES && Placed(files[j]) && Stream(after, files[j]) == Stream(img, files[j])
    ensures forall j :: j in files ==> after.INode(j) == img.INode(j)
  {
    hide *;
    var size: nat := img.INode(n).usedBytes;
    EntryFacts(img, n, chain);
    RewrittenFacts(img, after, n, chain, offset, data, status, w);
    RoomFacts(img, size, chain, offset + |data|, w);
    assert chain + w.taken == chain;
    WrittenInPlace(img, chain, size, offset, data);
    var written := BlockWritten(img, chain, offset, data).0;
    FreeApart(img, files, chain);
    DeadWriteKeepsFs(img, written, files, n, chain, w.entry);
    ChainLinked(written, chain, Max(size, offset + |data|));
    EntrySet(written, n, w.entry, chain);
    SpliceReadsBack(Stream(img, chain), 48 + offset, data);
    DeadBits(img, written, n, w.entry, chain);
    OtherEntries(img, written, files, n, w.entry, chain);
  }

  lemma DeadBits(img: Image, written: Image, n: nat, entry: INodeDisk, chain: Chain)
    requires img.Valid() && written.Valid() && n < MAX_INODES && OnlyBlocks(img, written, chain)
    ensures forall k :: 0 <= k < MAX_BLOCKS ==> WithINode(written, n, entry).Taken(k) == img.Taken(k)
  {
    hide WithINode, MapBit;
  }

  lemma OtherEntries(img: Image, written: Image, files: Files, n: nat, entry: INodeDisk, chain: Chain)
    requires FsOk(img, files) && written.Valid() && n < MAX_INODES && OnlyBlocks(img, written, chain) && n !in files
    ensures forall j :: j in files ==> j < MAX_INODES && Placed(files[j]) && WithINode(written, n, entry).INode(j) == img.INode(j)
  {
    INodeWriteSetsINode(written, n, entry);
    hide WithINode, INodeOf, MapBit, ChainOk, INodeOk, Separate, BitmapOk;
    forall j | j in files ensures j < MAX_INODES && Placed(files[j]) && WithINode(written, n, entry).INode(j) == img.INode(j) {
      assert FileOk(img, j, files[j]);
    }
  }

  /** Without a chain for the inode there is no file system with it. */
  lemma NoFileSystem(img: Image, n: nat)
    requires img.Valid() && n < MAX_INODES
    ensures (forall c :: !FileOk(img, n, c)) ==> forall f: Files :: n in f ==> !FsOk(img, f)
  {
    hide FileOk, Separate, BitmapOk;
  }
}
