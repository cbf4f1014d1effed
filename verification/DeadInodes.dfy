/**
  Writes and deletions through the entry of an inode that was deleted: when they leave the live
  files alone, and a run after which they do not.
 */
module DeadInodes {
  import opened Bytes
  import opened DiskLayout
  import opened DiskManager
  import opened EntryWrites
  import opened FileChains
  import opened PageWrites
  import opened Reservation
  import opened WritePosition

  /** A deletion through a dead entry leaves the file system sound exactly if no live file has a block linked behind it. */
  lemma DeadDeleteExact(img: Image, after: Image, files: Files, n: nat, chain: Chain, junk: seq<Byte>, bitmap: seq<Byte>)
    requires FsOk(img, files) && n !in files && Placed(chain) && Gone(img, after, n, chain, junk, bitmap)
    ensures after.Valid() && (FsOk(after, files) <==> Apart(files, chain))
    ensures Apart(files, chain) ==> forall j :: j in files ==> FileOk(img, j, files[j]) && Stream(after, files[j]) == Stream(img, files[j])
  {
    GoneFacts(img, after, n, chain, junk, bitmap);
    hide Gone, FileOk, Separate, BitmapOk, WithBlock, PutMapBit, MapBit, Disjoint, Stream;
    if Apart(files, chain) {
      GoneKeepsFs(img, after, files, n, chain, junk, bitmap);
    } else {
      var j :| j in files && !Disjoint(files[j], chain);
      LiveEntry(img, files, j);
      var i := SharedBlock(files[j], chain);
      TakenLost(img, after, files, files[j][i]);
    }
  }

  lemma SharedBlock(a: Chain, b: Chain) returns (i: nat)
    requires !Disjoint(a, b)
    ensures i < |a| && a[i] in b
  {
    i :| 0 <= i < |a| && a[i] in b;
  }

  lemma GoneKeepsFs(img: Image, after: Image, files: Files, n: nat, chain: Chain, junk: seq<Byte>, bitmap: seq<Byte>)
    requires FsOk(img, files) && n !in files && Placed(chain) && Gone(img, after, n, chain, junk, bitmap) && Apart(files, chain)
    ensures FsOk(after, files)
    ensures forall j :: j in files ==> FileOk(img, j, files[j]) && Stream(after, files[j]) == Stream(img, files[j])
  {
    GoneFacts(img, after, n, chain, junk, bitmap);
    GoneNumbers(img, after, n, chain, junk, bitmap);
    SameTable(img, after);
    hide INodeOf, PageOf, MapBit, Stream, PutMapBit, Gone, FileOk, Separate;
    forall k | 0 <= k < MAX_BLOCKS ensures after.Taken(k) == img.Taken(k) {
      if k in chain {
        assert !Owned(files, k);
      }
    }
    assert chain[0] in chain;
    ApartKeepsFs(img, after, files, n, chain);
  }

  lemma GoneNumbers(img: Image, after: Image, n: nat, chain: Chain, junk: seq<Byte>, bitmap: seq<Byte>)
    requires Gone(img, after, n, chain, junk, bitmap)
    ensures img.Valid() && after.Valid() && forall j :: 0 <= j < 4032 && j != n ==> after.INodeTaken(j) == img.INodeTaken(j)
  {
    hide MapBit, PutMapBit, WithBlock, BitsCleared;
    forall j: nat | 0 <= j < 4032 && j != n ensures after.INodeTaken(j) == img.INodeTaken(j) {
      PutMapBitIs(img.head[8..], n, false);
    }
  }

  /** Whatever the place, a write touches only blocks of the chain. */
  lemma WrittenOnly(img: Image, chain: Chain, offset: U32, data: seq<Byte>)
    requires img.Valid() && Linked(img, chain)
    ensures OnlyBlocks(img, BlockWritten(img, chain, offset, data).0, chain)
  {
    hide *;
    LinkedPlaced(img, chain);
    LinkedStart(img, chain);
    if offset < 180 {
      var k := Min(180 - offset, |data|);
      MinFacts(180 - offset, |data|);
      FirstPageWrites(img, chain, offset, data, k);
      PageDataLinks(img, chain, 0, 48 + offset, data[..k]);
      var middle := WithPageData(img, chain, 0, 48 + offset, data[..k]);
      LaidLinks(middle, chain, 1, 0, data[k..]);
      OnlyBlocksTransitive(img, middle, Laid(middle, chain, 1, 0, data[k..]), chain);
    } else {
      var place := Seek(UsedCounts(img, chain), 0, offset);
      LaterPageWrites(img, chain, offset, data, place);
      LaidLinks(img, chain, place.0, place.1, data);
    }
  }

  lemma DeadWritten(img: Image, after: Image, files: Files, n: nat, chain: Chain, offset: U32, data: seq<Byte>, entry: INodeDisk, done: bool)
    requires FsOk(img, files) && n !in files && n < MAX_INODES && img.Valid() && after.Valid() && Linked(img, chain) && Apart(files, chain)
    requires var r := BlockWritten(img, chain, offset, data); after == if done then WithINode(r.0, n, entry) else r.0
    ensures FsOk(after, files)
    ensures forall j :: j in files ==>
      j < MAX_INODES && Placed(files[j]) && Stream(after, files[j]) == Stream(img, files[j]) && after.INode(j) == img.INode(j)
  {
    var written := BlockWritten(img, chain, offset, data).0;
    WrittenOnly(img, chain, offset, data);
    INodeWriteSetsINode(written, n, entry);
    hide INodeOf, MapBit, Stream, WithINode, BlockWritten, Linked, Apart;
    ApartKeepsFs(img, after, files, n, chain);
    hide Separate, BitmapOk, ChainOk, INodeOk;
    assert forall j :: j in files ==> FileOk(img, j, files[j]);
  }

  /** A write through a dead entry changes no live file, if none has a block linked behind the entry. */
  method WriteThrough(d: DiskManager, n: nat, data: seq<Byte>, offset: U32, ghost chain: Chain) returns (status: int)
    requires d.Valid() && n < MAX_INODES && n !in d.files && d.Img().INode(n).data.magic == MAGIC_NUMBER
    requires Linked(d.Img(), chain) && StartsAt(d.Img().INode(n), chain) && Apart(d.files, chain)
    requires ToU32(offset + |data|) <= d.AvailableMem(d.Img().INode(n))
    modifies d.cache.cachedData, d.cache.ata.primary, d.cache.ata.secondary
    ensures d.Valid()
    ensures forall j :: j in d.files ==> d.FileBytes(j) == old(d.FileBytes(j)) && d.Length(j) == old(d.Length(j))
  {
    hide *;
    d.EntriesOk();
    d.FilesAre();
    ghost var img := d.Img();
    status := d.WriteFitting(n, data, offset, chain);
    DeadWritten(img, d.Img(), d.files, n, chain, offset, data, Covering(img.INode(n), ToU32(offset + |data|)), status == 0);
    d.ValidIf();
    d.FilesAre();
  }

  /** A deletion through a dead entry leaves the file system sound exactly if no live file has a block linked behind it. */
  method DeleteThrough(d: DiskManager, n: nat, ghost chain: Chain)
    requires d.Valid() && n < MAX_INODES && n !in d.files && d.Img().INode(n).data.magic == MAGIC_NUMBER
    requires Linked(d.Img(), chain) && StartsAt(d.Img().INode(n), chain)
    modifies d.cache.cachedData, d.cache.ata.primary, d.cache.ata.secondary
    ensures d.cache.Valid() && (d.Valid() <==> Apart(d.files, chain))
  {
    hide *;
    d.EntriesOk();
    LinksOf(d.Img(), chain);
    ghost var img := d.Img();
    ghost var junk, bitmap := d.DeleteEntry(n, chain);
    DeadDeleteExact(img, d.Img(), d.files, n, chain, junk, bitmap);
    ValidExactly(d);
  }

  lemma ValidExactly(d: DiskManager)
    requires d.cache.Valid()
    ensures d.Valid() <==> FsOk(d.Img(), d.files)
  {
    hide FsOk;
  }

  // ---- A run after which a write through a dead entry changes a live file ------

  /** Behind taken blocks the lowest clear bits are those that follow. */
  lemma {:induction false} LowestFollow(bitmap: seq<Byte>, taken: Chain, m: nat, i: nat)
    requires |bitmap| == 512 && LowestClear(bitmap, taken) && i < |taken|
    requires forall k :: 0 <= k < MAX_BLOCKS ==> (MapBit(bitmap, k) <==> k < m)
    ensures taken[i] == m + i
  {
    hide MapBit;
    var last := taken[|taken| - 1];
    assert taken[i] in taken && last in taken;
    if i > 0 {
      LowestFollow(bitmap, taken, m, i - 1);
    }
    assert taken[i] <= last && m + i <= taken[i];
    assert m + i in taken;
  }

  lemma OneLowest(bitmap: seq<Byte>, taken: Chain, m: nat)
    requires |bitmap| == 512 && LowestClear(bitmap, taken) && |taken| == 1
    requires forall k :: 0 <= k < MAX_BLOCKS ==> (MapBit(bitmap, k) <==> k < m)
    ensures taken == [m]
  {
    LowestFollow(bitmap, taken, m, 0);
  }

  lemma TwoLowest(bitmap: seq<Byte>, taken: Chain, m: nat)
    requires |bitmap| == 512 && LowestClear(bitmap, taken) && |taken| == 2
    requires forall k :: 0 <= k < MAX_BLOCKS ==> (MapBit(bitmap, k) <==> k < m)
    ensures taken == [m, m + 1]
  {
    LowestFollow(bitmap, taken, m, 0);
    LowestFollow(bitmap, taken, m, 1);
  }

  lemma {:induction false} FreeBehind(bitmap: seq<Byte>, m: nat, k: nat)
    requires |bitmap| == 512 && m <= k <= MAX_BLOCKS && forall x :: 0 <= x < MAX_BLOCKS ==> (MapBit(bitmap, x) <==> x < m)
    ensures FreeFrom(bitmap, k) == MAX_BLOCKS - k
    decreases MAX_BLOCKS - k
  {
    hide MapBit;
    if k < MAX_BLOCKS {
      FreeBehind(bitmap, m, k + 1);
    }
  }

  lemma {:induction false} FreeInAll(bitmap: seq<Byte>, m: nat, k: nat)
    requires |bitmap| == 512 && k <= m <= MAX_BLOCKS && forall x :: 0 <= x < MAX_BLOCKS ==> (MapBit(bitmap, x) <==> x < m)
    ensures FreeFrom(bitmap, k) == MAX_BLOCKS - m
    decreases m - k
  {
    hide MapBit;
    if k == m {
      FreeBehind(bitmap, m, k);
    } else {
      FreeInAll(bitmap, m, k + 1);
    }
  }

  /** The files have the first m blocks. */
  ghost predicate FirstBlocks(files: Files, m: nat) {
    forall k :: 0 <= k < MAX_BLOCKS ==> (Owned(files, k) <==> k < m)
  }

  lemma FirstTaken(d: DiskManager, m: nat)
    requires d.Valid() && FirstBlocks(d.files, m) && m <= MAX_BLOCKS
    ensures d.cache.Valid() && forall k :: 0 <= k < MAX_BLOCKS ==> (MapBit(d.Img().bitmap, k) <==> k < m)
    ensures d.FreeBlocks() == MAX_BLOCKS - m
  {
    hide MapBit, FileOk, Separate, Owned, FreeFrom, ImageOf, d.cache.Valid, d.cache.View;
    forall k | 0 <= k < MAX_BLOCKS ensures MapBit(d.Img().bitmap, k) <==> k < m {
      assert d.Img().Taken(k) <==> Owned(d.files, k);
    }
    FreeInAll(d.Img().bitmap, m, 0);
  }

  lemma NoFiles()
    ensures FirstBlocks(map[], 0)
  {
  }

  lemma OneMore(files: Files, n: nat, m: nat)
    requires FirstBlocks(files, m) && n !in files && m < MAX_BLOCKS
    ensures FirstBlocks(files[n := [m]], m + 1)
  {
    var more := files[n := [m]];
    assert more[n] == [m];
    forall k: nat | k < MAX_BLOCKS ensures Owned(more, k) <==> k < m + 1 {
      if Owned(files, k) {
        var j :| j in files && k in files[j];
        assert more[j] == files[j];
      }
      if k == m {
        assert k in more[n];
      }
    }
  }

  /** The next inode is created, where the numbers from n on and the blocks from m on are free. */
  method MakeNext(d: DiskManager, n: nat, ghost m: nat, name: seq<Byte>, fields: FileHeader)
    requires d.Valid() && n < 128 && n !in d.files && m < 4096 && FirstBlocks(d.files, m)
    requires forall k: nat :: k < 4032 ==> (d.Img().INodeTaken(k) <==> k < n)
    requires |name| < MAX_NAME_LENGTH
    modifies d, d.cache.cachedData, d.cache.ata.primary, d.cache.ata.secondary
    ensures d.Valid() && d.files == old(d.files)[n := [m]] && FirstBlocks(d.files, m + 1)
    ensures forall k: nat :: k < 4032 ==> (d.Img().INodeTaken(k) <==> k < n + 1)
    ensures n < MAX_INODES && d.Length(n) == 0 && INodeOk(d.Img().INode(n), [m])
    ensures forall j :: 0 <= j < MAX_INODES && j != n ==> d.Img().INode(j) == old(d.Img()).INode(j)
  {
    hide *;
    Small();
    OneMore(d.files, n, m);
    d.EntriesOk();
    ghost var img := d.Img();
    assert !img.INodeTaken(n);
    var next := d.NextINode();
    assert next == n;
    FirstTaken(d, m);
    SameTable(img, d.Img());
    ghost var middle := d.Img();
    ImageSizes(middle);
    label L:
    d.CreateINode(n, name, fields);
    OneLowest(middle.bitmap, d.files[n], m);
    d.SameNumbers@L();
    d.EntriesOk();
    EntryFacts(d.Img(), n, d.files[n]);
  }

  /** Two files are created and deleted again, and another one is created: the entry of the second is still there. */
  method MakeDeadEntry(d: DiskManager, name: seq<Byte>, fields: FileHeader)
    requires d.Valid() && d.files == map[] && forall k: nat :: k < 4032 ==> !d.Img().INodeTaken(k)
    requires |name| < MAX_NAME_LENGTH
    modifies d, d.cache.cachedData, d.cache.ata.primary, d.cache.ata.secondary
    ensures d.Valid() && d.files == map[0 := [0]] && d.Length(0) == 0
    ensures 1 < MAX_INODES && INodeOk(d.Img().INode(1), [1])
  {
    hide *;
    Small();
    NoFiles();
    MakeNext(d, 0, 0, name, fields);
    MakeNext(d, 1, 1, name, fields);
    d.EntriesOk();
    ghost var img := d.Img();
    d.Delete(1);
    d.EntriesOk();
    SameTable(img, d.Img());
    d.Delete(0);
    d.EntriesOk();
    SameTable(img, d.Img());
    assert d.files == map[];
    MakeNext(d, 0, 0, name, fields);
  }

  /** The file that is live grows over the block the dead entry names. */
  method GrowOver(d: DiskManager, data: seq<Byte>)
    requires d.Valid() && d.files == map[0 := [0]] && d.Length(0) == 0 && |data| == 229
    requires 1 < MAX_INODES && INodeOk(d.Img().INode(1), [1])
    modifies d, d.cache.cachedData, d.cache.ata.primary, d.cache.ata.secondary
    ensures d.Valid() && d.files == map[0 := [0, 1, 2]] && d.Contents(0) == data
    ensures INodeOk(d.Img().INode(1), [1])
  {
    hide *;
    Small();
    NoFiles();
    OneMore(map[], 0, 0);
    assert map[][0 := [0]] == d.files;
    FirstTaken(d, 1);
    GrowthFits();
    ghost var img := d.Img();
    ImageSizes(img);
    label L:
    ghost var was := d.Contents(0);
    d.FilesAre();
    var status := d.WriteContents(0, data, 0);
    TwoLowest(img.bitmap, d.files[0][1..], 1);
    WrittenFresh(was, d.Contents(0), data);
    assert d.files[0][0] == 0 && d.files[0][1..] == [1, 2];
    assert d.files[0] == [0, 1, 2];
  }

  lemma GrowthFits()
    ensures Estimate(229) == 2 && WriteOk(0, 0, 229)
  {
  }

  lemma WrittenFresh(was: seq<Byte>, now: seq<Byte>, data: seq<Byte>)
    requires Written(was, now, 0, data) && was == []
    ensures now == data
  {
    assert now[0..|data|] == now;
  }

  /** In a chain the pages behind the first are a chain of their own. */
  lemma TailLinked(img: Image, all: Chain)
    requires img.Valid() && Linked(img, all) && |all| > 1
    ensures Linked(img, all[1..])
  {
    hide PageOf;
    forall i | 0 <= i < |all| - 1 ensures LinkOk(img.Page(all[1..][i]), all[1..], i) {
      assert LinkOk(img.Page(all[i + 1]), all, i + 1);
    }
  }

  /** A file of 229 bytes has 49 of them in its second page. */
  lemma SecondPage(img: Image, files: Files, n: nat)
    requires FsOk(img, files) && n in files && n < MAX_INODES && |files[n]| > 1 && img.INode(n).usedBytes == 229
    ensures var all := files[n];
            && img.Valid() && Placed(all) && Distinct(all) && Linked(img, all) && Linked(img, all[1..]) && all[1] < MAX_BLOCKS
            && img.Page(all[1]).usedBytes == 77
  {
    var all := files[n];
    LiveLinked(img, files, n);
    LiveEntry(img, files, n);
    EntryFacts(img, n, all);
    hide FsOk, EntryOk, Linked, LinkOk, INodeOk, PageOf, INodeOf;
    TailLinked(img, all);
    assert UsedOk(img.Page(all[1]).usedBytes, 1, 229);
  }

  /** A byte written through an entry that names the second page of such a file. */
  lemma WrittenAcross(img: Image, files: Files, n: nat, dead: nat, x: Byte, entry: INodeDisk)
    requires FsOk(img, files) && n in files && n < MAX_INODES && |files[n]| > 1 && img.INode(n).usedBytes == 229
    requires Linked(img, files[n][1..]) && dead < MAX_INODES && dead !in files && Placed(files[n])
    ensures var r := BlockWritten(img, files[n][1..], 0, [x]); var after := WithINode(r.0, dead, entry);
            && r.1 == 0 && FsOk(after, files) && after.INode(n) == img.INode(n)
            && Stream(after, files[n]) == Splice(Stream(img, files[n]), 276, [x])
  {
    var all := files[n];
    SecondPage(img, files, n);
    OneByteWritten(img, all[1..], x);
    hide *;
    Small();
    var written := WithBlock(img, all[1], 76, [x]);
    PayloadWriteKeepsPages(img, all[1], 76, [x]);
    StreamWrite(img, all, 1, 48, [x]);
    INodeWriteSetsINode(written, dead, entry);
    var after := WithINode(written, dead, entry);
    SameBlocks(written, dead, entry, all);
    PayloadKeepsFs(img, after, files);
  }

  lemma SameBlocks(img: Image, n: nat, entry: INodeDisk, chain: Chain)
    requires img.Valid() && n < MAX_INODES && Placed(chain)
    ensures WithINode(img, n, entry).Valid() && WithINode(img, n, entry).head == img.head && WithINode(img, n, entry).bitmap == img.bitmap
    ensures forall k :: 0 <= k < MAX_BLOCKS ==> WithINode(img, n, entry).Page(k) == img.Page(k)
    ensures Stream(WithINode(img, n, entry), chain) == Stream(img, chain)
  {
    hide WithINode, PageOf;
    SameStream(img, WithINode(img, n, entry), chain);
  }

  lemma OneByteWritten(img: Image, chain: Chain, x: Byte)
    requires img.Valid() && Linked(img, chain) && |chain| >= 1 && chain[0] < MAX_BLOCKS && img.Page(chain[0]).usedBytes == 77
    ensures BlockWritten(img, chain, 0, [x]) == (WithBlock(img, chain[0], 76, [x]), 0)
  {
    LinkedPlaced(img, chain);
    FirstPageWrites(img, chain, 0, [x], 1);
    assert [x][..1] == [x] && [x][1..] == [];
    hide PageOf, Linked;
    LaidNothing(WithPageData(img, chain, 0, 48, [x]), chain, 1, 0, []);
  }

  /** Pages and entries of live files unchanged, the file system is still sound. */
  lemma PayloadKeepsFs(img: Image, after: Image, files: Files)
    requires FsOk(img, files) && after.Valid() && after.head == img.head && after.bitmap == img.bitmap
    requires forall k :: 0 <= k < MAX_BLOCKS ==> after.Page(k) == img.Page(k)
    requires forall j :: 0 <= j < MAX_INODES && j in files ==> after.INode(j) == img.INode(j)
    ensures FsOk(after, files)
  {
    hide PageOf, INodeOf, MapBit, Separate, LinkOk, UsedOk;
    forall j | j in files ensures FileOk(after, j, files[j]) {
      assert FileOk(img, j, files[j]);
    }
  }

  lemma ByteChanged(before: seq<Byte>, after: seq<Byte>, data: seq<Byte>, x: Byte)
    requires |before| >= 277 && |data| == 229 && Behind(before, 48, 229) == data && after == Splice(before, 276, [x])
    ensures |after| == |before| && Behind(after, 48, 229) == data[228 := x]
  {
    forall i | 0 <= i < 229 ensures Behind(after, 48, 229)[i] == data[228 := x][i] {
      SpliceAt(before, 276, [x], 48 + i);
      assert Behind(before, 48, 229)[i] == before[48 + i];
    }
  }

  lemma DeadStart(img: Image, files: Files)
    requires FsOk(img, files) && files == map[0 := [0, 1, 2]] && 1 < MAX_INODES && INodeOk(img.INode(1), [1])
    ensures StartsAt(img.INode(1), [1, 2]) && Linked(img, [1, 2]) && img.INode(1).data.magic == MAGIC_NUMBER && img.INode(1).blocks == 1
    ensures !Apart(files, [1, 2])
  {
    LiveLinked(img, files, 0);
    hide FsOk, Linked, INodeOf;
    TailLinked(img, files[0]);
    assert files[0][1..] == [1, 2] && files[0][1] == 1 && [1, 2][0] == 1;
  }

  /** After such a run a write to the deleted file changes a byte of the live one. */
  method WriteHitsLiveFile(d: DiskManager, name: seq<Byte>, fields: FileHeader, data: seq<Byte>, x: Byte)
    requires d.Valid() && d.files == map[] && forall k: nat :: k < 4032 ==> !d.Img().INodeTaken(k)
    requires |name| < MAX_NAME_LENGTH && |data| == 229
    modifies d, d.cache.cachedData, d.cache.ata.primary, d.cache.ata.secondary
    ensures d.Valid() && d.files == map[0 := [0, 1, 2]] && d.Contents(0) == data[228 := x]
  {
    hide *;
    Small();
    MakeDeadEntry(d, name, fields);
    GrowOver(d, data);
    d.EntriesOk();
    d.FilesAre();
    ghost var img := d.Img();
    DeadStart(img, d.files);
    assert d.files[0][1..] == [1, 2];
    FitsOneBlock(d, img.INode(1));
    var _ := d.WriteFitting(1, [x], 0, [1, 2]);
    WrittenAcross(img, d.files, 0, 1, x, Covering(img.INode(1), ToU32(0 + |[x]|)));
    d.ValidIf();
    d.FilesAre();
    ByteChanged(Stream(img, d.files[0]), Stream(d.Img(), d.files[0]), data, x);
  }

  lemma FitsOneBlock(d: DiskManager, inode: INodeDisk)
    requires inode.blocks == 1
    ensures ToU32(1) <= d.AvailableMem(inode)
  {
  }

  /** And deleting the deleted file again leaves blocks of the live one marked as free. */
  method DeleteHitsLiveFile(d: DiskManager, name: seq<Byte>, fields: FileHeader, data: seq<Byte>)
    requires d.Valid() && d.files == map[] && forall k: nat :: k < 4032 ==> !d.Img().INodeTaken(k)
    requires |name| < MAX_NAME_LENGTH && |data| == 229
    modifies d, d.cache.cachedData, d.cache.ata.primary, d.cache.ata.secondary
    ensures d.cache.Valid() && d.files == map[0 := [0, 1, 2]] && !FsOk(d.Img(), d.files)
  {
    hide *;
    Small();
    MakeDeadEntry(d, name, fields);
    GrowOver(d, data);
    d.EntriesOk();
    DeadStart(d.Img(), d.files);
    DeleteThrough(d, 1, [1, 2]);
    ValidExactly(d);
  }

  lemma Small()
    ensures 2 < MAX_INODES == 128 && MAX_BLOCKS == 4096
  {
  }
}
