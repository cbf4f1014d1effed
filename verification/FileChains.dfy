/**
  The on-disk shape of files: each live inode owns a chain of blocks whose page headers are
  linked in order and whose used counts follow the file's length. A file's header and
  contents together form one stream of bytes laid over the payloads of its blocks.
 */
module FileChains {
  import opened Bytes
  import opened Ata
  import opened DiskLayout

  type Chain = seq<nat>

  /** How many payload bytes of page i a file of the given length fills, its header included. */
  function Held(i: nat, length: nat): (r: nat)
    ensures r <= 228
  {
    if 48 + length <= 228 * i then 0 else if 48 + length >= 228 * i + 228 then 228 else 48 + length - 228 * i
  }

  /** A page's links: a well-formed header pointing at the next block of the chain. */
  ghost predicate LinkOk(p: DiskPage, chain: Chain, i: nat) {
    && p.magic == MAGIC_NUMBER
    && p.disk == ATA0
    && p.totalLength == 256
    && (p.hasNextPage != 0 <==> i + 1 < |chain|)
    && (i + 1 < |chain| ==> p.nextSector == FILE_CONTENTS_INITIAL_SECTOR && p.nextOffset == 256 * chain[i + 1])
  }

  /** Full pages, then at most one partial page, then empty pages; a page never written to counts 0. */
  ghost predicate UsedOk(used: U32, i: nat, length: nat) {
    || used == 28 + Held(i, length)
    || (used == 0 && 48 + length <= 228 * i)
    || (used == 0 && i == 0 && length == 0)
  }

  ghost predicate Placed(chain: Chain) {
    forall i :: 0 <= i < |chain| ==> chain[i] < MAX_BLOCKS
  }

  ghost predicate ChainOk(img: Image, chain: Chain, length: nat)
    requires img.Valid()
  {
    && 1 <= |chain|
    && 48 + length <= 228 * |chain|
    && Placed(chain)
    && (forall i :: 0 <= i < |chain| ==> LinkOk(img.Page(chain[i]), chain, i))
    && (forall i :: 0 <= i < |chain| ==> UsedOk(img.Page(chain[i]).usedBytes, i, length))
  }

  ghost predicate INodeOk(inode: INodeDisk, chain: Chain) {
    && |chain| >= 1
    && inode.data.magic == MAGIC_NUMBER
    && inode.data.disk == ATA0
    && inode.data.nextSector == FILE_CONTENTS_INITIAL_SECTOR
    && inode.data.nextOffset == 256 * chain[0]
    && inode.blocks == |chain|
  }

  ghost predicate FileOk(img: Image, n: nat, chain: Chain)
    requires img.Valid()
  {
    && n < MAX_INODES
    && Placed(chain)
    && img.INodeTaken(n)
    && INodeOk(img.INode(n), chain)
    && ChainOk(img, chain, img.INode(n).usedBytes)
  }

  ghost predicate Distinct(chain: Chain) {
    forall i, j :: 0 <= i < |chain| && 0 <= j < |chain| && chain[i] == chain[j] ==> i == j
  }

  ghost predicate Disjoint(a: Chain, b: Chain) {
    forall i, j :: 0 <= i < |a| && 0 <= j < |b| ==> a[i] != b[j]
  }

  /** The chains of the live inodes. */
  type Files = map<nat, Chain>

  ghost predicate Owned(files: Files, k: nat) {
    exists n :: n in files && k in files[n]
  }

  /** No block belongs to two files, or twice to one. */
  ghost predicate Separate(files: Files) {
    && (forall n :: n in files ==> Distinct(files[n]))
    && (forall n, n' :: n in files && n' in files && n != n' ==> Disjoint(files[n], files[n']))
  }

  /** The set bits of the block bitmap are exactly the blocks of the files. */
  ghost predicate BitmapOk(img: Image, files: Files)
    requires img.Valid()
  {
    forall k :: 0 <= k < MAX_BLOCKS ==> (img.Taken(k) <==> Owned(files, k))
  }

  /** The kept invariant of the file system. */
  ghost predicate FsOk(img: Image, files: Files) {
    && img.Valid()
    && (forall n :: n in files ==> FileOk(img, n, files[n]))
    && Separate(files)
    && BitmapOk(img, files)
  }

  /** The file's bytes in order: its 48-byte header, then its contents and the room left. */
  ghost function Stream(img: Image, chain: Chain): (r: seq<Byte>)
    requires img.Valid() && Placed(chain)
    ensures |r| == 228 * |chain|
  {
    seq(228 * |chain|, v requires 0 <= v < 228 * |chain| => img.blocks[chain[v / 228]][28 + v % 228])
  }

  lemma StreamSlice(img: Image, chain: Chain, i: nat, o: nat, n: nat)
    requires img.Valid() && Placed(chain)
    requires i < |chain| && o + n <= 228
    ensures Stream(img, chain)[228 * i + o..228 * i + o + n] == img.blocks[chain[i]][28 + o..28 + o + n]
  {
    var part := Stream(img, chain)[228 * i + o..228 * i + o + n];
    forall k | 0 <= k < n
      ensures part[k] == img.blocks[chain[i]][28 + o..28 + o + n][k]
    {
      assert part[k] == Stream(img, chain)[228 * i + o + k];
      assert (228 * i + o + k) / 228 == i && (228 * i + o + k) % 228 == o + k;
    }
  }

  lemma ChainFacts(img: Image, chain: Chain, length: nat)
    requires img.Valid() && ChainOk(img, chain, length)
    ensures Placed(chain) && 1 <= |chain| && 48 + length <= 228 * |chain|
  {
  }

  lemma PageFacts(img: Image, chain: Chain, length: nat, i: nat)
    requires img.Valid() && ChainOk(img, chain, length) && i < |chain|
    ensures chain[i] < MAX_BLOCKS
    ensures LinkOk(img.Page(chain[i]), chain, i)
    ensures UsedOk(img.Page(chain[i]).usedBytes, i, length)
  {
  }

  /** A page that holds byte 228 * i + offset of the file's stream is full or holds the file's end. */
  lemma FullOrLast(used: U32, i: nat, length: nat, offset: nat)
    requires UsedOk(used, i, length) && 228 * i + offset < 48 + length && 1 <= i
    ensures 28 < used <= 256
    ensures used != 256 ==> 228 * i + used - 28 == 48 + length
  {
  }

  /** The same for the first page, where 48 more bytes of header precede the contents. */
  lemma FirstFullOrLast(used: U32, length: nat, offset: nat)
    requires UsedOk(used, 0, length) && offset <= length
    ensures used == 0 || 76 <= used <= 256
    ensures used == 0 ==> offset == length == 0
    ensures used != 0 && used != 256 ==> used - 76 == length
  {
  }

  /** A page that ends before the file does is full. */
  lemma FullBeforeEnd(used: U32, i: nat, length: nat)
    requires UsedOk(used, i, length) && 228 * (i + 1) <= 48 + length
    ensures used == 256
  {
  }

  lemma NothingRead(stream: seq<Byte>, start: nat)
    requires start <= |stream|
    ensures stream[start..start] == []
  {
  }

  /** A piece read from a page continues what was read before it. */
  lemma StreamGrow(img: Image, chain: Chain, start: nat, sofar: seq<Byte>, i: nat, o: nat, part: seq<Byte>)
    requires img.Valid() && Placed(chain)
    requires i < |chain| && o + |part| <= 228 && start + |sofar| == 228 * i + o
    requires sofar == Stream(img, chain)[start..start + |sofar|]
    requires part == img.blocks[chain[i]][28 + o..28 + o + |part|]
    ensures sofar + part == Stream(img, chain)[start..start + |sofar + part|]
  {
    hide Stream;
    StreamSlice(img, chain, i, o, |part|);
    SliceAppend(Stream(img, chain), start, |sofar|, |part|);
  }

  /** Writing into the payload of one page splices the stream and leaves every page header alone. */
  lemma StreamWrite(img: Image, chain: Chain, i: nat, o: nat, d: seq<Byte>)
    requires img.Valid() && Distinct(chain) && Placed(chain)
    requires i < |chain| && o + |d| <= 228
    ensures var img' := WithBlock(img, chain[i], 28 + o, d);
            Stream(img', chain) == Splice(Stream(img, chain), 228 * i + o, d)
  {
    var img' := WithBlock(img, chain[i], 28 + o, d);
    var after := Splice(Stream(img, chain), 228 * i + o, d);
    forall v | 0 <= v < 228 * |chain|
      ensures Stream(img', chain)[v] == after[v]
    {
      if v / 228 == i {
        assert 228 * i <= v < 228 * i + 228;
      }
    }
  }

  /** The image after a write of d at offset o of block k. */
  ghost function WithBlock(img: Image, k: nat, o: nat, d: seq<Byte>): (r: Image)
    requires img.Valid() && k < MAX_BLOCKS && o + |d| <= 256
    ensures r.Valid()
    ensures r.head == img.head && r.table == img.table && r.bitmap == img.bitmap
    ensures forall j :: 0 <= j < MAX_BLOCKS && j != k ==> r.blocks[j] == img.blocks[j]
    ensures r.blocks[k] == Splice(img.blocks[k], o, d)
  {
    img.(blocks := img.blocks[k := Splice(img.blocks[k], o, d)])
  }

  lemma EntryWrite(table: seq<Byte>, n: nat, d: seq<Byte>, j: nat)
    requires |table| == 4608 && |d| == 36 && n < MAX_INODES && j < MAX_INODES
    ensures Splice(table, 36 * n, d)[36 * j..36 * j + 36] == if j == n then d else table[36 * j..36 * j + 36]
  {
    if j == n {
      SpliceReadsBack(table, 36 * n, d);
    } else {
      SpliceLeavesRest(table, 36 * n, d, 36 * j, 36);
    }
  }

  /** The image after inode entry n is set. */
  ghost function WithINode(img: Image, n: nat, inode: INodeDisk): (r: Image)
    requires img.Valid() && n < MAX_INODES
    ensures r.Valid()
    ensures r.head == img.head && r.bitmap == img.bitmap && r.blocks == img.blocks
  {
    img.(table := Splice(img.table, 36 * n, INodeBytes(inode)))
  }

  /** The image after the entry of an inode number from 128 on is set. */
  ghost function OverBitmap(img: Image, n: nat, inode: INodeDisk): (r: Image)
    requires img.Valid() && MAX_INODES <= n < 142
    ensures r.Valid()
  {
    img.(bitmap := Splice(img.bitmap, 36 * (n - 128), INodeBytes(inode)))
  }

  lemma INodeWriteSetsINode(img: Image, n: nat, inode: INodeDisk)
    requires img.Valid() && n < MAX_INODES
    ensures forall j :: 0 <= j < MAX_INODES ==> WithINode(img, n, inode).INode(j) == if j == n then inode else img.INode(j)
  {
    hide INodeOf, INodeBytes, Splice;
    INodeRoundTrip(inode);
    forall j | 0 <= j < MAX_INODES
      ensures WithINode(img, n, inode).INode(j) == if j == n then inode else img.INode(j)
    {
      EntryWrite(img.table, n, INodeBytes(inode), j);
    }
  }

  /** A page header depends only on the first 28 bytes of its block. */
  lemma PageOfPrefix(b: seq<Byte>, b': seq<Byte>)
    requires |b| >= 28 && |b'| >= 28 && b[..28] == b'[..28]
    ensures PageOf(b) == PageOf(b')
  {
    forall k | 0 <= k < 7
      ensures WordsOf(b, 7)[k] == WordsOf(b', 7)[k]
    {
      assert forall j :: 0 <= j < 28 ==> b[j] == b[..28][j] == b'[..28][j] == b'[j];
    }
  }

  lemma PayloadWriteKeepsPages(img: Image, k: nat, o: nat, d: seq<Byte>)
    requires img.Valid() && k < MAX_BLOCKS && 28 <= o && o + |d| <= 256
    ensures forall j :: 0 <= j < MAX_BLOCKS ==> WithBlock(img, k, o, d).Page(j) == img.Page(j)
  {
    PageOfPrefix(img.blocks[k], WithBlock(img, k, o, d).blocks[k]);
  }

  lemma PageWriteSetsPage(img: Image, k: nat, p: DiskPage)
    requires img.Valid() && k < MAX_BLOCKS
    ensures var img' := WithBlock(img, k, 0, PageBytes(p));
            forall j :: 0 <= j < MAX_BLOCKS ==> img'.Page(j) == if j == k then p else img.Page(j)
  {
    var b := Splice(img.blocks[k], 0, PageBytes(p));
    assert b == PageBytes(p) + img.blocks[k][28..];
    PageRoundTrip(p, img.blocks[k][28..]);
  }

  /** Writing page headers does not touch any file's bytes. */
  lemma PageWriteKeepsStream(img: Image, k: nat, p: DiskPage, chain: Chain)
    requires img.Valid() && k < MAX_BLOCKS && Placed(chain)
    ensures Stream(WithBlock(img, k, 0, PageBytes(p)), chain) == Stream(img, chain)
  {
  }

  /** Chains on unchanged blocks keep their shape and their bytes. */
  lemma ChainFrame(img: Image, img': Image, chain: Chain, length: nat)
    requires img.Valid() && img'.Valid() && ChainOk(img, chain, length)
    requires forall i :: 0 <= i < |chain| ==> img'.blocks[chain[i]] == img.blocks[chain[i]]
    ensures ChainOk(img', chain, length)
    ensures Stream(img', chain) == Stream(img, chain)
  {
  }

  function Max(x: nat, y: nat): nat {
    if x > y then x else y
  }

  /** Only the given blocks differ. */
  ghost predicate OnlyBlocks(img: Image, img': Image, chain: Chain)
    requires img.Valid() && img'.Valid()
  {
    && img'.head == img.head && img'.table == img.table && img'.bitmap == img.bitmap
    && forall k :: 0 <= k < MAX_BLOCKS && k !in chain ==> img'.blocks[k] == img.blocks[k]
  }

  lemma OnlyBlocksKeepBitmap(a: Image, b: Image, chain: Chain)
    requires a.Valid() && b.Valid() && OnlyBlocks(a, b, chain)
    ensures b.bitmap == a.bitmap
  {
  }

  lemma OnlyBlocksTransitive(a: Image, b: Image, c: Image, chain: Chain)
    requires a.Valid() && b.Valid() && c.Valid()
    requires OnlyBlocks(a, b, chain) && OnlyBlocks(b, c, chain)
    ensures OnlyBlocks(a, c, chain)
  {
  }

  /** The pages before the one that holds file position pos are full. */
  predicate PagesBeforeFull(pos: nat, length: nat) {
    228 * ((48 + pos) / 228) <= 48 + length
  }

  lemma PageStartsInside(pos: nat, length: nat, i: nat, offset: nat)
    requires PagesBeforeFull(pos, length) && 48 + pos == 228 * i + offset
    ensures 228 * i <= 48 + length
    ensures offset >= 228 ==> 228 * (i + 1) <= 48 + length
  {
  }

  /**
    A write can start at offset in a file of the given length if it does not leave whole pages
    behind it unfilled: the pages before it are skipped by their used counts.
   */
  predicate WriteOk(length: nat, offset: nat, count: nat) {
    || offset <= length
    || (PagesBeforeFull(offset, length) && (count > 0 || offset < 180))
  }

  lemma WriteOkFacts(length: nat, offset: nat, count: nat)
    requires WriteOk(length, offset, count)
    ensures PagesBeforeFull(offset, length)
    ensures count == 0 && offset >= 180 ==> offset <= length
  {
  }

  /** The page header after count bytes were put at payload offset o. */
  function Grown(page: DiskPage, o: nat, count: nat): DiskPage
    requires o + count <= 228
  {
    if 28 + o + count > page.usedBytes then page.(usedBytes := 28 + o + count) else page
  }

  /** The image after a write into page i of a chain, whose header is rewritten if it grew. */
  ghost function WithPageData(img: Image, chain: Chain, i: nat, o: nat, d: seq<Byte>): (r: Image)
    requires img.Valid() && Placed(chain) && i < |chain| && o + |d| <= 228
    ensures r.Valid()
  {
    var page := img.Page(chain[i]);
    var written := WithBlock(img, chain[i], 28 + o, d);
    if 28 + o + |d| > page.usedBytes then WithBlock(written, chain[i], 0, PageBytes(Grown(page, o, |d|))) else written
  }

  lemma PageDataPages(img: Image, chain: Chain, i: nat, o: nat, d: seq<Byte>)
    requires img.Valid() && Placed(chain) && i < |chain| && o + |d| <= 228
    ensures forall k :: 0 <= k < MAX_BLOCKS ==>
      WithPageData(img, chain, i, o, d).Page(k) ==
        if k == chain[i] then Grown(img.Page(k), o, |d|) else img.Page(k)
  {
    hide PageOf, PageBytes, Splice;
    var page := img.Page(chain[i]);
    var written := WithBlock(img, chain[i], 28 + o, d);
    PayloadWriteKeepsPages(img, chain[i], 28 + o, d);
    PageWriteSetsPage(written, chain[i], Grown(page, o, |d|));
  }

  lemma PageDataStream(img: Image, chain: Chain, i: nat, o: nat, d: seq<Byte>)
    requires img.Valid() && Placed(chain) && Distinct(chain) && i < |chain| && o + |d| <= 228
    ensures Stream(WithPageData(img, chain, i, o, d), chain) == Splice(Stream(img, chain), 228 * i + o, d)
    ensures OnlyBlocks(img, WithPageData(img, chain, i, o, d), chain)
  {
    hide PageOf, PageBytes, Stream, Splice;
    var written := WithBlock(img, chain[i], 28 + o, d);
    StreamWrite(img, chain, i, o, d);
    PageWriteKeepsStream(written, chain[i], Grown(img.Page(chain[i]), o, |d|), chain);
  }

  /** Writing into page i, with every page before it full, keeps the chain's shape for the new length. */
  lemma PageDataKeepsChain(img: Image, chain: Chain, length: nat, i: nat, o: nat, d: seq<Byte>)
    requires img.Valid() && ChainOk(img, chain, length) && Distinct(chain)
    requires i < |chain| && o + |d| <= 228 && 228 * i <= 48 + length
    requires if i == 0 then o >= 48 else |d| > 0
    ensures ChainOk(WithPageData(img, chain, i, o, d), chain, Max(length, 228 * i + o + |d| - 48))
  {
    hide PageOf, PageBytes, Splice, WithPageData;
    PageDataPages(img, chain, i, o, d);
    var img', length' := WithPageData(img, chain, i, o, d), Max(length, 228 * i + o + |d| - 48);
    forall j | 0 <= j < |chain|
      ensures LinkOk(img'.Page(chain[j]), chain, j) && UsedOk(img'.Page(chain[j]).usedBytes, j, length')
    {
      assert UsedOk(img.Page(chain[j]).usedBytes, j, length);
      if j != i {
        assert chain[j] != chain[i];
      }
    }
  }
}
