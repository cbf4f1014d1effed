/**
  Where the disk manager keeps things on drive ATA0, and how its C structures lie in memory.

    sector 0        file system header (8 bytes), then the bitmap of inode numbers
    sectors 1..9    inode entries, 36 bytes each
    sector 10       bitmap of blocks
    sectors 11...   blocks of 256 bytes
 */
module DiskLayout {
  import opened Bytes

  const MAGIC_NUMBER: U32 := 123456
  const MAX_NAME_LENGTH := 24
  const INODES_INITIAL_SECTOR := 1
  const FILES_BIT_MAP_SECTOR := 10
  const FILE_CONTENTS_INITIAL_SECTOR := 11

  // Entry n of the inode table is at 512 + 36 * n: 128 entries fit below the block bitmap at 5120.
  const MAX_INODES := 128
  // One bit per block in a sector.
  const MAX_BLOCKS := 4096
  // sizeof(DiskPage) == 28, sizeof(FileHeader) == 48, sizeof(iNodeDisk) == 36,
  // FILE_BLOCK_OVERHEAD_SIZE_BYTES == 76, DISK_BLOCK_SIZE_BYTES == 256.

  datatype DiskPage = DiskPage(
    magic: U32, disk: U32, nextSector: U32, nextOffset: U32, totalLength: U32, usedBytes: U32, hasNextPage: U32)

  datatype INodeDisk = INodeDisk(data: DiskPage, blocks: U32, usedBytes: U32)

  datatype FileHeader = FileHeader(magic: U32, name: seq<Byte>, mask: U32, uid: U32, gid: U32, flags: U32, impl: U32) {
    predicate Valid() {
      |name| == MAX_NAME_LENGTH
    }
  }

  function PageWords(p: DiskPage): seq<U32> {
    [p.magic, p.disk, p.nextSector, p.nextOffset, p.totalLength, p.usedBytes, p.hasNextPage]
  }

  function PageBytes(p: DiskPage): (b: seq<Byte>)
    ensures |b| == 28
  {
    WordBytes(PageWords(p))
  }

  /** The page header at the start of a block. */
  function PageOf(b: seq<Byte>): DiskPage
    requires |b| >= 28
  {
    var w := WordsOf(b, 7);
    DiskPage(w[0], w[1], w[2], w[3], w[4], w[5], w[6])
  }

  lemma PageRoundTrip(p: DiskPage, rest: seq<Byte>)
    ensures PageOf(PageBytes(p) + rest) == p
  {
    WordsRoundTrip(PageWords(p), rest);
  }

  function INodeBytes(inode: INodeDisk): (b: seq<Byte>)
    ensures |b| == 36
  {
    WordBytes(PageWords(inode.data) + [inode.blocks, inode.usedBytes])
  }

  function INodeOf(b: seq<Byte>): INodeDisk
    requires |b| >= 36
  {
    var w := WordsOf(b, 9);
    INodeDisk(DiskPage(w[0], w[1], w[2], w[3], w[4], w[5], w[6]), w[7], w[8])
  }

  lemma INodeRoundTrip(inode: INodeDisk)
    ensures INodeOf(INodeBytes(inode)) == inode
  {
    var words := PageWords(inode.data) + [inode.blocks, inode.usedBytes];
    WordsRoundTrip(words, []);
    assert WordBytes(words) + [] == WordBytes(words);
  }

  function HeaderBytes(h: FileHeader): (b: seq<Byte>)
    requires h.Valid()
    ensures |b| == 48
  {
    U32Bytes(h.magic) + h.name + WordBytes([h.mask, h.uid, h.gid, h.flags, h.impl])
  }

  function HeaderOf(b: seq<Byte>): (h: FileHeader)
    requires |b| == 48
    ensures h.Valid()
  {
    var w := WordsOf(b[28..], 5);
    FileHeader(U32At(b, 0), b[4..28], w[0], w[1], w[2], w[3], w[4])
  }

  lemma HeaderRoundTrip(h: FileHeader)
    requires h.Valid()
    ensures HeaderOf(HeaderBytes(h)) == h
  {
    var b := HeaderBytes(h);
    var words := [h.mask, h.uid, h.gid, h.flags, h.impl];
    assert b[0..4] == U32Bytes(h.magic);
    U32RoundTrip(b, 0, h.magic);
    WordsRoundTrip(words, []);
    assert b[28..] == WordBytes(words) + [];
  }

  /** The word at a place, least significant byte first. */
  predicate WordIs(b: seq<Byte>, at: nat, n: U32) {
    at + 4 <= |b| &&
    var b0: int, b1: int, b2: int, b3: int := b[at], b[at + 1], b[at + 2], b[at + 3];
    b0 + 0x100 * b1 + 0x1_0000 * b2 + 0x100_0000 * b3 == n
  }

  lemma WordHere(b: seq<Byte>, at: nat, n: U32)
    requires at + 4 <= |b| && b[at..at + 4] == U32Bytes(n)
    ensures WordIs(b, at, n)
  {
    var w := b[at..at + 4];
    assert b[at] == w[0] && b[at + 1] == w[1] && b[at + 2] == w[2] && b[at + 3] == w[3];
    U32Digits(n);
  }

  lemma WordsPlaced(words: seq<U32>, front: seq<Byte>)
    ensures forall i :: 0 <= i < |words| ==> WordIs(front + WordBytes(words), |front| + 4 * i, words[i])
  {
    hide U32Bytes, WordIs;
    var b := front + WordBytes(words);
    forall i | 0 <= i < |words| ensures WordIs(b, |front| + 4 * i, words[i]) {
      assert b[|front| + 4 * i..|front| + 4 * i + 4] == U32Bytes(words[i]);
      WordHere(b, |front| + 4 * i, words[i]);
    }
  }

  /** Where the fields of a page header lie, little-endian words in the order of the C structure. */
  lemma PageFormat(p: DiskPage)
    ensures var b := PageBytes(p);
            && WordIs(b, 0, p.magic) && WordIs(b, 4, p.disk) && WordIs(b, 8, p.nextSector) && WordIs(b, 12, p.nextOffset)
            && WordIs(b, 16, p.totalLength) && WordIs(b, 20, p.usedBytes) && WordIs(b, 24, p.hasNextPage)
  {
    var words := PageWords(p);
    hide WordBytes, WordIs;
    WordsPlaced(words, []);
    assert [] + WordBytes(words) == WordBytes(words);
    assert WordIs(WordBytes(words), 4 * 0, words[0]) && WordIs(WordBytes(words), 4 * 1, words[1])
        && WordIs(WordBytes(words), 4 * 2, words[2]) && WordIs(WordBytes(words), 4 * 3, words[3])
        && WordIs(WordBytes(words), 4 * 4, words[4]) && WordIs(WordBytes(words), 4 * 5, words[5])
        && WordIs(WordBytes(words), 4 * 6, words[6]);
  }

  /** The fields of an inode entry: the page header first, then the two counts. */
  lemma INodeFormat(inode: INodeDisk)
    ensures INodeBytes(inode)[..28] == PageBytes(inode.data)
    ensures WordIs(INodeBytes(inode), 28, inode.blocks) && WordIs(INodeBytes(inode), 32, inode.usedBytes)
  {
    var words := PageWords(inode.data) + [inode.blocks, inode.usedBytes];
    assert WordBytes(words)[..28] == WordBytes(PageWords(inode.data)) by {
      hide U32Bytes;
      assert forall i :: 0 <= i < 28 ==> words[i / 4] == PageWords(inode.data)[i / 4];
    }
    hide WordBytes, WordIs;
    WordsPlaced(words, []);
    assert [] + WordBytes(words) == WordBytes(words);
    assert WordIs(WordBytes(words), 4 * 7, words[7]) && WordIs(WordBytes(words), 4 * 8, words[8]);
  }

  /** The fields of a file header: the magic number, the name, and five words. */
  lemma HeaderFormat(h: FileHeader)
    requires h.Valid()
    ensures var b := HeaderBytes(h);
            && WordIs(b, 0, h.magic) && b[4..28] == h.name && WordIs(b, 28, h.mask) && WordIs(b, 32, h.uid)
            && WordIs(b, 36, h.gid) && WordIs(b, 40, h.flags) && WordIs(b, 44, h.impl)
  {
    hide WordBytes, WordIs, U32Bytes;
    var words, b := [h.mask, h.uid, h.gid, h.flags, h.impl], HeaderBytes(h);
    var front := U32Bytes(h.magic) + h.name;
    assert b == front + WordBytes(words) && b[0..4] == U32Bytes(h.magic) && b[4..28] == h.name;
    WordHere(b, 0, h.magic);
    WordsPlaced(words, front);
    assert WordIs(b, 28 + 4 * 0, words[0]) && WordIs(b, 28 + 4 * 1, words[1]) && WordIs(b, 28 + 4 * 2, words[2])
        && WordIs(b, 28 + 4 * 3, words[3]) && WordIs(b, 28 + 4 * 4, words[4]);
  }

  /** The regions of the drive that the file system uses. */
  datatype Image = Image(head: seq<Byte>, table: seq<Byte>, bitmap: seq<Byte>, blocks: seq<seq<Byte>>) {
    ghost predicate Valid() {
      && |head| == 512 && |table| == 4608 && |bitmap| == 512
      && |blocks| == MAX_BLOCKS
      && forall k :: 0 <= k < |blocks| ==> |blocks[k]| == 256
    }

    /** Inode entry n. */
    ghost function INode(n: nat): INodeDisk
      requires Valid() && n < MAX_INODES
    {
      INodeOf(table[36 * n..36 * n + 36])
    }

    ghost predicate INodeTaken(n: nat)
      requires Valid() && n < 4032
    {
      MapBit(head[8..], n)
    }

    ghost predicate Taken(k: nat)
      requires Valid() && k < MAX_BLOCKS
    {
      MapBit(bitmap, k)
    }

    ghost function Page(k: nat): DiskPage
      requires Valid() && k < MAX_BLOCKS
    {
      PageOf(blocks[k])
    }
  }

  /** The part of a drive below its last file block. */
  const IMAGE_BYTES := 1054208  // 5632 + 256 * MAX_BLOCKS

  ghost function ImageOf(m: seq<Byte>): (img: Image)
    requires |m| >= 1054208
    ensures img.Valid()
  {
    Image(m[..512], m[512..5120], m[5120..5632],
      seq(MAX_BLOCKS, k requires 0 <= k < MAX_BLOCKS => m[5632 + 256 * k..5632 + 256 * k + 256]))
  }

  lemma ImageHeadWrite(m: seq<Byte>, a: nat, d: seq<Byte>)
    requires |m| >= 1054208 && a + |d| <= 512
    ensures ImageOf(Splice(m, a, d)) == ImageOf(m).(head := Splice(ImageOf(m).head, a, d))
  {
    LowWriteKeepsBlocks(m, a, d);
    SpliceLeavesRest(m, a, d, 512, 4608);
    SpliceLeavesRest(m, a, d, 5120, 512);
    SpliceWithin(m, 0, 512, a, d);
  }

  lemma ImageTableWrite(m: seq<Byte>, a: nat, d: seq<Byte>)
    requires |m| >= 1054208 && a + |d| <= 4608
    ensures ImageOf(Splice(m, 512 + a, d)) == ImageOf(m).(table := Splice(ImageOf(m).table, a, d))
  {
    LowWriteKeepsBlocks(m, 512 + a, d);
    SpliceLeavesRest(m, 512 + a, d, 0, 512);
    SpliceLeavesRest(m, 512 + a, d, 5120, 512);
    SpliceWithin(m, 512, 4608, a, d);
  }

  lemma ImageBitmapWrite(m: seq<Byte>, a: nat, d: seq<Byte>)
    requires |m| >= 1054208 && a + |d| <= 512
    ensures ImageOf(Splice(m, 5120 + a, d)) == ImageOf(m).(bitmap := Splice(ImageOf(m).bitmap, a, d))
  {
    LowWriteKeepsBlocks(m, 5120 + a, d);
    SpliceLeavesRest(m, 5120 + a, d, 0, 512);
    SpliceLeavesRest(m, 5120 + a, d, 512, 4608);
    SpliceWithin(m, 5120, 512, a, d);
  }

  lemma LowWriteKeepsBlocks(m: seq<Byte>, a: nat, d: seq<Byte>)
    requires |m| >= 1054208 && a + |d| <= 5632
    ensures ImageOf(Splice(m, a, d)).blocks == ImageOf(m).blocks
  {
    forall k | 0 <= k < MAX_BLOCKS
      ensures ImageOf(Splice(m, a, d)).blocks[k] == ImageOf(m).blocks[k]
    {
      SpliceLeavesRest(m, a, d, 5632 + 256 * k, 256);
    }
  }

  lemma ImageBlockWrite(m: seq<Byte>, k: nat, o: nat, d: seq<Byte>)
    requires |m| >= 1054208 && k < MAX_BLOCKS && o + |d| <= 256
    ensures ImageOf(Splice(m, 5632 + 256 * k + o, d))
         == ImageOf(m).(blocks := ImageOf(m).blocks[k := Splice(ImageOf(m).blocks[k], o, d)])
  {
    hide Splice;
    var m' := Splice(m, 5632 + 256 * k + o, d);
    forall j | 0 <= j < MAX_BLOCKS
      ensures ImageOf(m').blocks[j] == if j == k then Splice(ImageOf(m).blocks[k], o, d) else ImageOf(m).blocks[j]
    {
      if j == k {
        SpliceWithin(m, 5632 + 256 * k, 256, o, d);
      } else {
        SpliceLeavesRest(m, 5632 + 256 * k + o, d, 5632 + 256 * j, 256);
      }
    }
    SpliceLeavesRest(m, 5632 + 256 * k + o, d, 0, 512);
    SpliceLeavesRest(m, 5632 + 256 * k + o, d, 512, 4608);
    SpliceLeavesRest(m, 5632 + 256 * k + o, d, 5120, 512);
  }

  lemma ImageBlockRead(m: seq<Byte>, k: nat, o: nat, n: nat)
    requires |m| >= 1054208 && k < MAX_BLOCKS && o + n <= 256
    ensures m[5632 + 256 * k + o..5632 + 256 * k + o + n] == ImageOf(m).blocks[k][o..o + n]
  {
    SliceOfSlice(m, 5632 + 256 * k, 256, o, n);
  }

  lemma ImageTableRead(m: seq<Byte>, n: nat)
    requires |m| >= 1054208 && n < MAX_INODES
    ensures m[512 + 36 * n..512 + 36 * n + 36] == ImageOf(m).table[36 * n..36 * n + 36]
  {
    SliceOfSlice(m, 512, 4608, 36 * n, 36);
  }
}
