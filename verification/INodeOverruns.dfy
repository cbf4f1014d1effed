/** The inode number behind the last entry of the table, reached by creating one inode after the other. */
module INodeOverruns {
  import opened Bytes
  import opened DeadInodes
  import opened DiskLayout
  import opened DiskManager
  import opened EntryWrites
  import opened FileChains
  import opened Reservation

  lemma NotOwned(img: Image, files: Files, n: nat)
    requires img.Valid() && n in files && files[n] == [0] && 0 < MAX_BLOCKS && !img.Taken(0)
    ensures !FsOk(img, files)
  {
    hide FileOk, Separate, MapBit;
    assert 0 in files[n];
    assert Owned(files, 0);
  }

  /** The magic number in entry 128 shows block 0 as free. */
  lemma FirstBlockShown(img: Image, inode: INodeDisk)
    requires img.Valid() && inode.data.magic == MAGIC_NUMBER
    ensures MAX_INODES <= 128 < 142 && 0 < MAX_BLOCKS && !OverBitmap(img, 128, inode).Taken(0)
  {
    hide INodeBytes, BitOf, MapBit, OverBitmap;
    OverBitmapBit(img, 128, inode, 0);
    MagicBits(inode, 0);
  }

  /**
    With all 128 entries in use, the 129th inode gets the number 128; when its entry is set, block 0
    is marked as free, although the first file has it.
   */
  method OverrunReached(d: DiskManager, name: seq<Byte>, fields: FileHeader) returns (next: int)
    requires d.Valid() && d.files == map[] && forall k: nat :: k < 4032 ==> !d.Img().INodeTaken(k)
    requires |name| < MAX_NAME_LENGTH
    modifies d, d.cache.cachedData, d.cache.ata.primary, d.cache.ata.secondary
    ensures next == 128 && d.cache.Valid() && 0 in d.files && d.files[0] == [0]
    ensures forall f: Files :: 0 in f && f[0] == [0] ==> !FsOk(d.Img(), f)
  {
    hide *;
    Small();
    NoFiles();
    d.EntriesOk();
    for i := 0 to 128
      invariant d.Valid() && d.cache.Valid() && FirstBlocks(d.files, i)
      invariant forall k: nat :: k < 4032 ==> (d.Img().INodeTaken(k) <==> k < i)
      invariant (forall j: nat :: j in d.files ==> j < i) && (i > 0 ==> 0 in d.files && d.files[0] == [0])
    {
      MakeNext(d, i, i, name, fields);
      d.EntriesOk();
    }
    d.EntriesOk();
    ghost var img := d.Img();
    assert !img.INodeTaken(128);
    next := d.NextINode();
    assert next == 128;
    FirstTaken(d, 128);
    var _, data, taken := d.Reserve(1);
    ReservedMagic(taken[0]);
    var inode := INodeDisk(data, 1, 0);
    ghost var reserved := d.Img();
    d.SetINode(128, inode);
    FirstBlockShown(reserved, inode);
    ImageSizes(d.Img());
    forall f: Files | 0 in f && f[0] == [0] ensures !FsOk(d.Img(), f) {
      NotOwned(d.Img(), f, 0);
    }
  }

  lemma ReservedMagic(k: nat)
    ensures ReservedPage(k, 1).magic == MAGIC_NUMBER
  {
  }
}
