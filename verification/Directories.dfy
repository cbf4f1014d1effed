/**
  The directory operations of the file system, over the disk manager: a directory is a file of
  records and behaves as a finite map from names to inode numbers.
 */
module Directories {
  import opened Bytes
  import opened CStrings
  import opened Options
  import opened DiskLayout
  import opened DirRecords
  import opened DirSlots
  import opened EntryWrites
  import opened FileChains
  import opened Reservation
  import opened DiskManager

  /** The text at a record's name, whatever follows the record in the file. */
  lemma NameInContents(contents: seq<Byte>, k: nat)
    requires k < |contents| / 28 && 0 in RecordAt(contents, k).name
    ensures 0 in contents[28 * k + 4..]
    ensures Text(contents[28 * k + 4..]) == Text(RecordAt(contents, k).name)
  {
    var name, rest := RecordAt(contents, k).name, contents[28 * k + 28..];
    assert contents[28 * k + 4..] == name + rest;
    TextPrefix(name, rest);
  }

  lemma {:induction false} TextPrefix(b: seq<Byte>, rest: seq<Byte>)
    requires 0 in b
    ensures Text(b + rest) == Text(b) && 0 in b + rest
  {
    if b[0] != 0 {
      assert (b + rest)[1..] == b[1..] + rest;
      TextPrefix(b[1..], rest);
    }
  }

  lemma RecordsAt(contents: seq<Byte>, k: nat)
    requires k < |contents| / 28 && DirOk(Records(contents))
    ensures Records(contents)[k] == RecordAt(contents, k)
    ensures RecordOk(RecordAt(contents, k))
    ensures RecordAt(contents, k).inode == U32At(contents, 28 * k)
  {
    assert Records(contents)[k] == RecordAt(contents, k);
  }

  /** The search loop of fs_finddir. */
  method FindName(contents: seq<Byte>, name: seq<Byte>) returns (found: Option<U32>)
    requires |contents| % 28 == 0 && DirOk(Records(contents)) && 0 in name
    ensures var m := Entries(Records(contents));
            found == if Text(name) in m then Some(m[Text(name)]) else None
  {
    hide Text, Entries, RecordAt, DirOk, U32At, Records;
    ghost var rs := Records(contents);
    var offset := 0;
    ghost var k: nat := 0;
    while offset < |contents|
      invariant offset == 28 * k && k <= |contents| / 28
      invariant forall j: nat :: j < k ==> !Names(rs, j, Text(name))
      decreases |contents| - offset
    {
      RecordsAt(contents, k);
      var inodeNumber := U32At(contents, offset);
      offset := offset + 4;
      if inodeNumber != REMOVED {
        NameInContents(contents, k);
        var differs := StrCmp(name, contents[offset..]);
        if differs == 0 {
          assert Names(rs, k, Text(name));
          return Some(inodeNumber);
        }
      }
      offset := offset + 24;
      k := k + 1;
    }
    return None;
  }

  /** The search of _appendFile for a removed record: its offset, or the length of the contents. */
  method FindRemoved(contents: seq<Byte>) returns (offset: nat)
    requires |contents| % 28 == 0 && DirOk(Records(contents))
    ensures offset == 28 * FirstRemoved(Records(contents))
  {
    hide Text, RecordAt, DirOk, U32At, Records;
    ghost var rs := Records(contents);
    offset := 0;
    ghost var k: nat := 0;
    while offset < |contents|
      invariant offset == 28 * k && k <= |contents| / 28
      invariant forall j: nat :: j < k ==> rs[j].Live()
      decreases |contents| - offset
    {
      RecordsAt(contents, k);
      FreeTestExact(contents, k);
      if Signed(contents[offset]) == -1 {
        assert k == FirstRemoved(rs);
        return offset;
      }
      offset := offset + 28;
      k := k + 1;
    }
    assert k == FirstRemoved(rs);
  }

  /** The new contents of a directory after _appendFile. */
  method AppendRecord(contents: seq<Byte>, r: Record) returns (contents': seq<Byte>)
    requires |contents| % 28 == 0 && DirOk(Records(contents)) && r.Valid()
    ensures Records(contents') == Appended(Records(contents), r)
    ensures |contents'| % 28 == 0 && |contents| <= |contents'| <= |contents| + 28
  {
    hide Text, RecordAt, DirOk, U32At, RecordBytes, Appended;
    AppendedIs(Records(contents), r, FirstRemoved(Records(contents)));
    var offset := FindRemoved(contents);
    if offset < |contents| {
      RecordsReplace(contents, offset / 28, r);
      return Splice(contents, offset, RecordBytes(r));
    }
    RecordsAppend(contents, r);
    return contents + RecordBytes(r);
  }

  /** The search of fs_removedir behind the first three records: an offset, or -1. */
  method FindInode(contents: seq<Byte>, inode: U32) returns (offset: int)
    requires |contents| % 28 == 0
    ensures var rs := Records(contents);
            offset == if Target(rs, inode) == |rs| then -1 else 28 * Target(rs, inode)
  {
    hide RecordAt, U32At;
    ghost var rs := Records(contents);
    offset := 84;
    ghost var k: nat := 3;
    while offset < |contents|
      invariant offset == 28 * k && (k <= |contents| / 28 || k == 3)
      invariant k <= |rs| ==> forall j :: 3 <= j < k ==> rs[j].inode != inode
      decreases |contents| - offset
    {
      RecordAtFields(contents, k);
      assert rs[k] == RecordAt(contents, k);
      var readInode := U32At(contents, offset);
      if readInode == inode {
        IndexOfIs(rs, inode, 3, k);
        return offset;
      }
      offset := offset + 28;
      k := k + 1;
    }
    if |rs| >= 3 {
      IndexOfIs(rs, inode, 3, |rs|);
    }
    return -1;
  }

  function IndexAnswer(live: seq<Record>, index: U32): Option<U32> {
    if index < |live| then Some(live[index].inode)
    else if index == 0xFFFF_FFFF && live == [] then Some(REMOVED)
    else None
  }

  /** The answer for every index: the live record behind the first that has as many live ones in between, or none. */
  lemma IndexAnswers(rs: seq<Record>, index: U32)
    requires |rs| < 0x1_0000_0000
    ensures var found := IndexAnswer(LiveFrom(rs, 1), index);
            && (forall k :: 1 <= k < |rs| && rs[k].Live() && CountLive(rs, 1, k) == index ==> found == Some(rs[k].inode))
            && (index >= CountLive(rs, 1, |rs|) ==>
                  found == if index == 0xFFFF_FFFF && CountLive(rs, 1, |rs|) == 0 then Some(REMOVED) else None)
  {
    hide LiveFrom, CountLive;
    forall k | 1 <= k < |rs| && rs[k].Live()
      ensures CountLive(rs, 1, k) < |LiveFrom(rs, 1)| && LiveFrom(rs, 1)[CountLive(rs, 1, k)] == rs[k]
    {
      LiveFromAt(rs, 1, k);
    }
    LiveFromSize(rs, 1);
  }

  lemma {:induction false} LiveBound(rs: seq<Record>, k: nat)
    requires k <= |rs|
    ensures |LiveFrom(rs, k)| <= |rs| - k
    decreases |rs| - k
  {
    if k < |rs| {
      LiveBound(rs, k + 1);
    }
  }

  lemma LiveEnd(rs: seq<Record>)
    ensures forall k :: k >= |rs| ==> LiveFrom(rs, k) == []
  {
  }

  lemma LiveStep(rs: seq<Record>, k: nat, live: seq<Record>, i: nat)
    requires k < |rs| && i <= |live| && LiveFrom(rs, k) == live[i..]
    ensures rs[k].Live() ==> i < |live| && live[i] == rs[k] && LiveFrom(rs, k + 1) == live[i + 1..]
    ensures !rs[k].Live() ==> LiveFrom(rs, k + 1) == live[i..]
  {
    var rest := LiveFrom(rs, k + 1);
    if rs[k].Live() {
      assert live[i..] == [rs[k]] + rest;
      assert live[i..][0] == rs[k] && live[i..][1..] == rest;
    } else {
      assert live[i..] == [] + rest == rest;
    }
  }

  /**
    The loop of fs_readdir: the inode number of the index-th live record behind the first one. For
    the greatest index the comparison with i - 1 holds if there was none at all.
   */
  method FindIndex(contents: seq<Byte>, index: U32) returns (found: Option<U32>)
    requires |contents| % 28 == 0 && |contents| < 0x1_0000_0000 && DirOk(Records(contents))
    ensures found == IndexAnswer(LiveFrom(Records(contents), 1), index)
    ensures var rs := Records(contents);
            && (forall k :: 1 <= k < |rs| && rs[k].Live() && CountLive(rs, 1, k) == index ==> found == Some(rs[k].inode))
            && (index >= CountLive(rs, 1, |rs|) ==>
                  found == if index == 0xFFFF_FFFF && CountLive(rs, 1, |rs|) == 0 then Some(REMOVED) else None)
  {
    hide Text, RecordAt, DirOk, U32At, Records, ToU32, LiveFrom, CountLive;
    ghost var rs := Records(contents);
    IndexAnswers(rs, index);
    ghost var live := LiveFrom(rs, 1);
    LiveEnd(rs);
    if 1 <= |rs| {
      LiveBound(rs, 1);
    }
    var inodeNumber: U32 := REMOVED;
    var i, offset := 0, 28;
    ghost var k: nat := 1;
    while i <= index && offset < |contents|
      invariant offset == 28 * k && (k <= |contents| / 28 || k == 1)
      invariant 0 <= i <= |live| && i <= index + 1
      invariant LiveFrom(rs, k) == live[i..]
      invariant i > 0 && i == index + 1 ==> inodeNumber == live[i - 1].inode
      invariant i == 0 ==> inodeNumber == REMOVED
      decreases |contents| - offset
    {
      RecordsAt(contents, k);
      LiveStep(rs, k, live, i);
      inodeNumber := U32At(contents, offset);
      offset := offset + 28;
      k := k + 1;
      if inodeNumber != REMOVED {
        i := i + 1;
      }
    }
    if ToU32(i - 1) == index {
      return Some(inodeNumber);
    }
    return None;
  }

  lemma EmptyDir(contents: seq<Byte>)
    requires contents == []
    ensures DirOk(Records(contents)) && |contents| % 28 == 0 && Slots(Records(contents)) == []
  {
  }

  lemma WholeSlice(contents: seq<Byte>)
    ensures contents[0..0 + |contents|] == contents
  {
  }

  lemma RecordsLength(contents: seq<Byte>)
    ensures |Records(contents)| == |contents| / 28
    ensures |contents| % 28 == 0 ==> |contents| == 28 * |Records(contents)|
  {
    hide Records;
  }

  lemma FromTheStart(length: nat, count: nat)
    ensures WriteOk(length, 0, count)
  {
  }

  lemma WholeWritten(was: seq<Byte>, now: seq<Byte>, content: seq<Byte>)
    requires Written(was, now, 0, content) && |content| >= |was|
    ensures now == content
  {
    OverwriteAll(was, content);
  }

  lemma NoName(name: seq<Byte>)
    requires |name| < MAX_NAME_LENGTH
    ensures var junk := seq(MAX_NAME_LENGTH - |name| - 1, _ => 0 as Byte); |junk| == MAX_NAME_LENGTH - |name| - 1
  {
  }

  lemma NewRecord(inode: U32, field: seq<Byte>, name: seq<Byte>, junk: seq<Byte>)
    requires inode < MAX_INODES && 0 !in name && field == name + [0] + junk && |field| == MAX_NAME_LENGTH
    ensures var r := Record(inode, field);
            r.Valid() && RecordOk(r) && r.Live() && Text(r.name) == name && SlotOf(r) == Item(name, inode)
  {
    assert field[|name|] == 0;
    TextOf(name, junk);
    hide Text;
  }

  lemma LinkRecord(inode: U32, header: FileHeader, name: seq<Byte>)
    requires inode < MAX_INODES && header.Valid() && 0 in header.name && Text(header.name) == name
    ensures var r := Record(inode, header.name);
            r.Valid() && RecordOk(r) && r.Live() && SlotOf(r) == Item(name, inode)
  {
    hide Text;
  }

  lemma Zero()
    ensures 0 < MAX_INODES == 128
  {
  }

  lemma AfterIs(rs: seq<Record>)
    ensures RecordsAfter(rs) == |rs| <==> !AllLive(rs)
  {
  }

  lemma HeaderName(header: FileHeader, name: seq<Byte>)
    requires header.Valid() && |name| < MAX_NAME_LENGTH && 0 !in name && header.name[..|name| + 1] == name + [0]
    ensures 0 in header.name && Text(header.name) == name
  {
    var field := header.name;
    assert field == name + [0] + field[|name| + 1..];
    assert field[|name|] == 0;
    TextOf(name, field[|name| + 1..]);
  }

  lemma Terminated(name: seq<Byte>)
    requires 0 !in name
    ensures 0 in name + [0] && Text(name + [0]) == name
  {
    TextOf(name, []);
    assert name + [0] + [] == name + [0];
    assert (name + [0])[|name|] == 0;
  }

  lemma WithinFile(length: nat, offset: nat, count: nat)
    requires offset <= length
    ensures WriteOk(length, offset, count) && |U32Bytes(REMOVED)| == 4
  {
  }

  lemma InsideWritten(was: seq<Byte>, now: seq<Byte>, offset: nat, data: seq<Byte>)
    requires Written(was, now, offset, data) && offset + |data| <= |was|
    ensures now == Overwrite(was, offset, data) && |now| == |was|
  {
    hide Overwrite;
  }

  class Directories {
    const dm: DiskManager

    constructor (dm: DiskManager)
      ensures this.dm == dm
    {
      this.dm := dm;
    }

    ghost predicate IsDir(n: nat)
      requires dm.Valid()
      reads dm, dm.cache.cachedData, dm.cache.ata.primary, dm.cache.ata.secondary
    {
      n in dm.files && n < MAX_INODES && |dm.Contents(n)| % 28 == 0 && DirOk(Records(dm.Contents(n)))
    }

    ghost function Dir(n: nat): seq<Record>
      requires dm.Valid() && n in dm.files
      reads dm, dm.cache.cachedData, dm.cache.ata.primary, dm.cache.ata.secondary
    {
      Records(dm.Contents(n))
    }

    /** The blocks one more record takes: none if a removed one is reused or the last block has room. */
    ghost function Growth(n: nat): nat
      requires dm.Valid() && n in dm.files
      reads dm, dm.cache.cachedData, dm.cache.ata.primary, dm.cache.ata.secondary
    {
      BlocksAfter(|dm.files[n]|, 28 * RecordsAfter(Dir(n))) - |dm.files[n]|
    }

    lemma DirFacts(n: nat)
      requires dm.Valid() && IsDir(n)
      ensures n in dm.files && n < MAX_INODES && Dir(n) == Records(dm.Contents(n)) && DirOk(Dir(n))
      ensures |dm.Contents(n)| == 28 * |Dir(n)| && |dm.Contents(n)| % 28 == 0
    {
      hide dm.Valid, dm.Contents, DirOk;
    }

    lemma DirIf(n: nat)
      requires dm.Valid() && n in dm.files && n < MAX_INODES && |dm.Contents(n)| % 28 == 0 && DirOk(Records(dm.Contents(n)))
      ensures IsDir(n) && Dir(n) == Records(dm.Contents(n)) && |dm.Contents(n)| == 28 * |Dir(n)|
    {
      hide dm.Valid, dm.Contents, DirOk;
    }

    lemma GrowthIs(n: nat, item: Slot)
      requires dm.Valid() && n in dm.files
      ensures Growth(n) == BlocksAfter(|dm.files[n]|, 28 * |Put(Slots(Dir(n)), item)|) - |dm.files[n]|
      ensures 48 + 28 * |Put(Slots(Dir(n)), item)| <= 228 * |dm.files[n]| ==> Growth(n) == 0
    {
      AppendedSlots(Dir(n), item);
      hide dm.Valid, Dir, RecordsAfter, Put, Estimate;
    }

    lemma GrowthNow(n: nat)
      requires dm.Valid() && n in dm.files
      ensures Growth(n) == BlocksAfter(|dm.files[n]|, 28 * RecordsAfter(Dir(n))) - |dm.files[n]|
    {
      hide dm.Valid, Dir, RecordsAfter, Estimate;
    }

    /** The whole contents of a directory file. */
    method ReadAll(n: nat) returns (contents: seq<Byte>)
      requires dm.Valid() && n in dm.files && n < MAX_INODES
      modifies dm.cache.cachedData, dm.cache.ata.primary, dm.cache.ata.secondary
      ensures dm.Valid() && dm.Img() == old(dm.Img()) && contents == dm.Contents(n)
    {
      hide *;
      var length := dm.Size(n);
      dm.SameImage();
      var leftover: int := *;
      var status;
      status, contents := dm.ReadContents(n, length, 0, leftover);
      dm.SameImage();
      WholeSlice(dm.Contents(n));
    }

    /** With the same image every directory is as before. */
    twostate lemma SameDirs()
      requires old(dm.Valid()) && dm.Valid() && dm.Img() == old(dm.Img()) && dm.files == old(dm.files)
      ensures forall j :: j in dm.files ==> Dir(j) == old(Dir(j)) && (IsDir(j) <==> old(IsDir(j))) && Growth(j) == old(Growth(j))
    {
      dm.SameImage();
      hide dm.Valid, dm.Img, dm.Contents, dm.FreeBlocks, DirOk, Records, RecordsAfter, BlocksAfter;
    }

    /** fs_finddir: the inode number of the live record with the name. */
    method FindDir(n: nat, name: seq<Byte>) returns (found: Option<U32>)
      requires dm.Valid() && IsDir(n) && 0 in name
      modifies dm.cache.cachedData, dm.cache.ata.primary, dm.cache.ata.secondary
      ensures dm.Valid() && dm.Img() == old(dm.Img())
      ensures found == if Text(name) in Entries(Dir(n)) then Some(Entries(Dir(n))[Text(name)]) else None
    {
      hide *;
      DirFacts(n);
      var contents := ReadAll(n);
      SameDirs();
      dm.SameImage();
      found := FindName(contents, name);
    }

    /** fs_readdir. */
    method ReadDir(n: nat, index: U32) returns (found: Option<U32>)
      requires dm.Valid() && IsDir(n)
      modifies dm.cache.cachedData, dm.cache.ata.primary, dm.cache.ata.secondary
      ensures dm.Valid() && dm.Img() == old(dm.Img())
      ensures found == IndexAnswer(LiveFrom(Dir(n), 1), index)
      ensures forall k :: 1 <= k < |Dir(n)| && Dir(n)[k].Live() && CountLive(Dir(n), 1, k) == index ==> found == Some(Dir(n)[k].inode)
      ensures index >= CountLive(Dir(n), 1, |Dir(n)|) ==>
        found == if index == 0xFFFF_FFFF && CountLive(Dir(n), 1, |Dir(n)|) == 0 then Some(REMOVED) else None
    {
      hide *;
      DirFacts(n);
      var contents := ReadAll(n);
      SameDirs();
      dm.SameImage();
      found := FindIndex(contents, index);
    }

    /** _appendFile, if the drive has the blocks one more record takes. */
    method AppendFile(n: nat, r: Record)
      requires dm.Valid() && IsDir(n) && r.Valid() && Growth(n) <= dm.FreeBlocks()
      modifies dm, dm.cache.cachedData, dm.cache.ata.primary, dm.cache.ata.secondary
      ensures dm.Valid() && n in dm.files && dm.files == old(dm.files)[n := dm.files[n]]
      ensures |dm.Contents(n)| % 28 == 0
      ensures Dir(n) == Appended(old(Dir(n)), r)
      ensures dm.Header(n) == old(dm.Header(n)) && dm.OthersKept(n) && dm.Img().head == old(dm.Img()).head
      ensures |dm.files[n]| == old(|dm.files[n]| + Growth(n)) && dm.FreeBlocks() == old(dm.FreeBlocks() - Growth(n))
      ensures old(Growth(n)) == 0 ==> dm.files == old(dm.files) && dm.Img().bitmap == old(dm.Img()).bitmap
    {
      hide *;
      DirFacts(n);
      GrowthNow(n);
      AppendedLength(Dir(n), r);
      var content := ReadAll(n);
      dm.SameImage();
      var content' := AppendRecord(content, r);
      RecordsLength(content');
      WriteWhole(n, content');
      DirNow(n);
      dm.OthersAre(n);
    }

    lemma DirNow(n: nat)
      requires dm.Valid() && n in dm.files
      ensures Dir(n) == Records(dm.Contents(n))
    {
      hide dm.Valid, dm.Contents, Records;
    }

    /** diskManager_writeContents of at least the whole contents from their start. */
    method WriteWhole(n: nat, content: seq<Byte>)
      requires dm.Valid() && n in dm.files && n < MAX_INODES && |content| >= |dm.Contents(n)|
      requires BlocksAfter(|dm.files[n]|, |content|) - |dm.files[n]| <= dm.FreeBlocks()
      modifies dm, dm.cache.cachedData, dm.cache.ata.primary, dm.cache.ata.secondary
      ensures dm.Valid() && n in dm.files && dm.files == old(dm.files)[n := dm.files[n]]
      ensures dm.Contents(n) == content && dm.Header(n) == old(dm.Header(n)) && dm.Img().head == old(dm.Img()).head
      ensures forall j :: j in old(dm.files) && j != n ==>
        dm.Length(j) == old(dm.Length(j)) && dm.FileBytes(j) == old(dm.FileBytes(j))
      ensures |dm.files[n]| == BlocksAfter(old(|dm.files[n]|), |content|)
      ensures dm.FreeBlocks() == old(dm.FreeBlocks()) - (|dm.files[n]| - old(|dm.files[n]|))
      ensures |dm.files[n]| == old(|dm.files[n]|) ==> dm.files == old(dm.files) && dm.Img().bitmap == old(dm.Img()).bitmap
    {
      hide *;
      BlocksAre(|dm.files[n]|, |content|);
      FromTheStart(|dm.Contents(n)|, |content|);
      var _ := dm.WriteContents(n, content, 0);
      WholeWritten(old(dm.Contents(n)), dm.Contents(n), content);
      dm.FreeAfterWrite(n);
    }

    /** Every directory but n, and every other file, is as before. */
    twostate lemma OtherDirs(n: nat)
      requires old(dm.Valid()) && dm.Valid() && dm.OthersKept(n)
      ensures forall j :: j in old(dm.files) && j != n ==>
        && j in dm.files && dm.files[j] == old(dm.files)[j] && dm.Header(j) == old(dm.Header(j))
        && dm.FileBytes(j) == old(dm.FileBytes(j)) && dm.Length(j) == old(dm.Length(j)) && dm.Contents(j) == old(dm.Contents(j))
        && Dir(j) == old(Dir(j)) && (IsDir(j) <==> old(IsDir(j))) && Growth(j) == old(Growth(j))
    {
      dm.KeptContents(n);
      dm.OthersFacts(n);
      hide dm.Valid, dm.Img, dm.Contents, dm.FreeBlocks, dm.Header, dm.FileBytes, dm.Length, DirOk, Records, RecordsAfter, BlocksAfter;
    }

    /** Files whose bytes and length stayed have the same contents, and are the same directories. */
    twostate lemma KeptDirs(n: nat)
      requires old(dm.Valid()) && dm.Valid()
      requires forall j :: j in dm.files && j in old(dm.files) && j != n ==>
        dm.FileBytes(j) == old(dm.FileBytes(j)) && dm.Length(j) == old(dm.Length(j))
      ensures forall j :: j in dm.files && j in old(dm.files) && j != n ==>
        && dm.Contents(j) == old(dm.Contents(j)) && Dir(j) == old(Dir(j)) && (IsDir(j) <==> old(IsDir(j)))
    {
      dm.KeptBytes(n);
      hide dm.Valid, dm.Img, dm.Contents, dm.FileBytes, dm.Length, DirOk, Records;
    }

    /** A legal name the directory does not hold, for a legal inode number. */
    static ghost predicate IsNew(rs: seq<Record>, inode: nat, name: seq<Byte>) {
      inode < MAX_INODES && 0 !in name && |name| < MAX_NAME_LENGTH && name !in Entries(rs)
    }

    static lemma NewFacts(rs: seq<Record>, inode: nat, name: seq<Byte>)
      ensures IsNew(rs, inode, name) <==> inode < MAX_INODES && 0 !in name && |name| < MAX_NAME_LENGTH && name !in Entries(rs)
    {
      hide Entries;
    }

    /**
      _appendFile of a fresh name that needs no further block. The name buffer is on the stack: the
      bytes behind the terminator are left over.
     */
    method AddRecord(n: nat, inode: U32, name: seq<Byte>, ghost rs: seq<Record>)
      requires dm.Valid() && IsDir(n) && Dir(n) == rs && IsNew(rs, inode, name) && Growth(n) == 0
      modifies dm, dm.cache.cachedData, dm.cache.ata.primary, dm.cache.ata.secondary
      ensures dm.Valid() && dm.files == old(dm.files) && IsDir(n)
      ensures Slots(Dir(n)) == Put(Slots(rs), Item(name, inode))
      ensures Entries(Dir(n)) == Entries(rs)[name := inode]
      ensures dm.Header(n) == old(dm.Header(n)) && dm.OthersKept(n)
      ensures dm.Img().head == old(dm.Img()).head && dm.Img().bitmap == old(dm.Img()).bitmap
    {
      hide *;
      DirFacts(n);
      NewFacts(rs, inode, name);
      NoName(name);
      var junk: seq<Byte> :| |junk| == MAX_NAME_LENGTH - |name| - 1;
      var field := name + [0] + junk;
      NewRecord(inode, field, name, junk);
      AppendAddsEntry(rs, Record(inode, field));
      SlotsAppended(rs, Record(inode, field));
      AppendFile(n, Record(inode, field));
      DirNow(n);
      DirIf(n);
    }

    /** _initInode_dir's three records in a new, empty directory: the root, itself and its parent. */
    method InitDir(n: U32, parent: U32)
      requires dm.Valid() && n in dm.files && n < MAX_INODES && parent < MAX_INODES
      requires |dm.Contents(n)| == 0 && |dm.files[n]| == 1
      modifies dm, dm.cache.cachedData, dm.cache.ata.primary, dm.cache.ata.secondary
      ensures dm.Valid() && dm.files == old(dm.files) && IsDir(n)
      ensures Slots(Dir(n)) == NewSlots(n, parent) && Entries(Dir(n)) == map[ROOT := 0, SELF := n, PARENT := parent]
      ensures dm.Header(n) == old(dm.Header(n)) && dm.OthersKept(n)
      ensures dm.Img().head == old(dm.Img()).head && dm.Img().bitmap == old(dm.Img()).bitmap
    {
      hide *;
      EmptyDir(dm.Contents(n));
      DirIf(n);
      NewSlotsFacts(n, parent);
      NewSlotsPut(n, parent);
      Zero();
      ReadyFor(n, 0, ROOT, []);
      AddRecord(n, 0, ROOT, Dir(n));
      dm.OthersFacts(n);
      label First:
      ReadyFor(n, n, SELF, [Item(ROOT, 0)]);
      AddRecord(n, n, SELF, Dir(n));
      dm.OthersFacts@First(n);
      label Second:
      ReadyFor(n, parent, PARENT, [Item(ROOT, 0), Item(SELF, n)]);
      AddRecord(n, parent, PARENT, Dir(n));
      dm.OthersFacts@Second(n);
      DirFacts(n);
      ListingIsEntries(Dir(n));
      dm.OthersAre(n);
    }

    /** One of the first records of a directory fits its only block. */
    lemma ReadyFor(n: nat, inode: U32, name: seq<Byte>, slots: seq<Slot>)
      requires dm.Valid() && IsDir(n) && |dm.files[n]| == 1 && Slots(Dir(n)) == slots && |slots| <= 2 && NoneVacant(slots)
      requires name !in Listing(slots) && inode < MAX_INODES && 0 !in name && |name| < MAX_NAME_LENGTH
      ensures IsNew(Dir(n), inode, name) && Growth(n) == 0
    {
      hide *;
      DirFacts(n);
      ListingIsEntries(Dir(n));
      NewFacts(Dir(n), inode, name);
      GrowthIs(n, Item(name, inode));
    }

    /** _initInode and _initInode_dir with a new inode number: a new empty file or directory. */
    method NewFile(name: seq<Byte>, directory: bool, parent: U32, fields: FileHeader) returns (n: U32)
      requires dm.Valid() && 0 !in name && |name| < MAX_NAME_LENGTH && parent < MAX_INODES
      requires exists k :: 0 <= k < MAX_INODES && !dm.Img().INodeTaken(k)
      requires dm.FreeBlocks() >= 1
      modifies dm, dm.cache.cachedData, dm.cache.ata.primary, dm.cache.ata.secondary
      ensures dm.Valid() && n < MAX_INODES && n in dm.files && n !in old(dm.files)
      ensures dm.files == old(dm.files)[n := dm.files[n]] && |dm.files[n]| == 1
      ensures !old(dm.Img()).INodeTaken(n) && forall k :: 0 <= k < n ==> old(dm.Img()).INodeTaken(k)
      ensures forall k :: 0 <= k < 4032 ==> dm.Img().INodeTaken(k) == (k == n || old(dm.Img()).INodeTaken(k))
      ensures if directory
              then IsDir(n) && Slots(Dir(n)) == NewSlots(n, parent) && Entries(Dir(n)) == map[ROOT := 0, SELF := n, PARENT := parent]
              else dm.Length(n) == 0
      ensures 0 in dm.Header(n).name && Text(dm.Header(n).name) == name
      ensures dm.Header(n) == fields.(magic := MAGIC_NUMBER, name := dm.Header(n).name)
      ensures dm.OthersKept(n)
      ensures dm.FreeBlocks() == old(dm.FreeBlocks()) - 1
    {
      hide *;
      Zero();
      var next := dm.NextINode();
      n := next;
      label Numbered:
      dm.CreateINode(n, name, fields);
      dm.OthersFacts@Numbered(n);
      HeaderName(dm.Header(n), name);
      dm.SameNumbers@Numbered();
      label Created:
      if directory {
        InitDir(n, parent);
        dm.SameBitmap@Created();
        dm.OthersFacts@Created(n);
        dm.SameNumbers@Created();
      }
      dm.OthersAre(n);
    }

    /** _appendFile without a name: the record takes the name in the file's header. */
    method AddLink(n: nat, inode: U32, name: seq<Byte>)
      requires dm.Valid() && IsDir(n) && inode in dm.files && inode < MAX_INODES && inode != n
      requires 0 in dm.Header(inode).name && Text(dm.Header(inode).name) == name && name !in Entries(Dir(n))
      requires Growth(n) <= dm.FreeBlocks()
      modifies dm, dm.cache.cachedData, dm.cache.ata.primary, dm.cache.ata.secondary
      ensures dm.Valid() && IsDir(n) && dm.files == old(dm.files)[n := dm.files[n]]
      ensures dm.Header(inode) == old(dm.Header(inode))
      ensures Dir(n) == Appended(old(Dir(n)), Record(inode, dm.Header(inode).name))
      ensures Slots(Dir(n)) == Put(old(Slots(Dir(n))), Item(name, inode))
      ensures Entries(Dir(n)) == old(Entries(Dir(n)))[name := inode]
      ensures |Dir(n)| == old(|Dir(n)|) <==> !AllLive(old(Dir(n)))
      ensures |dm.files[n]| == old(|dm.files[n]| + Growth(n)) && dm.FreeBlocks() == old(dm.FreeBlocks() - Growth(n))
      ensures dm.OthersKept(n) && dm.Img().head == old(dm.Img()).head
    {
      hide *;
      DirFacts(n);
      var header := dm.GetFileHeader(inode);
      dm.SameImage();
      SameDirs();
      label Read:
      ghost var r := Record(inode, header.value.name);
      LinkRecord(inode, header.value, name);
      AppendAddsEntry(Dir(n), r);
      AppendedLength(Dir(n), r);
      AfterIs(Dir(n));
      SlotsAppended(Dir(n), r);
      AppendFile(n, Record(inode, header.value.name));
      DirNow(n);
      DirIf(n);
      OtherDirs@Read(n);
      dm.OthersAre(n);
    }

    /** The part of fs_createdir behind its tests: a new file, and a record for it. */
    method MakeEntry(n: U32, name: seq<Byte>, directory: bool, fields: FileHeader) returns (inode: U32)
      requires dm.Valid() && IsDir(n) && 0 !in name && |name| < MAX_NAME_LENGTH && name !in Entries(Dir(n))
      requires exists k :: 0 <= k < MAX_INODES && !dm.Img().INodeTaken(k)
      requires dm.FreeBlocks() >= 1 + Growth(n)
      modifies dm, dm.cache.cachedData, dm.cache.ata.primary, dm.cache.ata.secondary
      ensures dm.Valid() && IsDir(n) && inode < MAX_INODES && inode in dm.files && inode !in old(dm.files)
      ensures forall k :: 0 <= k < inode ==> old(dm.Img()).INodeTaken(k)
      ensures forall k :: 0 <= k < 4032 ==> dm.Img().INodeTaken(k) == (k == inode || old(dm.Img()).INodeTaken(k))
      ensures dm.files == old(dm.files)[inode := dm.files[inode]][n := dm.files[n]]
      ensures Dir(n) == Appended(old(Dir(n)), Record(inode, dm.Header(inode).name)) && Text(dm.Header(inode).name) == name
      ensures dm.Header(inode) == fields.(magic := MAGIC_NUMBER, name := dm.Header(inode).name)
      ensures Slots(Dir(n)) == Put(old(Slots(Dir(n))), Item(name, inode))
      ensures Entries(Dir(n)) == old(Entries(Dir(n)))[name := inode]
      ensures |Dir(n)| == |old(Dir(n))| <==> !AllLive(old(Dir(n)))
      ensures |dm.files[inode]| == 1 && |dm.files[n]| == old(|dm.files[n]| + Growth(n))
      ensures dm.FreeBlocks() == old(dm.FreeBlocks() - 1 - Growth(n))
      ensures if directory
              then IsDir(inode) && Slots(Dir(inode)) == NewSlots(inode, n) && Entries(Dir(inode)) == map[ROOT := 0, SELF := inode, PARENT := n]
              else dm.Length(inode) == 0
      ensures forall j :: j in old(dm.files) && j != n ==>
        j in dm.files && dm.FileBytes(j) == old(dm.FileBytes(j)) && dm.Length(j) == old(dm.Length(j))
    {
      hide *;
      DirFacts(n);
      inode := NewFile(name, directory, n, fields);
      OtherDirs(inode);
      label Made:
      AddLink(n, inode, name);
      OtherDirs@Made(n);
      dm.SameNumbers@Made();
    }

    /**
      fs_createdir: a new file or directory with a fresh name in directory n. For one that is made
      there must be an inode number below 128 left, and blocks for the inode and the new record.
     */
    method CreateDir(n: U32, name: seq<Byte>, directory: bool, hasAccess: bool, fields: FileHeader)
      returns (result: int, error: int)
      requires dm.Valid() && IsDir(n) && 0 !in name && |name| < MAX_NAME_LENGTH
      requires hasAccess && name !in Entries(Dir(n)) ==>
        dm.FreeBlocks() >= 1 + Growth(n) && exists k :: 0 <= k < MAX_INODES && !dm.Img().INodeTaken(k)
      modifies dm, dm.cache.cachedData, dm.cache.ata.primary, dm.cache.ata.secondary
      ensures dm.Valid() && IsDir(n)
      ensures !hasAccess ==> result == -1 && error == E_ACCESS
      ensures hasAccess && name in old(Entries(Dir(n))) ==> result == -1 && error == E_FILE_EXISTS
      ensures result == -1 ==> dm.files == old(dm.files) && dm.Img() == old(dm.Img())
      ensures hasAccess && name !in old(Entries(Dir(n))) ==> 0 <= result < MAX_INODES && error == 0
      ensures result != -1 ==>
        && result in dm.files && result !in old(dm.files)
        && (forall k :: 0 <= k < result ==> old(dm.Img()).INodeTaken(k))
        && (forall k :: 0 <= k < 4032 ==> dm.Img().INodeTaken(k) == (k == result || old(dm.Img()).INodeTaken(k)))
        && dm.files == old(dm.files)[result := dm.files[result]][n := dm.files[n]]
        && Dir(n) == Appended(old(Dir(n)), Record(result, dm.Header(result).name)) && Text(dm.Header(result).name) == name
        && dm.Header(result) == fields.(magic := MAGIC_NUMBER, name := dm.Header(result).name)
        && Slots(Dir(n)) == Put(old(Slots(Dir(n))), Item(name, result))
        && Entries(Dir(n)) == old(Entries(Dir(n)))[name := result]
        && (|Dir(n)| == |old(Dir(n))| <==> !AllLive(old(Dir(n))))
        && |dm.files[result]| == 1 && |dm.files[n]| == old(|dm.files[n]| + Growth(n))
        && dm.FreeBlocks() == old(dm.FreeBlocks() - 1 - Growth(n))
        && (if directory
            then IsDir(result) && Slots(Dir(result)) == NewSlots(result, n)
              && Entries(Dir(result)) == map[ROOT := 0, SELF := result, PARENT := n]
            else dm.Length(result) == 0)
        && forall j :: j in old(dm.files) && j != n ==>
             dm.FileBytes(j) == old(dm.FileBytes(j)) && dm.Length(j) == old(dm.Length(j))
    {
      hide *;
      if !hasAccess {
        return -1, E_ACCESS;
      }
      DirFacts(n);
      Terminated(name);
      var found := FindDir(n, name + [0]);
      dm.SameImage();
      SameDirs();
      if found.Some? {
        return -1, E_FILE_EXISTS;
      }
      var inode := MakeEntry(n, name, directory, fields);
      return inode, 0;
    }

    /**
      fs_removedir: marks the first record with the inode number behind the first three removed
      and deletes the inode. Such records name live inodes other than the directory's own.
     */
    method RemoveDir(n: nat, inode: U32) returns (result: int)
      requires dm.Valid() && IsDir(n)
      requires Target(Dir(n), inode) < |Dir(n)| ==> inode in dm.files && inode != n
      modifies dm, dm.cache.cachedData, dm.cache.ata.primary, dm.cache.ata.secondary
      ensures dm.Valid() && IsDir(n)
      ensures var k := Target(old(Dir(n)), inode);
              if k == old(|Dir(n)|) then result == E_FILE_NOT_EXISTS && dm.files == old(dm.files) && dm.Img() == old(dm.Img())
              else
                && result == 0 && dm.files == old(dm.files) - {inode}
                && Dir(n) == old(Dir(n))[k := old(Dir(n))[k].(inode := REMOVED)]
                && Entries(Dir(n)) == old(Entries(Dir(n))) - {Text(old(Dir(n))[k].name)}
                && dm.FreeBlocks() == old(dm.FreeBlocks()) + |old(dm.files)[inode]|
                && (forall j :: 0 <= j < 4032 ==> dm.Img().INodeTaken(j) == (j != inode && old(dm.Img()).INodeTaken(j)))
                && forall j :: j in dm.files && j != n ==>
                     dm.FileBytes(j) == old(dm.FileBytes(j)) && dm.Length(j) == old(dm.Length(j))
    {
      hide *;
      DirFacts(n);
      var contents := ReadAll(n);
      dm.SameImage();
      SameDirs();
      var offset := FindInode(contents, inode);
      if offset == -1 {
        return E_FILE_NOT_EXISTS;
      }
      ghost var k := Target(Dir(n), inode);
      TargetLive(Dir(n), inode);
      RemoveDeletesEntry(Dir(n), k);
      label Read:
      ClearRecord(n, offset, k);
      DirNow(n);
      DirIf(n);
      OtherDirs@Read(n);
      dm.SameNumbers@Read();
      dm.SameBitmap@Read();
      label Cleared:
      dm.Delete(inode);
      dm.FreeAfterDelete@Cleared(inode);
      dm.KeptOver@Cleared();
      DirNow(n);
      DirIf(n);
      return 0;
    }

    lemma TargetLive(rs: seq<Record>, inode: U32)
      requires Target(rs, inode) < |rs| && DirOk(rs) && inode in dm.files && dm.Valid()
      ensures rs[Target(rs, inode)].Live() && rs[Target(rs, inode)].inode == inode && inode < MAX_INODES
    {
      hide DirOk, Target;
      dm.FilesAre();
      hide dm.Valid;
    }

    /** Writes -1 over a record's inode number. */
    method ClearRecord(n: nat, offset: nat, ghost k: nat)
      requires dm.Valid() && IsDir(n) && k < |Dir(n)| && offset == 28 * k
      modifies dm, dm.cache.cachedData, dm.cache.ata.primary, dm.cache.ata.secondary
      ensures dm.Valid() && dm.files == old(dm.files)
      ensures |dm.Contents(n)| == old(|dm.Contents(n)|)
      ensures Dir(n) == old(Dir(n))[k := old(Dir(n))[k].(inode := REMOVED)]
      ensures dm.OthersKept(n) && dm.Img().head == old(dm.Img()).head && dm.Img().bitmap == old(dm.Img()).bitmap
    {
      hide *;
      DirFacts(n);
      InsideFile(n, offset + 4);
      InodeReplace(dm.Contents(n), k, REMOVED);
      OverwriteInside(dm.Contents(n), offset, U32Bytes(REMOVED));
      WithinFile(|dm.Contents(n)|, offset, 4);
      var _ := dm.WriteContents(n, U32Bytes(REMOVED), offset);
      InsideWritten(old(dm.Contents(n)), dm.Contents(n), offset, U32Bytes(REMOVED));
      DirNow(n);
      dm.OthersAre(n);
    }

    lemma InsideFile(n: nat, end: nat)
      requires dm.Valid() && n in dm.files && end <= |dm.Contents(n)|
      ensures 48 + end <= 228 * |dm.files[n]|
    {
      hide dm.Valid, dm.Contents, dm.Length;
    }
  }
}
