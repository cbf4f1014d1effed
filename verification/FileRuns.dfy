/** Whole runs of file operations against a map from inode numbers to byte strings. */
module FileRuns {
  import opened Bytes
  import opened DiskLayout
  import opened FileChains
  import opened Reservation
  import opened DiskManager

  /** A file as its users see it, with the number of blocks it holds. */
  datatype File = File(contents: seq<Byte>, blocks: nat)

  /** All files, and the number of free blocks. */
  datatype Store = Store(files: map<nat, File>, free: nat)

  datatype Request =
    | Creating(name: seq<Byte>, fields: FileHeader)
    | Writing(n: nat, data: seq<Byte>, offset: U32)
    | Reading(n: nat, length: U32, offset: U32, leftover: int)
    | Removing(n: nat)

  datatype Answer = Number(n: nat) | Contents(bytes: seq<Byte>) | Done

  /** The lowest number from k on that is not taken; 4032 if there is none. */
  function LowestFree(taken: set<nat>, k: nat): (n: nat)
    requires k <= 4032
    ensures k <= n <= 4032 && (n < 4032 ==> n !in taken) && forall j :: k <= j < n ==> j in taken
    decreases 4032 - k
  {
    if k == 4032 || k !in taken then k else LowestFree(taken, k + 1)
  }

  /**
    The request can be served: the inode number is below 128, there are enough free blocks, a write
    starts within or right behind the contents and a read ends within them.
   */
  predicate Admissible(s: Store, r: Request) {
    match r
    case Creating(name, fields) => LowestFree(s.files.Keys, 0) < MAX_INODES && s.free >= 1 && |name| < MAX_NAME_LENGTH
    case Writing(n, data, offset) =>
      && n in s.files && offset <= |s.files[n].contents| && offset + |data| < 0x1_0000_0000
      && BlocksAfter(s.files[n].blocks, offset + |data|) - s.files[n].blocks <= s.free
    case Reading(n, length, offset, leftover) =>
      n in s.files && offset + length <= |s.files[n].contents| && (leftover != 0 || offset < 180)
    case Removing(n) => n in s.files
  }

  function Applied(s: Store, r: Request): Store
    requires Admissible(s, r)
  {
    match r
    case Creating(name, fields) => Store(s.files[LowestFree(s.files.Keys, 0) := File([], 1)], s.free - 1)
    case Writing(n, data, offset) =>
      var file := s.files[n];
      var blocks := BlocksAfter(file.blocks, offset + |data|);
      Store(s.files[n := File(Overwrite(file.contents, offset, data), blocks)], s.free - (blocks - file.blocks))
    case Reading(_, _, _, _) => s
    case Removing(n) => Store(s.files - {n}, s.free + s.files[n].blocks)
  }

  function Answered(s: Store, r: Request): Answer
    requires Admissible(s, r)
  {
    match r
    case Creating(name, fields) => Number(LowestFree(s.files.Keys, 0))
    case Reading(n, length, offset, leftover) => Contents(s.files[n].contents[offset..offset + length])
    case _ => Done
  }

  lemma AdmissibleWrite(s: Store, n: nat, data: seq<Byte>, offset: U32)
    requires Admissible(s, Writing(n, data, offset))
    ensures n in s.files && offset <= |s.files[n].contents| && WriteOk(|s.files[n].contents|, offset, |data|)
    ensures 48 + offset + |data| > 228 * s.files[n].blocks ==> Estimate(offset + |data|) <= s.free
    ensures var blocks := s.files[n].blocks + if 48 + offset + |data| > 228 * s.files[n].blocks then Estimate(offset + |data|) else 0;
            Applied(s, Writing(n, data, offset))
              == Store(s.files[n := File(Overwrite(s.files[n].contents, offset, data), blocks)], s.free - (blocks - s.files[n].blocks))
  {
    hide Estimate, Overwrite;
  }

  lemma WrittenIs(was: seq<Byte>, now: seq<Byte>, offset: nat, data: seq<Byte>)
    requires Written(was, now, offset, data) && offset <= |was|
    ensures now == Overwrite(was, offset, data)
  {
    hide Overwrite;
  }

  lemma AdmissibleRead(s: Store, n: nat, length: U32, offset: U32, leftover: int)
    requires Admissible(s, Reading(n, length, offset, leftover))
    ensures n in s.files && offset + length <= |s.files[n].contents| && (leftover != 0 || offset < 180)
    ensures Answered(s, Reading(n, length, offset, leftover)) == Contents(s.files[n].contents[offset..offset + length])
  {
  }

  lemma AdmissibleRemove(s: Store, n: nat)
    requires Admissible(s, Removing(n))
    ensures n in s.files && Applied(s, Removing(n)) == Store(s.files - {n}, s.free + s.files[n].blocks)
  {
  }

  predicate AllAdmissible(s: Store, rs: seq<Request>)
    decreases |rs|
  {
    rs == [] || (Admissible(s, rs[0]) && AllAdmissible(Applied(s, rs[0]), rs[1..]))
  }

  function AppliedAll(s: Store, rs: seq<Request>): Store
    requires AllAdmissible(s, rs)
    decreases |rs|
  {
    if rs == [] then s else AppliedAll(Applied(s, rs[0]), rs[1..])
  }

  function AnsweredAll(s: Store, rs: seq<Request>): (answers: seq<Answer>)
    requires AllAdmissible(s, rs)
    ensures |answers| == |rs|
    decreases |rs|
  {
    if rs == [] then [] else [Answered(s, rs[0])] + AnsweredAll(Applied(s, rs[0]), rs[1..])
  }

  /** The disk manager seen as a store. */
  class FileStore {
    const dm: DiskManager

    constructor (dm: DiskManager)
      ensures this.dm == dm
    {
      this.dm := dm;
    }

    /** The store a disk manager presents. */
    ghost function Shown(): Store
      requires dm.Valid()
      reads dm, dm.cache.cachedData, dm.cache.ata.primary, dm.cache.ata.secondary
    {
      Store(map n | n in dm.files :: File(dm.Contents(n), |dm.files[n]|), dm.FreeBlocks())
    }

    /** Every taken inode number belongs to a file: so it is after formatting, and after every operation. */
    ghost predicate NumbersUsed()
      requires dm.Valid()
      reads dm, dm.cache.cachedData, dm.cache.ata.primary, dm.cache.ata.secondary
    {
      && (forall n :: n in dm.files ==> n < MAX_INODES)
      && forall k :: 0 <= k < 4032 ==> (dm.Img().INodeTaken(k) <==> k in dm.files)
    }

    /** The map has exactly the files of the disk manager. */
    ghost predicate Mirrors(files: map<nat, File>)
      requires dm.Valid()
      reads dm, dm.cache.cachedData, dm.cache.ata.primary, dm.cache.ata.secondary
    {
      && (forall j: nat :: j in files <==> j in dm.files)
      && forall j: nat :: j in files ==> files[j] == File(dm.Contents(j), |dm.files[j]|)
    }

    lemma ShownMirrors()
      requires dm.Valid()
      ensures Mirrors(Shown().files) && Shown().free == dm.FreeBlocks()
    {
      hide dm.Valid, dm.Contents, dm.FreeBlocks;
    }

    lemma MirrorsShown(files: map<nat, File>)
      requires dm.Valid() && Mirrors(files)
      ensures Shown() == Store(files, dm.FreeBlocks())
    {
      hide dm.Valid, dm.Contents, dm.FreeBlocks;
      assert Shown().files == files;
    }

    twostate lemma ShownSame()
      requires old(dm.Valid()) && dm.Valid() && dm.Img() == old(dm.Img()) && dm.files == old(dm.files)
      ensures Shown() == old(Shown()) && (NumbersUsed() <==> old(NumbersUsed()))
    {
      hide dm.Valid, dm.Contents, dm.FreeBlocks, dm.Img;
      dm.SameImage();
      assert Shown().files == old(Shown()).files;
    }

    /** One file changed, the others stayed: the store changes in that file and in the number of free blocks. */
    twostate lemma ShownUpdate(n: nat)
      requires old(dm.Valid()) && dm.Valid() && n in dm.files && dm.files == old(dm.files)[n := dm.files[n]]
      requires forall j :: j in old(dm.files) && j != n ==> j in dm.files && dm.Contents(j) == old(dm.Contents(j))
      requires old(Mirrors(Shown().files))
      ensures Shown() == Store(old(Shown()).files[n := File(dm.Contents(n), |dm.files[n]|)], dm.FreeBlocks())
    {
      hide dm.Valid, dm.Contents, dm.FreeBlocks, Shown;
      MirrorsShown(old(Shown()).files[n := File(dm.Contents(n), |dm.files[n]|)]);
    }

    twostate lemma ShownRemoval(n: nat)
      requires old(dm.Valid()) && dm.Valid() && n in old(dm.files) && dm.files == old(dm.files) - {n}
      requires forall j :: j in dm.files ==> dm.Contents(j) == old(dm.Contents(j))
      ensures Shown() == Store(old(Shown()).files - {n}, dm.FreeBlocks())
    {
      hide dm.Valid, dm.Contents, dm.FreeBlocks;
      assert Shown().files == old(Shown()).files - {n};
    }

    /** A file of the store and the same file of the disk manager. */
    lemma Known(n: nat)
      requires dm.Valid()
      ensures n in Shown().files <==> n in dm.files
      ensures n in dm.files ==> Shown().files[n] == File(dm.Contents(n), |dm.files[n]|)
      ensures Shown().free == dm.FreeBlocks()
    {
      hide dm.Valid, dm.Contents, dm.FreeBlocks, Shown;
      ShownMirrors();
    }

    lemma NumbersSmall(n: nat)
      requires dm.Valid() && NumbersUsed() && n in dm.files
      ensures n < MAX_INODES
    {
      hide dm.Valid, dm.Img;
    }

    twostate lemma NumbersKept()
      requires old(dm.Valid()) && dm.Valid() && old(NumbersUsed())
      requires dm.Img().head == old(dm.Img()).head && dm.files.Keys == old(dm.files.Keys)
      ensures NumbersUsed()
    {
      hide dm.Valid, dm.Img, MapBit;
      assert forall n :: n in dm.files <==> n in dm.files.Keys;
      assert forall n :: n in old(dm.files) <==> n in old(dm.files).Keys;
    }

    lemma NoNumbers()
      requires dm.Valid() && dm.files == map[] && forall k :: 0 <= k < 4032 ==> !dm.Img().INodeTaken(k)
      ensures NumbersUsed()
    {
      hide dm.Valid, dm.Img, MapBit;
    }

    twostate lemma NumberTaken(n: nat)
      requires old(dm.Valid()) && dm.Valid() && old(NumbersUsed()) && n < MAX_INODES
      requires forall j :: j in dm.files <==> j == n || j in old(dm.files)
      requires forall k :: 0 <= k < 4032 ==> dm.Img().INodeTaken(k) == (k == n || old(dm.Img()).INodeTaken(k))
      ensures NumbersUsed()
    {
      hide dm.Valid, dm.Img, MapBit;
    }

    twostate lemma NumberReleased(n: nat)
      requires old(dm.Valid()) && dm.Valid() && old(NumbersUsed()) && dm.files == old(dm.files) - {n}
      requires forall j :: 0 <= j < 4032 ==> dm.Img().INodeTaken(j) == (j != n && old(dm.Img()).INodeTaken(j))
      ensures NumbersUsed()
    {
      hide dm.Valid, dm.Img, MapBit;
    }

    /** diskManager_writeContents as a step of the store. */
    method ServeWrite(n: nat, data: seq<Byte>, offset: U32)
      requires dm.Valid() && NumbersUsed() && Admissible(Shown(), Writing(n, data, offset))
      modifies dm, dm.cache.cachedData, dm.cache.ata.primary, dm.cache.ata.secondary
      ensures dm.Valid() && NumbersUsed() && Shown() == Applied(old(Shown()), Writing(n, data, offset))
      ensures forall j :: j in dm.files <==> j in old(dm.files)
      ensures old(dm.HeadersMarked()) ==> dm.HeadersMarked()
    {
      hide *;
      Known(n);
      AdmissibleWrite(Shown(), n, data, offset);
      NumbersSmall(n);
      ShownMirrors();
      var _ := dm.WriteContents(n, data, offset);
      WrittenIs(old(dm.Contents(n)), dm.Contents(n), offset, data);
      dm.OthersAre(n);
      dm.KeptContents(n);
      ShownUpdate(n);
      dm.FreeAfterWrite(n);
      assert dm.files.Keys == old(dm.files).Keys;
      NumbersKept();
      if old(dm.HeadersMarked()) {
        dm.WasMarked(n);
        dm.HeadersKept(n);
      }
    }

    /** diskManager_readContents as a step of the store. */
    method ServeRead(n: nat, length: U32, offset: U32, leftover: int) returns (bytes: seq<Byte>)
      requires dm.Valid() && NumbersUsed() && Admissible(Shown(), Reading(n, length, offset, leftover))
      modifies dm.cache.cachedData, dm.cache.ata.primary, dm.cache.ata.secondary
      ensures dm.Valid() && NumbersUsed() && Shown() == old(Shown())
      ensures old(dm.HeadersMarked()) ==> dm.HeadersMarked()
      ensures Answered(old(Shown()), Reading(n, length, offset, leftover)) == Contents(bytes)
    {
      hide *;
      Known(n);
      AdmissibleRead(Shown(), n, length, offset, leftover);
      NumbersSmall(n);
      var status;
      status, bytes := dm.ReadContents(n, length, offset, leftover);
      dm.SameImage();
      ShownSame();
      if old(dm.HeadersMarked()) {
        dm.AllMarked();
      }
    }

    /** diskManager_delete as a step of the store. */
    method ServeRemove(n: nat)
      requires dm.Valid() && NumbersUsed() && Admissible(Shown(), Removing(n))
      modifies dm, dm.cache.cachedData, dm.cache.ata.primary, dm.cache.ata.secondary
      ensures dm.Valid() && NumbersUsed() && Shown() == Applied(old(Shown()), Removing(n))
      ensures dm.files == old(dm.files) - {n}
      ensures old(dm.HeadersMarked()) ==> dm.HeadersMarked()
    {
      hide *;
      Known(n);
      AdmissibleRemove(Shown(), n);
      dm.Delete(n);
      dm.KeptOver();
      ShownRemoval(n);
      dm.FreeAfterDelete(n);
      NumberReleased(n);
      if old(dm.HeadersMarked()) {
        dm.AllMarked();
      }
    }

    /** diskManager_nextInode and diskManager_createInode as a step of the store. */
    method ServeCreate(name: seq<Byte>, fields: FileHeader) returns (n: nat)
      requires dm.Valid() && NumbersUsed() && Admissible(Shown(), Creating(name, fields))
      modifies dm, dm.cache.cachedData, dm.cache.ata.primary, dm.cache.ata.secondary
      ensures dm.Valid() && NumbersUsed() && Shown() == Applied(old(Shown()), Creating(name, fields))
      ensures n == LowestFree(old(Shown()).files.Keys, 0)
      ensures old(dm.HeadersMarked()) ==> dm.HeadersMarked()
    {
      hide dm.Valid, dm.Img, dm.FreeBlocks, dm.HeadersMarked, dm.Contents, Shown, LowestFree, NumbersUsed;
      ShownMirrors();
      n := TakeNumber(Shown());
      ShownMirrors();
      CreateAt(n, name, fields);
    }

    method CreateAt(n: nat, name: seq<Byte>, fields: FileHeader)
      requires dm.Valid() && n < MAX_INODES && n !in dm.files && dm.FreeBlocks() >= 1 && |name| < MAX_NAME_LENGTH
      requires forall j :: j in dm.files ==> j < MAX_INODES
      requires forall k :: 0 <= k < 4032 ==> (dm.Img().INodeTaken(k) <==> k == n || k in dm.files)
      modifies dm, dm.cache.cachedData, dm.cache.ata.primary, dm.cache.ata.secondary
      ensures dm.Valid() && NumbersUsed()
      ensures Shown() == Store(old(Shown()).files[n := File([], 1)], old(dm.FreeBlocks()) - 1)
      ensures old(dm.HeadersMarked()) ==> dm.HeadersMarked()
    {
      hide dm.Valid, dm.Img, dm.Contents, dm.Length, dm.FileBytes, dm.Header, dm.FreeBlocks, dm.HeadersMarked, Shown;
      ShownMirrors();
      dm.CreateINode(n, name, fields);
      dm.KeptContents(n);
      ShownUpdate(n);
      EmptyContents(n);
      if old(dm.HeadersMarked()) {
        dm.HeadersKept(n);
      }
    }

    lemma EmptyContents(n: nat)
      requires dm.Valid() && n in dm.files && dm.Length(n) == 0
      ensures dm.Contents(n) == []
    {
      hide dm.Valid, dm.Length, dm.FileBytes;
    }

    /** diskManager_nextInode: the lowest number without a file. */
    method TakeNumber(ghost s: Store) returns (n: nat)
      requires dm.Valid() && NumbersUsed() && s == Shown() && LowestFree(s.files.Keys, 0) < MAX_INODES
      modifies dm.cache.cachedData, dm.cache.ata.primary, dm.cache.ata.secondary
      ensures dm.Valid() && dm.files == old(dm.files) && Shown() == s && n == LowestFree(s.files.Keys, 0) && n !in dm.files
      ensures forall j :: j in dm.files ==> j < MAX_INODES
      ensures forall k :: 0 <= k < 4032 ==> (dm.Img().INodeTaken(k) <==> k == n || k in dm.files)
      ensures old(dm.HeadersMarked()) ==> dm.HeadersMarked()
    {
      hide dm.Valid, dm.Img, dm.Contents, dm.Length, dm.FileBytes, dm.FreeBlocks, dm.HeadersMarked, Shown, LowestFree;
      ShownMirrors();
      var next := dm.NextINode();
      n := next;
      dm.KeptOver();
      ShownAlike();
      if old(dm.HeadersMarked()) {
        dm.AllMarked();
      }
    }

    twostate lemma ShownAlike()
      requires old(dm.Valid()) && dm.Valid() && dm.files == old(dm.files) && dm.FreeBlocks() == old(dm.FreeBlocks())
      requires forall j :: j in dm.files ==> dm.Contents(j) == old(dm.Contents(j))
      ensures Shown() == old(Shown())
    {
      hide dm.Valid, dm.Contents, dm.FreeBlocks;
      assert Shown().files == old(Shown()).files;
    }

    /** One request. */
    method Serve(r: Request) returns (answer: Answer)
      requires dm.Valid() && NumbersUsed() && Admissible(Shown(), r)
      modifies dm, dm.cache.cachedData, dm.cache.ata.primary, dm.cache.ata.secondary
      ensures dm.Valid() && NumbersUsed()
      ensures Shown() == Applied(old(Shown()), r) && answer == Answered(old(Shown()), r)
      ensures old(dm.HeadersMarked()) ==> dm.HeadersMarked()
    {
      hide dm.Valid, dm.HeadersMarked, Shown, NumbersUsed, Admissible;
      answer := Done;
      match r
      case Creating(name, fields) =>
        var n := ServeCreate(name, fields);
        answer := Number(n);
      case Writing(n, data, offset) =>
        ServeWrite(n, data, offset);
      case Reading(n, length, offset, leftover) =>
        var bytes := ServeRead(n, length, offset, leftover);
        answer := Contents(bytes);
      case Removing(n) =>
        ServeRemove(n);
    }

    /** Any run of admissible creates, writes, reads and deletes answers and ends like the same run on the store. */
    method Run(rs: seq<Request>) returns (answers: seq<Answer>)
      requires dm.Valid() && NumbersUsed() && AllAdmissible(Shown(), rs)
      modifies dm, dm.cache.cachedData, dm.cache.ata.primary, dm.cache.ata.secondary
      ensures dm.Valid() && NumbersUsed()
      ensures Shown() == AppliedAll(old(Shown()), rs) && answers == AnsweredAll(old(Shown()), rs)
      ensures old(dm.HeadersMarked()) ==> dm.HeadersMarked()
    {
      hide dm.Valid, dm.HeadersMarked, Shown, NumbersUsed, Admissible, Applied, Answered;
      ghost var s := Shown();
      answers := [];
      for i := 0 to |rs|
        invariant dm.Valid() && NumbersUsed() && (old(dm.HeadersMarked()) ==> dm.HeadersMarked())
        invariant AllAdmissible(Shown(), rs[i..])
        invariant AppliedAll(Shown(), rs[i..]) == AppliedAll(s, rs)
        invariant answers + AnsweredAll(Shown(), rs[i..]) == AnsweredAll(s, rs)
      {
        assert rs[i..][1..] == rs[i + 1..];
        var answer := Serve(rs[i]);
        answers := answers + [answer];
      }
    }

    /** The same from a freshly formatted drive. */
    method RunFormatted(maxNodes: U32, rs: seq<Request>) returns (answers: seq<Answer>)
      requires dm.cache.Valid() && AllAdmissible(Store(map[], MAX_BLOCKS), rs)
      modifies dm, dm.cache.cachedData, dm.cache.ata.primary, dm.cache.ata.secondary
      ensures dm.Valid() && NumbersUsed()
      ensures Shown() == AppliedAll(Store(map[], MAX_BLOCKS), rs)
      ensures answers == AnsweredAll(Store(map[], MAX_BLOCKS), rs)
      ensures dm.HeadersMarked()
    {
      hide dm.Valid, dm.FreeBlocks, dm.Img, AllAdmissible, AppliedAll, AnsweredAll;
      dm.WriteHeader(maxNodes);
      assert Shown() == Store(map[], MAX_BLOCKS);
      answers := Run(rs);
    }
  }

  /** The blocks held by the files with numbers below k. */
  function BlocksBelow(files: map<nat, File>, k: nat): nat {
    if k == 0 then 0 else BlocksBelow(files, k - 1) + if k - 1 in files then files[k - 1].blocks else 0
  }

  lemma {:induction false} BlocksBelowUpdate(files: map<nat, File>, after: map<nat, File>, n: nat, k: nat)
    requires forall j :: j != n ==> (j in files <==> j in after) && (j in files ==> files[j] == after[j])
    ensures BlocksBelow(after, k) - BlocksBelow(files, k)
         == if n < k then (if n in after then after[n].blocks else 0) - (if n in files then files[n].blocks else 0) else 0
    decreases k
  {
    if k > 0 {
      BlocksBelowUpdate(files, after, n, k - 1);
    }
  }

  /** No block is lost or made: free blocks and blocks of files add up to the same in every run. */
  lemma {:induction false} BlocksConserved(s: Store, rs: seq<Request>)
    requires AllAdmissible(s, rs) && forall n :: n in s.files ==> n < MAX_INODES
    ensures var e := AppliedAll(s, rs);
            && (forall n :: n in e.files ==> n < MAX_INODES)
            && e.free + BlocksBelow(e.files, MAX_INODES) == s.free + BlocksBelow(s.files, MAX_INODES)
    decreases |rs|
  {
    if rs != [] {
      hide Overwrite, Estimate;
      var after := Applied(s, rs[0]);
      var n := match rs[0]
        case Creating(_, _) => LowestFree(s.files.Keys, 0)
        case Writing(n, _, _) => n
        case Reading(n, _, _, _) => n
        case Removing(n) => n;
      BlocksBelowUpdate(s.files, after.files, n, MAX_INODES);
      BlocksConserved(after, rs[1..]);
    }
  }
}
