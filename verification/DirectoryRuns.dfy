/** Whole runs of file system requests, on directories and plain files, against the tree of nodes. */
module DirectoryRuns {
  import opened Bytes
  import opened CStrings
  import opened DiskLayout
  import opened DirRecords
  import opened DirSlots
  import opened Directories
  import opened DiskManager
  import opened FileTrees
  import FileChains
  import opened Options
  import opened Reservation
  import FileRuns

  lemma EntryIs(rs: seq<Record>, index: U32)
    ensures IndexAnswer(LiveFrom(rs, 1), index) == EntryOf(NumbersFrom(Slots(rs), 1), index)
  {
    NumbersOfLive(rs, 1);
    hide LiveFrom, NumbersFrom;
  }

  lemma TargetIs(rs: seq<Record>, inode: U32)
    ensures Target(rs, inode) == Position(Slots(rs), inode, 3)
  {
    if |rs| >= 3 {
      PositionOfRecord(rs, inode, 3);
    }
  }

  lemma NodesChanged(before: map<nat, Node>, after: map<nat, Node>, n: nat)
    requires n in before && (forall j :: j in after <==> j in before)
    requires forall j :: j in before && j != n ==> after[j] == before[j]
    ensures after == before[n := after[n]]
  {
  }

  lemma NodesCreated(before: map<nat, Node>, after: map<nat, Node>, n: nat, m: nat)
    requires n in before && m !in before && forall j :: j in after <==> j == m || j in before
    requires forall j :: j in before && j != n ==> after[j] == before[j]
    ensures after == before[m := after[m]][n := after[n]]
  {
  }

  lemma NodesRemoved(before: map<nat, Node>, after: map<nat, Node>, n: nat, m: nat)
    requires n in before && m in before && m != n && forall j :: j in after <==> j != m && j in before
    requires forall j :: j in before && j != n && j != m ==> after[j] == before[j]
    ensures after == before[n := after[n]] - {m}
  {
  }

  datatype Creation = Creation(n: U32, m: U32, directory: bool)

  /** The file system over directories and a store of files on the same disk manager. */
  class FileTree {
    const ds: Directories
    const store: FileRuns.FileStore
    // The inode numbers of the directories.
    ghost var dirs: set<nat>

    constructor (ds: Directories, store: FileRuns.FileStore)
      requires store.dm == ds.dm
      ensures this.ds == ds && this.store == store
    {
      this.ds := ds;
      this.store := store;
    }

    ghost predicate Base()
      reads this, ds.dm, ds.dm.cache.cachedData, ds.dm.cache.ata.primary, ds.dm.cache.ata.secondary
    {
      && store.dm == ds.dm && ds.dm.Valid() && store.NumbersUsed()
      && (forall d :: d in dirs ==> d in ds.dm.files && ds.IsDir(d))
    }

    /** Inode n as its users see it. */
    ghost function NodeOf(n: nat): Node
      requires Base() && n in ds.dm.files
      reads this, ds.dm, ds.dm.cache.cachedData, ds.dm.cache.ata.primary, ds.dm.cache.ata.secondary
    {
      if n in dirs then Directory(Slots(ds.Dir(n)), |ds.dm.files[n]|) else Plain(ds.dm.Contents(n), |ds.dm.files[n]|)
    }

    /** The tree the disk manager presents. */
    ghost function Shown(): Tree
      requires Base()
      reads this, ds.dm, ds.dm.cache.cachedData, ds.dm.cache.ata.primary, ds.dm.cache.ata.secondary
    {
      Tree(map n | n in ds.dm.files :: NodeOf(n), ds.dm.FreeBlocks())
    }

    ghost predicate Valid()
      reads this, ds.dm, ds.dm.cache.cachedData, ds.dm.cache.ata.primary, ds.dm.cache.ata.secondary
    {
      Base() && Sound(Shown())
    }

    lemma ShownFacts()
      requires Base()
      ensures Shown().free == ds.dm.FreeBlocks() && Shown().nodes.Keys == ds.dm.files.Keys
      ensures forall n :: n in Shown().nodes <==> n in ds.dm.files
      ensures forall n :: n in ds.dm.files ==> Shown().nodes[n] == NodeOf(n)
      ensures forall d :: d in dirs ==> d in ds.dm.files
    {
      DirsAre();
      hide Base, NodeOf;
    }

    twostate lemma DirsBefore()
      requires old(Base())
      ensures old(ds.dm.Valid()) && old(store.NumbersUsed()) && store.dm == ds.dm
      ensures forall d :: d in old(dirs) ==> d in old(ds.dm.files)
    {
      hide ds.dm.Valid, ds.IsDir, store.NumbersUsed;
    }

    twostate lemma ShownBefore()
      requires old(Base())
      ensures forall n :: n in old(Shown()).nodes <==> n in old(ds.dm.files)
      ensures forall n :: n in old(ds.dm.files) ==> old(Shown()).nodes[n] == old(NodeOf(n))
    {
      hide Base, NodeOf;
    }

    lemma DirsAre()
      requires Base()
      ensures forall d :: d in dirs ==> d in ds.dm.files
    {
      hide ds.dm.Valid, ds.IsDir, store.NumbersUsed;
    }

    lemma ShownIs(nodes: map<nat, Node>)
      requires Base()
      requires forall n :: n in nodes <==> n in ds.dm.files
      requires forall n :: n in nodes ==> nodes[n] == NodeOf(n)
      ensures Shown() == Tree(nodes, ds.dm.FreeBlocks())
    {
      hide Base, NodeOf;
      assert Shown().nodes == nodes;
    }

    /** What a directory of the tree is on disk. */
    lemma FolderFacts(n: nat)
      requires Base() && IsFolder(Shown(), n)
      ensures ds.dm.Valid() && n in ds.dm.files && n in dirs && ds.IsDir(n) && n < MAX_INODES
      ensures Shown().nodes[n] == Directory(Slots(ds.Dir(n)), |ds.dm.files[n]|) && Shown().free == ds.dm.FreeBlocks()
      ensures DirOk(ds.Dir(n)) && Listing(Slots(ds.Dir(n))) == Entries(ds.Dir(n))
    {
      hide ds.dm.Valid, ds.IsDir, ds.Dir, store.NumbersUsed, DirOk, Slots, Entries;
      ShownFacts();
      ds.DirFacts(n);
      ListingIsEntries(ds.Dir(n));
    }

    /** With the same image and files the tree is the same. */
    twostate lemma ShownSame()
      requires old(Base()) && ds.dm.Valid() && ds.dm.Img() == old(ds.dm.Img()) && ds.dm.files == old(ds.dm.files) && dirs == old(dirs)
      ensures Base() && Shown() == old(Shown())
    {
      hide ds.dm.Valid, ds.dm.Img, ds.IsDir, ds.Dir, ds.dm.Contents, ds.dm.FreeBlocks, Slots, store.NumbersUsed;
      ds.SameDirs();
      ds.dm.SameImage();
      store.ShownSame();
      assert Shown().nodes == old(Shown()).nodes;
    }

    /** fs_finddir as a step on the tree. */
    method ServeFind(n: U32, name: seq<Byte>) returns (answer: Answer)
      requires Valid() && Admissible(Shown(), Finding(n, name))
      modifies ds.dm.cache.cachedData, ds.dm.cache.ata.primary, ds.dm.cache.ata.secondary
      ensures Valid() && Shown() == old(Shown()) && answer == Answered(Shown(), Finding(n, name))
    {
      hide *;
      ValidFacts();
      FindFacts(Shown(), n, name);
      FolderFacts(n);
      Terminated(name);
      var found := ds.FindDir(n, name + [0]);
      ds.SameDirs();
      ShownSame();
      ValidIf();
      answer := Inode(found);
    }

    /** fs_readdir as a step on the tree. */
    method ServeEntry(n: U32, index: U32) returns (answer: Answer)
      requires Valid() && Admissible(Shown(), Entering(n, index))
      modifies ds.dm.cache.cachedData, ds.dm.cache.ata.primary, ds.dm.cache.ata.secondary
      ensures Valid() && Shown() == old(Shown()) && answer == Answered(Shown(), Entering(n, index))
    {
      hide *;
      ValidFacts();
      EntryFacts(Shown(), n, index);
      FolderFacts(n);
      EntryIs(ds.Dir(n), index);
      var found := ds.ReadDir(n, index);
      ds.SameDirs();
      ShownSame();
      ValidIf();
      answer := Inode(found);
    }

    /** diskManager_readContents of a plain file as a step on the tree. */
    method ServeRead(n: U32, length: U32, offset: U32, leftover: int) returns (answer: Answer)
      requires Valid() && Admissible(Shown(), Reading(n, length, offset, leftover))
      modifies ds.dm.cache.cachedData, ds.dm.cache.ata.primary, ds.dm.cache.ata.secondary
      ensures Valid() && Shown() == old(Shown()) && answer == Answered(Shown(), Reading(n, length, offset, leftover))
    {
      hide *;
      ValidFacts();
      ReadFacts(Shown(), n, length, offset, leftover);
      PlainFacts(n);
      NumberFacts(n);
      var status, bytes := ds.dm.ReadContents(n, length, offset, leftover);
      ds.dm.SameImage();
      ShownSame();
      ValidIf();
      answer := Contents(bytes);
    }

    /** diskManager_writeContents of a plain file as a step on the tree. */
    method ServeWrite(n: U32, data: seq<Byte>, offset: U32) returns (answer: Answer)
      requires Valid() && Admissible(Shown(), Writing(n, data, offset))
      modifies ds.dm, ds.dm.cache.cachedData, ds.dm.cache.ata.primary, ds.dm.cache.ata.secondary
      ensures Valid() && Shown() == Applied(old(Shown()), Writing(n, data, offset)) && dirs == old(dirs)
      ensures answer == Answered(old(Shown()), Writing(n, data, offset))
    {
      hide *;
      ValidFacts();
      ghost var t := Shown();
      WriteFacts(t, n, data, offset);
      StepKeepsSound(t, Writing(n, data, offset));
      PlainFacts(n);
      NumberFacts(n);
      ShownFacts();
      var _ := ds.dm.WriteContents(n, data, offset);
      FileRuns.WrittenIs(old(ds.dm.Contents(n)), ds.dm.Contents(n), offset, data);
      ds.dm.FreeAfterWrite(n);
      assert ds.dm.files.Keys == old(ds.dm.files).Keys;
      store.NumbersKept();
      Rebased(n);
      ShownFacts();
      NodeIs(n);
      NodesChanged(t.nodes, Shown().nodes, n);
      ValidIf();
      answer := Done;
    }

    /** fs_createdir as a step on the tree. */
    method ServeCreate(n: U32, name: seq<Byte>, directory: bool, hasAccess: bool, fields: FileHeader) returns (answer: Answer)
      requires Valid() && Admissible(Shown(), Creating(n, name, directory, hasAccess, fields))
      modifies this`dirs, ds.dm, ds.dm.cache.cachedData, ds.dm.cache.ata.primary, ds.dm.cache.ata.secondary
      ensures Valid() && Shown() == Applied(old(Shown()), Creating(n, name, directory, hasAccess, fields))
      ensures answer == Answered(old(Shown()), Creating(n, name, directory, hasAccess, fields))
    {
      hide *;
      ValidFacts();
      ghost var t, r := Shown(), Creating(n, name, directory, hasAccess, fields);
      Limits();
      StepKeepsSound(t, r);
      CreateFacts(t, n, name, directory, hasAccess, fields);
      FolderFacts(n);
      if hasAccess && name !in Entries(ds.Dir(n)) {
        NextIsFree();
        ds.GrowthIs(n, Item(name, NextNumber(t)));
      }
      var result, error := ds.CreateDir(n, name, directory, hasAccess, fields);
      answer := Made(result, error);
      if result == -1 {
        ShownSame();
      } else {
        NextWas(result);
        dirs := if directory then dirs + {result} else dirs;
        CreateShown(Creation(n, result, directory));
        FreeShown();
      }
      ValidIf();
    }

    /** The lowest number without a node was the lowest clear inode bit. */
    twostate lemma NextWas(m: nat)
      requires old(Base()) && m < MAX_INODES && m !in old(ds.dm.files)
      requires forall k :: 0 <= k < m ==> old(ds.dm.Img()).INodeTaken(k)
      ensures NextNumber(old(Shown())) == m
    {
      hide ds.dm.Valid, ds.dm.Img, ds.IsDir, MapBit, Shown, NextNumber;
      ShownBefore();
      NextIs(old(Shown()), m);
    }

    lemma FreeShown()
      requires Base()
      ensures Shown().free == ds.dm.FreeBlocks()
    {
      hide Base, NodeOf;
    }

    /** What a directory's new node makes of the tree. */
    twostate lemma CreateShown(c: Creation)
      requires old(Base()) && store.dm == ds.dm && ds.dm.Valid() && c.m < MAX_INODES
      requires IsFolder(old(Shown()), c.n) && c.n in ds.dm.files && c.m in ds.dm.files && c.m !in old(ds.dm.files)
      requires c.n in old(ds.dm.files)
      requires ds.dm.files == old(ds.dm.files)[c.m as nat := ds.dm.files[c.m]][c.n as nat := ds.dm.files[c.n]]
      requires |ds.dm.files[c.m]| == 1
      requires forall k :: 0 <= k < 4032 ==> ds.dm.Img().INodeTaken(k) == (k == c.m || old(ds.dm.Img()).INodeTaken(k))
      requires forall j :: j in old(ds.dm.files) && j != c.n ==>
        ds.dm.FileBytes(j) == old(ds.dm.FileBytes(j)) && ds.dm.Length(j) == old(ds.dm.Length(j))
      requires ds.IsDir(c.n) && c.n in dirs
      requires if c.directory then ds.IsDir(c.m) else ds.dm.Length(c.m) == 0
      requires dirs == if c.directory then old(dirs) + {c.m as nat} else old(dirs)
      ensures Base()
      ensures Shown().nodes ==
        old(Shown()).nodes[c.m as nat := if c.directory then Directory(Slots(ds.Dir(c.m)), 1) else Plain([], 1)]
          [c.n as nat := Directory(Slots(ds.Dir(c.n)), |ds.dm.files[c.n]|)]
    {
      hide *;
      DirsBefore();
      store.NumberTaken(c.m);
      Rebased(c.n);
      ShownFacts();
      NodeIs(c.n);
      NodeIs(c.m);
      ShownBefore();
      NodesCreated(old(Shown()).nodes, Shown().nodes, c.n, c.m);
    }

    /** fs_removedir as a step on the tree. */
    method ServeRemove(n: U32, inode: U32) returns (answer: Answer)
      requires Valid() && Admissible(Shown(), Removing(n, inode))
      modifies this`dirs, ds.dm, ds.dm.cache.cachedData, ds.dm.cache.ata.primary, ds.dm.cache.ata.secondary
      ensures Valid() && Shown() == Applied(old(Shown()), Removing(n, inode))
      ensures answer == Answered(old(Shown()), Removing(n, inode))
    {
      hide *;
      ValidFacts();
      ghost var t, r := Shown(), Removing(n, inode);
      Limits();
      StepKeepsSound(t, r);
      RemoveFacts(t, n, inode);
      FolderFacts(n);
      ShownFacts();
      TargetIs(ds.Dir(n), inode);
      ghost var k := Target(ds.Dir(n), inode);
      if k < |ds.Dir(n)| {
        NodeIs(inode);
      }
      var result := ds.RemoveDir(n, inode);
      answer := Status(result);
      if result != 0 {
        ShownSame();
        ValidIf();
        return;
      }
      SlotsCleared(old(ds.Dir(n)), k);
      store.NumberReleased(inode);
      dirs := dirs - {inode};
      Rebased(n);
      ShownFacts();
      NodeIs(n);
      NodesRemoved(t.nodes, Shown().nodes, n, inode);
      ValidIf();
    }

    /** One request. */
    method Serve(r: Request) returns (answer: Answer)
      requires Valid() && Admissible(Shown(), r)
      modifies this`dirs, ds.dm, ds.dm.cache.cachedData, ds.dm.cache.ata.primary, ds.dm.cache.ata.secondary
      ensures Valid() && Shown() == Applied(old(Shown()), r) && answer == Answered(old(Shown()), r)
    {
      hide *;
      ValidFacts();
      match r
      case Creating(n, name, directory, hasAccess, fields) =>
        answer := ServeCreate(n, name, directory, hasAccess, fields);
      case Removing(n, inode) =>
        answer := ServeRemove(n, inode);
      case Finding(n, name) =>
        QueryKeeps(Shown(), r);
        answer := ServeFind(n, name);
      case Entering(n, index) =>
        QueryKeeps(Shown(), r);
        answer := ServeEntry(n, index);
      case Writing(n, data, offset) =>
        answer := ServeWrite(n, data, offset);
      case Reading(n, length, offset, leftover) =>
        QueryKeeps(Shown(), r);
        answer := ServeRead(n, length, offset, leftover);
    }

    /**
      Any run of creates, removes, look-ups, directory listings, writes and reads answers and ends
      like the same run on the tree.
     */
    method Run(rs: seq<Request>) returns (answers: seq<Answer>)
      requires Valid() && AllAdmissible(Shown(), rs)
      modifies this`dirs, ds.dm, ds.dm.cache.cachedData, ds.dm.cache.ata.primary, ds.dm.cache.ata.secondary
      ensures Valid()
      ensures Shown() == AppliedAll(old(Shown()), rs) && answers == AnsweredAll(old(Shown()), rs)
    {
      hide Valid, Base, Shown, Admissible, Applied, Answered;
      ValidFacts();
      ghost var t := Shown();
      answers := [];
      for i := 0 to |rs|
        invariant Valid() && Base()
        invariant AllAdmissible(Shown(), rs[i..])
        invariant AppliedAll(Shown(), rs[i..]) == AppliedAll(t, rs)
        invariant answers + AnsweredAll(Shown(), rs[i..]) == AnsweredAll(t, rs)
      {
        assert rs[i..][1..] == rs[i + 1..];
        var answer := Serve(rs[i]);
        ValidFacts();
        answers := answers + [answer];
      }
    }

    /** fs_create, up to its root directory, on any drive, and then the run. */
    method RunFormatted(maxNodes: U32, fields: FileHeader, rs: seq<Request>) returns (answers: seq<Answer>)
      requires store.dm == ds.dm && ds.dm.cache.Valid() && AllAdmissible(RootOnly(), rs)
      modifies this`dirs, ds.dm, ds.dm.cache.cachedData, ds.dm.cache.ata.primary, ds.dm.cache.ata.secondary
      ensures Valid()
      ensures Shown() == AppliedAll(RootOnly(), rs) && answers == AnsweredAll(RootOnly(), rs)
    {
      hide *;
      Format(maxNodes, fields);
      answers := Run(rs);
    }

    /** An empty file system with its root directory, inode 0. */
    method Format(maxNodes: U32, fields: FileHeader)
      requires store.dm == ds.dm && ds.dm.cache.Valid()
      modifies this`dirs, ds.dm, ds.dm.cache.cachedData, ds.dm.cache.ata.primary, ds.dm.cache.ata.secondary
      ensures Valid() && Shown() == RootOnly()
    {
      hide *;
      Limits();
      RootSound();
      RootName();
      ds.dm.WriteHeader(maxNodes);
      store.NoNumbers();
      ds.dm.EntriesOk();
      assert !ds.dm.Img().INodeTaken(0);
      label Empty:
      var root := ds.NewFile([47], true, 0, fields);
      dirs := {root};
      store.NumberTaken@Empty(root);
      BaseIf();
      NodeIs(0);
      RootIs(ds.dm.files);
      ShownIs(map[0 := NodeOf(0)]);
      ValidIf();
    }

    lemma BaseIf()
      requires store.dm == ds.dm && ds.dm.Valid() && store.NumbersUsed()
      requires forall d :: d in dirs ==> d in ds.dm.files && ds.IsDir(d)
      ensures Base()
    {
      hide ds.dm.Valid, ds.IsDir, store.NumbersUsed;
    }

    /** Files whose bytes stayed, and that are directories as before, are the same nodes. */
    twostate lemma Rebased(n: nat)
      requires old(Base()) && store.dm == ds.dm && ds.dm.Valid() && store.NumbersUsed()
      requires forall j :: j in ds.dm.files && j in old(ds.dm.files) && j != n ==>
        && ds.dm.FileBytes(j) == old(ds.dm.FileBytes(j)) && ds.dm.Length(j) == old(ds.dm.Length(j))
        && |ds.dm.files[j]| == |old(ds.dm.files)[j]| && (j in dirs <==> j in old(dirs))
      requires forall d :: d in dirs ==> d in ds.dm.files && (d == n || d !in old(ds.dm.files) ==> ds.IsDir(d))
      ensures Base()
      ensures forall j :: j in ds.dm.files && j in old(ds.dm.files) && j != n ==> NodeOf(j) == old(NodeOf(j))
    {
      hide ds.dm.Valid, ds.IsDir, ds.Dir, ds.dm.Contents, ds.dm.FileBytes, ds.dm.Length, Slots, store.NumbersUsed;
      ds.KeptDirs(n);
    }

    lemma NodeIs(n: nat)
      requires Base() && n in ds.dm.files
      ensures NodeOf(n) == if n in dirs then Directory(Slots(ds.Dir(n)), |ds.dm.files[n]|) else Plain(ds.dm.Contents(n), |ds.dm.files[n]|)
      ensures n in dirs ==> ds.IsDir(n)
      ensures ds.dm.Length(n) == 0 ==> ds.dm.Contents(n) == []
    {
      hide ds.dm.Valid, ds.IsDir, ds.Dir, ds.dm.Contents, ds.dm.Length, Slots, store.NumbersUsed;
    }

    lemma ImageFacts()
      requires Base()
      ensures ds.dm.Valid() && ds.dm.cache.Valid()
    {
      hide store.NumbersUsed, ds.IsDir;
    }

    lemma NumbersAre()
      requires Base()
      ensures forall k :: 0 <= k < 4032 ==> (ds.dm.Img().INodeTaken(k) <==> k in ds.dm.files)
    {
      hide ds.dm.Valid, ds.dm.Img, ds.IsDir, MapBit;
    }

    lemma PlainFacts(n: nat)
      requires Base() && IsPlain(Shown(), n)
      ensures n in ds.dm.files && n !in dirs && Shown().nodes[n] == Plain(ds.dm.Contents(n), |ds.dm.files[n]|)
      ensures |ds.dm.Contents(n)| == ds.dm.Length(n) && Shown().free == ds.dm.FreeBlocks()
    {
      hide Base, ds.dm.Valid, ds.dm.Contents, ds.dm.Length;
      ShownFacts();
    }

    lemma NumberFacts(n: nat)
      requires Base() && n in ds.dm.files
      ensures n < MAX_INODES
    {
      store.NumbersSmall(n);
      hide ds.dm.Valid, store.NumbersUsed, ds.IsDir;
    }

    /** The next number's inode bit is clear. */
    lemma NextIsFree()
      requires Base() && NextNumber(Shown()) < MAX_INODES
      ensures exists k :: 0 <= k < MAX_INODES && !ds.dm.Img().INodeTaken(k)
    {
      hide *;
      ShownFacts();
      NumbersAre();
      Limits();
      NextFree(Shown());
      ImageFacts();
      assert !ds.dm.Img().INodeTaken(NextNumber(Shown()));
    }

    lemma ValidFacts()
      requires Valid()
      ensures Base() && Sound(Shown())
      ensures ds.dm.Valid() && store.dm == ds.dm && store.NumbersUsed()
    {
      hide ds.dm.Valid, store.NumbersUsed, ds.IsDir, Sound, Shown;
    }

    lemma ValidIf()
      requires Base() && Sound(Shown())
      ensures Valid()
    {
      hide Base, Sound, Shown;
    }
  }

  lemma FindFacts(t: Tree, n: U32, name: seq<Byte>)
    requires Admissible(t, Finding(n, name))
    ensures IsFolder(t, n) && 0 !in name && t.nodes[n].Directory?
    ensures var m := Listing(t.nodes[n].slots);
            Answered(t, Finding(n, name)) == Inode(if name in m then Some(m[name]) else None)
  {
    hide Listing;
  }

  lemma EntryFacts(t: Tree, n: U32, index: U32)
    requires Admissible(t, Entering(n, index))
    ensures IsFolder(t, n) && t.nodes[n].Directory?
    ensures Answered(t, Entering(n, index)) == Inode(EntryOf(NumbersFrom(t.nodes[n].slots, 1), index))
  {
    hide EntryOf, NumbersFrom;
  }

  lemma ReadFacts(t: Tree, n: U32, length: U32, offset: U32, leftover: int)
    requires Admissible(t, Reading(n, length, offset, leftover))
    ensures IsPlain(t, n) && t.nodes[n].Plain? && offset + length <= |t.nodes[n].contents| && (leftover != 0 || offset < 180)
    ensures Answered(t, Reading(n, length, offset, leftover)) == Contents(t.nodes[n].contents[offset..offset + length])
  {
  }

  lemma WriteFacts(t: Tree, n: U32, data: seq<Byte>, offset: U32)
    requires Admissible(t, Writing(n, data, offset))
    ensures IsPlain(t, n) && t.nodes[n].Plain? && offset <= |t.nodes[n].contents|
    ensures FileChains.WriteOk(|t.nodes[n].contents|, offset, |data|)
    ensures 48 + offset + |data| > 228 * t.nodes[n].blocks ==> Estimate(offset + |data|) <= t.free
    ensures Answered(t, Writing(n, data, offset)) == Done
    ensures var blocks := t.nodes[n].blocks + if 48 + offset + |data| > 228 * t.nodes[n].blocks then Estimate(offset + |data|) else 0;
            Applied(t, Writing(n, data, offset))
              == Tree(t.nodes[n as nat := Plain(Overwrite(t.nodes[n].contents, offset, data), blocks)], t.free - (blocks - t.nodes[n].blocks))
  {
    hide Estimate, Overwrite;
  }

  lemma CreateFacts(t: Tree, n: U32, name: seq<Byte>, directory: bool, hasAccess: bool, fields: FileHeader)
    requires Sound(t) && Admissible(t, Creating(n, name, directory, hasAccess, fields))
    ensures IsFolder(t, n) && t.nodes[n].Directory? && 0 !in name && |name| < MAX_NAME_LENGTH
    ensures var slots, m, r := t.nodes[n].slots, NextNumber(t), Creating(n, name, directory, hasAccess, fields);
            if !hasAccess then Applied(t, r) == t && Answered(t, r) == Made(-1, E_ACCESS)
            else if name in Listing(slots) then Applied(t, r) == t && Answered(t, r) == Made(-1, E_FILE_EXISTS)
            else
              && m < MAX_INODES && m < 0x1_0000_0000 && m !in t.nodes && m != n
              && var blocks := BlocksAfter(t.nodes[n].blocks, 28 * |Put(slots, Item(name, m))|);
                 && 1 + blocks - t.nodes[n].blocks <= t.free
                 && Answered(t, r) == Made(m, 0)
                 && Applied(t, r) ==
                      Tree(t.nodes[m := if directory then Directory(NewSlots(m, n), 1) else Plain([], 1)]
                             [n as nat := Directory(Put(slots, Item(name, m)), blocks)],
                           t.free - 1 - (blocks - t.nodes[n].blocks))
  {
    hide Sound, Listing, Put, BlocksAfter, NewSlots;
  }

  lemma Limits()
    ensures 0 < MAX_INODES == 128 && MAX_BLOCKS == 4096 && E_FILE_NOT_EXISTS == -8
  {
  }

  lemma NextFree(t: Tree)
    ensures NextNumber(t) < MAX_INODES ==> NextNumber(t) !in t.nodes
  {
  }

  /** The lowest number without a node is the lowest clear inode bit. */
  lemma NextIs(t: Tree, m: nat)
    requires m < 4032 && m !in t.nodes && forall k :: 0 <= k < m ==> k in t.nodes
    ensures NextNumber(t) == m
  {
  }

  lemma RemoveFacts(t: Tree, n: U32, inode: U32)
    requires Sound(t) && Admissible(t, Removing(n, inode))
    ensures IsFolder(t, n) && t.nodes[n].Directory?
    ensures var slots, k, r := t.nodes[n].slots, Position(t.nodes[n].slots, inode, 3), Removing(n, inode);
            if k == |slots| then Applied(t, r) == t && Answered(t, r) == Status(E_FILE_NOT_EXISTS)
            else
              && k < |slots| && inode in t.nodes && inode != n
              && Answered(t, r) == Status(0)
              && Applied(t, r) ==
                   Tree(t.nodes[n as nat := Directory(slots[k := Vacant], t.nodes[n].blocks)] - {inode}, t.free + t.nodes[inode].blocks)
  {
    var slots, k := t.nodes[n].slots, Position(t.nodes[n].slots, inode, 3);
    if k < |slots| {
      assert Link(t, n, k, inode);
    }
    hide Position;
  }

  lemma QueryKeeps(t: Tree, r: Request)
    requires Admissible(t, r) && (r.Finding? || r.Entering? || r.Reading?)
    ensures Applied(t, r) == t
  {
  }

  lemma RootName()
    ensures 0 !in [47 as Byte] && |[47 as Byte]| < MAX_NAME_LENGTH
  {
  }

  lemma RootIs(files: FileChains.Files)
    requires 0 in files && files == map[][0 as nat := files[0]]
    ensures forall n :: n in files <==> n == 0
    ensures RootOnly() == Tree(map[0 := Directory(NewSlots(0, 0), 1)], MAX_BLOCKS - 1)
  {
  }
}
