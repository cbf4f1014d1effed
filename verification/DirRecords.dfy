/** The contents of a directory file: records of an inode number and a name, some of them removed. */
module DirRecords {
  import opened Bytes
  import opened CStrings
  import opened DiskLayout

  // A record is 28 bytes: sizeof(u32int) + MAX_NAME_LENGTH.
  const REMOVED: U32 := 0xFFFF_FFFF

  const E_FILE_EXISTS := -3
  const E_ACCESS := -7
  const E_FILE_NOT_EXISTS := -8

  datatype Record = Record(inode: U32, name: seq<Byte>) {
    predicate Valid() {
      |name| == MAX_NAME_LENGTH
    }

    predicate Live() {
      inode != REMOVED
    }
  }

  function RecordBytes(r: Record): (b: seq<Byte>)
    requires r.Valid()
    ensures |b| == 28
  {
    U32Bytes(r.inode) + r.name
  }

  /** A record is the inode number, least significant byte first, and the name. */
  lemma RecordFormat(r: Record)
    requires r.Valid()
    ensures WordIs(RecordBytes(r), 0, r.inode) && RecordBytes(r)[4..] == r.name
  {
    hide U32Bytes, WordIs;
    WordHere(RecordBytes(r), 0, r.inode);
  }

  function RecordAt(contents: seq<Byte>, k: nat): (r: Record)
    requires 28 * k + 28 <= |contents|
    ensures r.Valid()
  {
    Record(U32At(contents, 28 * k), contents[28 * k + 4..28 * k + 28])
  }

  lemma RecordAtFields(contents: seq<Byte>, k: nat)
    requires 28 * k + 28 <= |contents|
    ensures RecordAt(contents, k).inode == U32At(contents, 28 * k)
    ensures RecordAt(contents, k).name == contents[28 * k + 4..28 * k + 28]
  {
  }

  function Records(contents: seq<Byte>): (rs: seq<Record>)
    ensures |rs| == |contents| / 28
    ensures forall k :: 0 <= k < |rs| ==> rs[k].Valid()
  {
    seq(|contents| / 28, k requires 0 <= k < |contents| / 28 => RecordAt(contents, k))
  }

  lemma RecordRoundTrip(contents: seq<Byte>, k: nat, r: Record)
    requires r.Valid() && 28 * k + 28 <= |contents|
    requires contents[28 * k..28 * k + 28] == RecordBytes(r)
    ensures RecordAt(contents, k) == r
  {
    hide U32Bytes, U32At;
    SliceOfSlice(contents, 28 * k, 28, 0, 4);
    SliceOfSlice(contents, 28 * k, 28, 4, 24);
    assert RecordBytes(r)[0..4] == U32Bytes(r.inode);
    assert RecordBytes(r)[4..28] == r.name;
    U32RoundTrip(contents, 28 * k, r.inode);
  }

  lemma RecordAtSame(a: seq<Byte>, b: seq<Byte>, k: nat)
    requires 28 * k + 28 <= |a| && 28 * k + 28 <= |b| && a[28 * k..28 * k + 28] == b[28 * k..28 * k + 28]
    ensures RecordAt(a, k) == RecordAt(b, k)
  {
    var x, y := a[28 * k..28 * k + 28], b[28 * k..28 * k + 28];
    forall i | 28 * k <= i < 28 * k + 28
      ensures a[i] == b[i]
    {
      assert x[i - 28 * k] == y[i - 28 * k];
    }
  }

  lemma RecordsReplace(contents: seq<Byte>, k: nat, r: Record)
    requires r.Valid() && k < |contents| / 28
    ensures Records(Splice(contents, 28 * k, RecordBytes(r))) == Records(contents)[k := r]
  {
    hide RecordBytes, Splice, RecordAt;
    var after := Splice(contents, 28 * k, RecordBytes(r));
    forall j | 0 <= j < |contents| / 28
      ensures Records(after)[j] == Records(contents)[k := r][j]
    {
      if j == k {
        SpliceReadsBack(contents, 28 * k, RecordBytes(r));
        RecordRoundTrip(after, k, r);
      } else {
        SpliceLeavesRest(contents, 28 * k, RecordBytes(r), 28 * j, 28);
        RecordAtSame(after, contents, j);
      }
    }
  }

  lemma RecordsAppend(contents: seq<Byte>, r: Record)
    requires r.Valid() && |contents| % 28 == 0
    ensures Records(contents + RecordBytes(r)) == Records(contents) + [r]
  {
    hide RecordBytes, RecordAt;
    var after, n := contents + RecordBytes(r), |contents| / 28;
    forall j | 0 <= j < n + 1
      ensures Records(after)[j] == (Records(contents) + [r])[j]
    {
      if j == n {
        RecordRoundTrip(after, n, r);
      } else {
        RecordAtSame(after, contents, j);
      }
    }
  }

  // ---- The directory as a map from names to inode numbers --------------------

  ghost predicate RecordOk(r: Record) {
    r.Live() ==> r.inode < MAX_INODES && 0 in r.name
  }

  /** A well-formed directory: live names are distinct. */
  ghost predicate DirOk(rs: seq<Record>) {
    && (forall k :: 0 <= k < |rs| ==> RecordOk(rs[k]))
    && (forall i, j :: 0 <= i < |rs| && 0 <= j < |rs| && rs[i].Live() && rs[j].Live() && Text(rs[i].name) == Text(rs[j].name) ==>
          i == j)
  }

  ghost predicate Names(rs: seq<Record>, k: nat, name: seq<Byte>) {
    k < |rs| && rs[k].Live() && Text(rs[k].name) == name
  }

  ghost function Entries(rs: seq<Record>): (m: map<seq<Byte>, U32>)
    ensures forall name :: name in m <==> exists k: nat :: Names(rs, k, name)
    ensures DirOk(rs) ==> forall k: nat, name :: Names(rs, k, name) ==> m[name] == rs[k].inode
  {
    var names := set k | 0 <= k < |rs| && rs[k].Live() :: Text(rs[k].name);
    assert forall name :: name in names ==> exists k: nat :: Names(rs, k, name) by {
      forall name | name in names
        ensures exists k: nat :: Names(rs, k, name)
      {
        var k :| 0 <= k < |rs| && rs[k].Live() && Text(rs[k].name) == name;
        assert Names(rs, k, name);
      }
    }
    assert forall k: nat, name :: Names(rs, k, name) ==> name in names;
    map name | name in names :: var k: nat :| Names(rs, k, name); rs[k].inode
  }

  /** The records after _appendFile: the first removed one is reused, else the directory grows. */
  function Appended(rs: seq<Record>, r: Record): (rs': seq<Record>)
    ensures |rs| <= |rs'| <= |rs| + 1
  {
    if rs == [] then [r] else if !rs[0].Live() then [r] + rs[1..] else [rs[0]] + Appended(rs[1..], r)
  }

  lemma {:induction false} AppendedIs(rs: seq<Record>, r: Record, k: nat)
    requires k <= |rs| && (k < |rs| ==> !rs[k].Live()) && forall j :: 0 <= j < k ==> rs[j].Live()
    ensures Appended(rs, r) == if k < |rs| then rs[k := r] else rs + [r]
  {
    if rs != [] && k == 0 {
      assert [r] + rs[1..] == rs[0 := r];
    } else if rs != [] {
      AppendedIs(rs[1..], r, k - 1);
      if k < |rs| {
        assert [rs[0]] + rs[1..][k - 1 := r] == rs[k := r];
      } else {
        assert [rs[0]] + (rs[1..] + [r]) == rs + [r];
      }
    }
  }

  function FirstRemoved(rs: seq<Record>): (k: nat)
    ensures k <= |rs| && (k < |rs| ==> !rs[k].Live()) && forall j :: 0 <= j < k ==> rs[j].Live()
  {
    if rs == [] || !rs[0].Live() then 0 else 1 + FirstRemoved(rs[1..])
  }

  ghost predicate AllLive(rs: seq<Record>) {
    forall k :: 0 <= k < |rs| ==> rs[k].Live()
  }

  /** How many records there are after one is added. */
  ghost function RecordsAfter(rs: seq<Record>): nat {
    |rs| + if AllLive(rs) then 1 else 0
  }

  lemma AppendedLength(rs: seq<Record>, r: Record)
    ensures |Appended(rs, r)| == RecordsAfter(rs)
  {
    hide Appended;
    AppendedIs(rs, r, FirstRemoved(rs));
  }

  lemma EntriesEqual(rs: seq<Record>, rs': seq<Record>, m: map<seq<Byte>, U32>)
    requires DirOk(rs')
    requires forall n :: n in m ==> exists i: nat :: Names(rs', i, n)
    requires forall n, i: nat :: Names(rs', i, n) ==> n in m && m[n] == rs'[i].inode
    ensures Entries(rs') == m
  {
    hide DirOk;
    assert forall n :: n in Entries(rs') <==> n in m;
    forall n | n in m
      ensures Entries(rs')[n] == m[n]
    {
      var i: nat :| Names(rs', i, n);
    }
  }

  lemma FreshName(rs: seq<Record>, name: seq<Byte>)
    requires name !in Entries(rs)
    ensures forall i :: 0 <= i < |rs| && rs[i].Live() ==> Text(rs[i].name) != name
  {
    hide Text, Entries;
    forall i | 0 <= i < |rs| && rs[i].Live()
      ensures Text(rs[i].name) != name
    {
      assert Names(rs, i, Text(rs[i].name));
    }
  }

  lemma AppendKeepsOk(rs: seq<Record>, r: Record)
    requires DirOk(rs) && RecordOk(r) && r.Live() && Text(r.name) !in Entries(rs)
    ensures DirOk(Appended(rs, r))
  {
    hide Text, Entries, Appended, FirstRemoved;
    FreshName(rs, Text(r.name));
    AppendedIs(rs, r, FirstRemoved(rs));
  }

  /** Adding a fresh name adds exactly that entry, and grows the directory only if no record was removed before. */
  lemma AppendAddsEntry(rs: seq<Record>, r: Record)
    requires DirOk(rs) && RecordOk(r) && r.Live() && Text(r.name) !in Entries(rs)
    ensures DirOk(Appended(rs, r))
    ensures Entries(Appended(rs, r)) == Entries(rs)[Text(r.name) := r.inode]
    ensures |Appended(rs, r)| == |rs| <==> exists k :: 0 <= k < |rs| && !rs[k].Live()
  {
    var k := FirstRemoved(rs);
    AppendedIs(rs, r, k);
    AppendKeepsOk(rs, r);
    hide Text, Entries, Appended, DirOk, RecordOk;
    EntriesNamed(rs);
    var rs', name := Appended(rs, r), Text(r.name);
    NamesAppended(rs, rs', r, k);
    EntriesEqual(rs, rs', Entries(rs)[name := r.inode]);
  }

  lemma NamesAppended(rs: seq<Record>, rs': seq<Record>, r: Record, k: nat)
    requires k <= |rs| && r.Live() && (k < |rs| ==> !rs[k].Live()) && rs' == if k < |rs| then rs[k := r] else rs + [r]
    ensures Names(rs', k, Text(r.name))
    ensures forall i: nat, n :: Names(rs, i, n) ==> Names(rs', i, n) && rs'[i] == rs[i]
    ensures forall i: nat, n :: Names(rs', i, n) ==> (Names(rs, i, n) && rs'[i] == rs[i]) || (i == k && n == Text(r.name))
    ensures rs'[k] == r
  {
    hide Text;
  }

  lemma EntriesNamed(rs: seq<Record>)
    requires DirOk(rs)
    ensures forall name :: name in Entries(rs) <==> exists k: nat :: Names(rs, k, name)
    ensures forall k: nat, name :: Names(rs, k, name) ==> name in Entries(rs) && Entries(rs)[name] == rs[k].inode
  {
  }

  /** Marking a record removed deletes exactly its entry. */
  lemma RemoveDeletesEntry(rs: seq<Record>, k: nat)
    requires DirOk(rs) && k < |rs| && rs[k].Live()
    ensures var rs' := rs[k := rs[k].(inode := REMOVED)];
            DirOk(rs') && Entries(rs') == Entries(rs) - {Text(rs[k].name)}
  {
    hide Text, Entries;
    var rs', name := rs[k := rs[k].(inode := REMOVED)], Text(rs[k].name);
    assert DirOk(rs');
    assert Names(rs, k, name);
    assert forall i: nat, n :: Names(rs, i, n) && n != name ==> Names(rs', i, n);
    assert forall i: nat, n :: Names(rs', i, n) ==> Names(rs, i, n) && n != name;
    EntriesEqual(rs, rs', Entries(rs) - {name});
  }

  /** A create after a remove takes the freed record: the directory keeps its size. */
  lemma CreateReusesRemoved(rs: seq<Record>, k: nat, r: Record)
    requires DirOk(rs) && k < |rs| && rs[k].Live() && RecordOk(r) && r.Live()
    requires Text(r.name) !in Entries(rs) || Text(r.name) == Text(rs[k].name)
    ensures var rs' := Appended(rs[k := rs[k].(inode := REMOVED)], r);
            && |rs'| == |rs| && DirOk(rs')
            && Entries(rs') == (Entries(rs) - {Text(rs[k].name)})[Text(r.name) := r.inode]
  {
    var removed := rs[k := rs[k].(inode := REMOVED)];
    RemoveDeletesEntry(rs, k);
    assert !removed[k].Live();
    AppendAddsEntry(removed, r);
  }

  /** The live records from record n on, in order. */
  function LiveFrom(rs: seq<Record>, n: nat): seq<Record>
    decreases |rs| - n
  {
    if n >= |rs| then [] else (if rs[n].Live() then [rs[n]] else []) + LiveFrom(rs, n + 1)
  }

  /** How many of the records from i on and before k are live. */
  ghost function CountLive(rs: seq<Record>, i: nat, k: nat): nat {
    |set j | 0 <= j < |rs| && rs[j].Live() && i <= j < k|
  }

  lemma CountNone(rs: seq<Record>, i: nat, k: nat)
    requires k <= i || |rs| <= i
    ensures CountLive(rs, i, k) == 0
  {
    assert (set j | 0 <= j < |rs| && rs[j].Live() && i <= j < k) == {};
  }

  lemma CountFrom(rs: seq<Record>, i: nat, k: nat)
    requires i < k <= |rs|
    ensures CountLive(rs, i, k) == CountLive(rs, i + 1, k) + if rs[i].Live() then 1 else 0
  {
    var all := set j | 0 <= j < |rs| && rs[j].Live() && i <= j < k;
    var rest := set j | 0 <= j < |rs| && rs[j].Live() && i + 1 <= j < k;
    assert all == rest + if rs[i].Live() then {i} else {};
  }

  /** A live record comes as manieth in LiveFrom as there are live ones in front of it. */
  lemma {:induction false} LiveFromAt(rs: seq<Record>, n: nat, k: nat)
    requires n <= k < |rs| && rs[k].Live()
    ensures CountLive(rs, n, k) < |LiveFrom(rs, n)| && LiveFrom(rs, n)[CountLive(rs, n, k)] == rs[k]
    decreases k - n
  {
    if n < k {
      LiveFromAt(rs, n + 1, k);
      CountFrom(rs, n, k);
    } else {
      CountNone(rs, n, k);
    }
  }

  lemma {:induction false} LiveFromSize(rs: seq<Record>, n: nat)
    ensures |LiveFrom(rs, n)| == CountLive(rs, n, |rs|)
    decreases |rs| - n
  {
    if n < |rs| {
      LiveFromSize(rs, n + 1);
      CountFrom(rs, n, |rs|);
    } else {
      CountNone(rs, n, |rs|);
    }
  }

  /**
    The test of _appendFile for a free record looks at its first byte only, as a signed char. It
    agrees with the record being removed exactly if no live inode number ends in the byte 255.
   */
  lemma FreeTestExact(contents: seq<Byte>, k: nat)
    requires k < |contents| / 28
    ensures var r := RecordAt(contents, k);
            (Signed(contents[28 * k]) == -1) == !r.Live() <==> r.inode % 0x100 != 0xFF || !r.Live()
  {
  }

  /**
    A live record it takes for a removed one: inode number 255. nextInode gives such a number only
    when the numbers from 128 on are in use, whose entries lie over the bitmap of blocks.
   */
  lemma Inode255LooksRemoved(name: seq<Byte>)
    requires |name| == MAX_NAME_LENGTH
    ensures var r := Record(255, name); r.Live() && Signed(RecordBytes(r)[0]) == -1
  {
    assert RecordBytes(Record(255, name))[0] == 255;
  }

  /** The first record from index k on with the inode number, or the number of records. */
  function IndexOf(rs: seq<Record>, inode: U32, k: nat): (i: nat)
    requires k <= |rs|
    ensures k <= i <= |rs| && (i < |rs| ==> rs[i].inode == inode) && forall j :: k <= j < i ==> rs[j].inode != inode
    decreases |rs| - k
  {
    if k == |rs| || rs[k].inode == inode then k else IndexOf(rs, inode, k + 1)
  }

  /** The record fs_removedir marks: the first one behind the third with the inode number. */
  function Target(rs: seq<Record>, inode: U32): (i: nat)
    ensures i <= |rs| && (i < |rs| ==> 3 <= i && rs[i].inode == inode) && forall j :: 3 <= j < i ==> rs[j].inode != inode
  {
    if |rs| < 3 then |rs| else IndexOf(rs, inode, 3)
  }

  lemma IndexOfIs(rs: seq<Record>, inode: U32, k: nat, i: nat)
    requires k <= i <= |rs| && (i < |rs| ==> rs[i].inode == inode) && forall j :: k <= j < i ==> rs[j].inode != inode
    ensures IndexOf(rs, inode, k) == i
  {
  }

  /** Overwriting only a record's inode number. */
  lemma InodeReplace(contents: seq<Byte>, k: nat, inode: U32)
    requires k < |contents| / 28
    ensures Records(Splice(contents, 28 * k, U32Bytes(inode))) == Records(contents)[k := Records(contents)[k].(inode := inode)]
  {
    hide U32Bytes, U32At;
    var r := RecordAt(contents, k).(inode := inode);
    var after := Splice(contents, 28 * k, U32Bytes(inode));
    assert after == Splice(contents, 28 * k, RecordBytes(r));
    RecordsReplace(contents, k, r);
  }
}
