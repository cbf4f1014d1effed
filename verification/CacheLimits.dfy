/** Where the cache is no flat array: sectors whose numbers are negative as 16-bit signed values. */
module CacheLimits {
  import opened Bytes
  import opened Ata
  import opened CacheSlots
  import opened DiskCache

  lemma WithinSector(sector: U16, offset: nat)
    requires offset < 512
    ensures SectorOf(sector, offset) == sector && offset % 512 == offset
  {
  }

  lemma SingleRead(s: CacheState, disk: int, bytes: nat, sector: U16, offset: nat)
    requires Shape(s) && IsDrive(disk) && offset + bytes < 512
    ensures var f := Fetched(s, disk, sector);
            && |f.0.slots| == CACHE_SIZE && |f.0.slots[f.1].contents| == 512
            && ReadBy(s, disk, bytes, sector, offset) == (Counted(f.0, f.1), f.0.slots[f.1].contents[offset..offset + bytes])
  {
    hide *;
    WithinSector(sector, offset);
    ReadStep(s, disk, bytes, sector, offset);
  }

  lemma SingleWrite(s: CacheState, disk: int, data: seq<Byte>, sector: U16, offset: nat)
    requires Shape(s) && IsDrive(disk) && offset + |data| < 512
    ensures var f := Fetched(s, disk, sector);
            |f.0.slots| == CACHE_SIZE && WriteBy(s, disk, data, sector, offset) == Stored(f.0, f.1, offset, data)
  {
    hide *;
    WithinSector(sector, offset);
    WriteStep(s, disk, data, sector, offset);
    ShapeFacts(Fetched(s, disk, sector).0);
  }

  lemma Negative(slots: seq<Slot>, disk: int, sector: U16)
    requires sector >= 0x8000
    ensures Find(slots, disk, Short(sector)) == |slots|
  {
    FindIs(slots, disk, Short(sector), |slots|);
  }

  /** A slot that was fetched is found again after bytes were stored in it. */
  lemma FoundAgain(s: CacheState, disk: int, sector: U16, offset: nat, data: seq<Byte>)
    requires Shape(s) && IsDrive(disk) && sector < 0x8000 && offset + |data| <= 512
    ensures var f := Fetched(s, disk, sector);
            && |f.0.slots| == CACHE_SIZE
            && Find(Stored(f.0, f.1, offset, data).slots, disk, sector) == f.1
  {
    hide Find, Victim, Evicted, Splice;
    FetchedIs(s, disk, sector);
    var f := Fetched(s, disk, sector);
    FindIs(Stored(f.0, f.1, offset, data).slots, disk, sector, f.1);
  }

  // ---- From sector 0x8000 on -------------------------------------------------

  /** The cache after a write from sector 0x8000 on: the slot given up holds the bytes, with two accesses. */
  lemma HighWrite(s: CacheState, disk: int, data: seq<Byte>, sector: U16, offset: nat)
    requires Shape(s) && IsDrive(disk) && offset + |data| < 512 && sector >= 0x8000
    ensures var m := Evicted(s);
            WriteBy(s, disk, data, sector, offset) ==
            CacheState(s.slots[Victim(s.slots) := Slot(disk, sector, Splice(m.Sector(disk, sector), offset, data), true, 2)], m)
  {
    hide *;
    SingleWrite(s, disk, data, sector, offset);
    FetchedIs(s, disk, sector);
    Negative(s.slots, disk, sector);
    ShapeFacts(s);
    LoadedStored(s, Evicted(s), Victim(s.slots), disk, sector, offset, data);
  }

  lemma LoadedStored(s: CacheState, m: Media, v: nat, disk: int, sector: U16, offset: nat, data: seq<Byte>)
    requires |s.slots| == CACHE_SIZE && v < CACHE_SIZE && m.Valid() && offset + |data| <= 512
    requires Shape(CacheState(s.slots[v := Slot(disk, sector, m.Sector(disk, sector), false, 1)], m))
    ensures Stored(CacheState(s.slots[v := Slot(disk, sector, m.Sector(disk, sector), false, 1)], m), v, offset, data)
         == CacheState(s.slots[v := Slot(disk, sector, Splice(m.Sector(disk, sector), offset, data), true, 2)], m)
  {
    hide Splice, Shape;
  }

  /** What a read from sector 0x8000 on answers: the bytes of the drive, once a slot was given up. */
  lemma HighRead(t: CacheState, disk: int, bytes: nat, sector: U16, offset: nat)
    requires Shape(t) && IsDrive(disk) && offset + bytes < 512 && sector >= 0x8000
    ensures ReadBy(t, disk, bytes, sector, offset).1 == Evicted(t).Sector(disk, sector)[offset..offset + bytes]
  {
    SingleRead(t, disk, bytes, sector, offset);
    FetchedIs(t, disk, sector);
    Negative(t.slots, disk, sector);
    hide ReadBy, Fetched, Find, Victim, Evicted;
  }

  /** The slot given up next, if the first one given up is accessed twice. */
  function NextVictim(slots: seq<Slot>): (w: nat)
    requires |slots| > 0
    ensures w < |slots|
  {
    Victim(slots[Victim(slots) := slots[Victim(slots)].(accessCount := 2)])
  }

  /** All other slots were accessed at least twice, and those in front more often. */
  predicate StaysVictim(slots: seq<Slot>)
    requires |slots| > 0
  {
    var v := Victim(slots);
    forall j :: 0 <= j < |slots| && j != v ==> 2 <= slots[j].accessCount && (j < v ==> 2 < slots[j].accessCount)
  }

  lemma StaysVictimExact(slots: seq<Slot>)
    requires |slots| > 0
    ensures NextVictim(slots) == Victim(slots) <==> StaysVictim(slots)
  {
    var v := Victim(slots);
    var marked := slots[v := slots[v].(accessCount := 2)];
    var w := Victim(marked);
    hide Victim;
    if StaysVictim(slots) {
      VictimIs(marked, v);
    } else {
      var j :| 0 <= j < |slots| && j != v && !(2 <= slots[j].accessCount && (j < v ==> 2 < slots[j].accessCount));
      assert marked[j] == slots[j];
    }
  }

  lemma {:induction false} VictimCounts(slots: seq<Slot>, slots': seq<Slot>)
    requires 0 < |slots| == |slots'| && forall i :: 0 <= i < |slots| ==> slots[i].accessCount == slots'[i].accessCount
    ensures Victim(slots) == Victim(slots')
  {
    hide Victim;
    VictimIs(slots', Victim(slots));
  }

  /** A sector as the drive has it after a slot was written back if it is dirty. */
  function WrittenBack(slot: Slot, disk: int, sector: U16, before: seq<Byte>): seq<Byte> {
    if DirtyCopy(slot, disk, sector) then slot.contents else before
  }

  /** A sector as the drive has it after the two slots given up in turn were written back. */
  ghost function TwiceWrittenBack(s: CacheState, disk: int, sector: U16): (r: seq<Byte>)
    requires Shape(s)
    ensures |r| == 512
  {
    var v, w := s.slots[Victim(s.slots)], s.slots[NextVictim(s.slots)];
    WrittenBack(w, disk, sector, WrittenBack(v, disk, sector, s.media.Sector(disk, sector)))
  }

  lemma EvictedSector(s: CacheState, disk: int, sector: U16)
    requires Shape(s) && IsDrive(disk)
    ensures Evicted(s).Sector(disk, sector) == WrittenBack(s.slots[Victim(s.slots)], disk, sector, s.media.Sector(disk, sector))
  {
    hide Victim, WithSector;
    var slot := s.slots[Victim(s.slots)];
    if slot.dirty {
      SectorsWith(s.media, slot.disk, slot.sector, slot.contents);
    }
  }

  /**
    What is read back of bytes written from sector 0x8000 on, said of the cache before the write: the
    bytes if the read gives up the slot of the write, else those the drive has by then.
   */
  lemma HighReadAfterWrite(s: CacheState, disk: int, data: seq<Byte>, sector: U16, offset: nat)
    requires Shape(s) && IsDrive(disk) && offset + |data| < 512 && sector >= 0x8000
    ensures ReadBy(WriteBy(s, disk, data, sector, offset), disk, |data|, sector, offset).1 ==
            if StaysVictim(s.slots) then data else TwiceWrittenBack(s, disk, sector)[offset..offset + |data|]
  {
    var m, v, t := Evicted(s), Victim(s.slots), WriteBy(s, disk, data, sector, offset);
    HighWrite(s, disk, data, sector, offset);
    HighRead(t, disk, |data|, sector, offset);
    EvictedSector(s, disk, sector);
    EvictedSector(t, disk, sector);
    hide ReadBy, WriteBy, Victim, Evicted, Splice, StaysVictim;
    VictimCounts(t.slots, s.slots[v := s.slots[v].(accessCount := 2)]);
    StaysVictimExact(s.slots);
    SpliceReadsBack(m.Sector(disk, sector), offset, data);
  }

  /**
    When bytes written within one sector are read back: if the sector number is below 0x8000, if all
    slots but the one given up were accessed often enough for it to be given up again, or if the drive
    has the same bytes after the two slots given up in turn were written back.
   */
  lemma ReadAfterWriteExact(s: CacheState, disk: int, data: seq<Byte>, sector: U16, offset: nat)
    requires Shape(s) && IsDrive(disk) && offset + |data| < 512
    ensures ReadBy(WriteBy(s, disk, data, sector, offset), disk, |data|, sector, offset).1 == data <==>
            sector < 0x8000 || StaysVictim(s.slots) || TwiceWrittenBack(s, disk, sector)[offset..offset + |data|] == data
  {
    var f, t := Fetched(s, disk, sector), WriteBy(s, disk, data, sector, offset);
    hide StaysVictim, TwiceWrittenBack;
    if sector < 0x8000 {
      SingleWrite(s, disk, data, sector, offset);
      SingleRead(t, disk, |data|, sector, offset);
      FetchedIs(t, disk, sector);
      hide ReadBy, WriteBy, Fetched, Find, Victim, Evicted, Splice;
      FoundAgain(s, disk, sector, offset, data);
      SpliceReadsBack(f.0.slots[f.1].contents, offset, data);
    } else {
      hide ReadBy, WriteBy, Fetched;
      HighReadAfterWrite(s, disk, data, sector, offset);
    }
  }

  // ---- Caches that calls lead to ---------------------------------------------

  /** No slot was accessed just once. */
  predicate Used(slots: seq<Slot>) {
    forall i :: 0 <= i < |slots| ==> Idle(slots[i])
  }

  predicate Idle(slot: Slot) {
    slot.accessCount == -1 || 2 <= slot.accessCount
  }

  /** What a transfer does to the slots: none is left with one access only, but those that had so few before. */
  predicate Uses(slots: seq<Slot>, slots': seq<Slot>) {
    && |slots| == |slots'|
    && (forall i :: 0 <= i < |slots| && Idle(slots[i]) ==> Idle(slots'[i]))
    && forall i :: 0 <= i < |slots| && 1 <= slots[i].accessCount ==> 1 <= slots'[i].accessCount
  }

  /** A fetched slot has been accessed, and the other slots are as before. */
  lemma FetchUses(s: CacheState, disk: int, sector: U16)
    requires Shape(s) && IsDrive(disk)
    ensures var f := Fetched(s, disk, sector);
            && |f.0.slots| == |s.slots| == CACHE_SIZE
            && (forall i :: 0 <= i < |s.slots| && i != f.1 ==> f.0.slots[i] == s.slots[i])
            && (f.0.slots[f.1].accessCount == 1 || f.0.slots[f.1] == s.slots[f.1])
  {
    FetchedIs(s, disk, sector);
    hide Fetched, Find, Victim, Evicted;
  }

  lemma {:induction false} ReadUses(s: CacheState, disk: int, bytes: nat, sector0: U16, offset0: nat)
    requires Shape(s) && IsDrive(disk)
    ensures Uses(s.slots, ReadBy(s, disk, bytes, sector0, offset0).0.slots)
    decreases bytes
  {
    hide *;
    var sector: U16, offset, next: U16 := SectorOf(sector0, offset0), offset0 % 512, (SectorOf(sector0, offset0) + 1) % 0x1_0000;
    var f := Fetched(s, disk, sector);
    FetchUses(s, disk, sector);
    ReadStep(s, disk, bytes, sector0, offset0);
    if offset + bytes >= 512 {
      var first := 512 - offset;
      ReadUses(f.0, disk, bytes - first, next, 0);
      OccupiesAt(f.0, ReadBy(f.0, disk, bytes - first, next, 0).0, f.1);
      CountedUses(s, f.0, ReadBy(f.0, disk, bytes - first, next, 0).0, f.1);
    } else {
      CountedUses(s, f.0, f.0, f.1);
    }
  }

  lemma CountedUses(s: CacheState, f: CacheState, t: CacheState, i: nat)
    requires Shape(t) && i < |s.slots| == |f.slots| == CACHE_SIZE && t.slots[i].accessCount != -1
    requires f.slots[i].accessCount != -1 && (f.slots[i].accessCount == 1 || f.slots[i] == s.slots[i])
    requires (forall j :: 0 <= j < |s.slots| && j != i ==> f.slots[j] == s.slots[j]) && (f == t || Uses(f.slots, t.slots))
    ensures Uses(s.slots, Counted(t, i).slots)
  {
  }

  lemma {:induction false} WriteUses(s: CacheState, disk: int, msg: seq<Byte>, sector0: U16, offset0: nat)
    requires Shape(s) && IsDrive(disk)
    ensures Uses(s.slots, WriteBy(s, disk, msg, sector0, offset0).slots)
    decreases |msg|
  {
    hide *;
    var sector: U16, offset, next: U16 := SectorOf(sector0, offset0), offset0 % 512, (SectorOf(sector0, offset0) + 1) % 0x1_0000;
    var f := Fetched(s, disk, sector);
    FetchUses(s, disk, sector);
    WriteStep(s, disk, msg, sector0, offset0);
    if offset + |msg| >= 512 {
      var first := 512 - offset;
      StoredUses(s, f.0, f.1, offset, msg[..first]);
      var t := Stored(f.0, f.1, offset, msg[..first]);
      WriteUses(t, disk, msg[first..], next, 0);
      UsesOn(s.slots, t.slots, WriteBy(t, disk, msg[first..], next, 0).slots);
    } else {
      StoredUses(s, f.0, f.1, offset, msg);
    }
  }

  lemma StoredUses(s: CacheState, f: CacheState, i: nat, offset: nat, data: seq<Byte>)
    requires Shape(f) && i < |s.slots| == |f.slots| == CACHE_SIZE && offset + |data| <= 512
    requires f.slots[i].accessCount != -1 && (f.slots[i].accessCount == 1 || f.slots[i] == s.slots[i])
    requires forall j :: 0 <= j < |s.slots| && j != i ==> f.slots[j] == s.slots[j]
    ensures Uses(s.slots, Stored(f, i, offset, data).slots)
  {
  }

  lemma UsesOn(a: seq<Slot>, b: seq<Slot>, c: seq<Slot>)
    requires Uses(a, b) && Uses(b, c)
    ensures Uses(a, c)
  {
  }

  lemma FlushUses(s: CacheState)
    requires Shape(s) && Used(s.slots)
    ensures Used(Flushed(s, CACHE_SIZE).slots)
  {
    hide Flushed;
  }

  datatype Call =
    | ReadCall(disk: int, bytes: nat, sector: U16, offset: nat)
    | WriteCall(disk: int, data: seq<Byte>, sector: U16, offset: nat)
    | FlushCall

  predicate KnownDrives(calls: seq<Call>) {
    forall i :: 0 <= i < |calls| && !calls[i].FlushCall? ==> IsDrive(calls[i].disk)
  }

  /** The cache after calls, for any sectors. */
  ghost function AfterCalls(s: CacheState, calls: seq<Call>): (r: CacheState)
    requires Shape(s) && KnownDrives(calls)
    ensures Shape(r)
    decreases |calls|
  {
    hide Shape, ReadBy, WriteBy, IsDrive;
    if calls == [] then s
    else
      match calls[0]
      case ReadCall(disk, bytes, sector, offset) => AfterCalls(ReadBy(s, disk, bytes, sector, offset).0, calls[1..])
      case WriteCall(disk, data, sector, offset) => AfterCalls(WriteBy(s, disk, data, sector, offset), calls[1..])
      case FlushCall => AfterCalls(Flushed(s, CACHE_SIZE), calls[1..])
  }

  lemma {:induction false} CallsUse(s: CacheState, calls: seq<Call>)
    requires Shape(s) && Used(s.slots) && KnownDrives(calls)
    ensures Used(AfterCalls(s, calls).slots)
    decreases |calls|
  {
    hide Shape, ReadBy, WriteBy, IsDrive, Idle;
    if calls != [] {
      match calls[0]
      case ReadCall(disk, bytes, sector, offset) =>
        ReadUses(s, disk, bytes, sector, offset);
        CallsUse(ReadBy(s, disk, bytes, sector, offset).0, calls[1..]);
      case WriteCall(disk, data, sector, offset) =>
        WriteUses(s, disk, data, sector, offset);
        CallsUse(WriteBy(s, disk, data, sector, offset), calls[1..]);
      case FlushCall =>
        FlushUses(s);
        CallsUse(Flushed(s, CACHE_SIZE), calls[1..]);
    }
  }

  /** No slot is empty, or only the one given up is and the slots in front of it were accessed more than twice. */
  predicate Full(slots: seq<Slot>)
    requires |slots| > 0
  {
    var v := Victim(slots);
    && (forall j :: 0 <= j < |slots| && j != v ==> slots[j].accessCount != -1)
    && (slots[v].accessCount == -1 ==> forall j :: 0 <= j < v ==> 2 < slots[j].accessCount)
  }

  /** If no slot was accessed just once, the slot of a write is given up again exactly when the cache is full in this sense. */
  lemma StaysVictimIfFull(slots: seq<Slot>)
    requires |slots| > 0 && Used(slots)
    ensures StaysVictim(slots) <==> Full(slots)
  {
    var v := Victim(slots);
    assert Idle(slots[v]);
    forall j | 0 <= j < |slots| && j != v
      ensures slots[j].accessCount != -1 <==> 2 <= slots[j].accessCount
      ensures slots[v].accessCount != -1 && j < v ==> 2 < slots[j].accessCount
    {
      assert Idle(slots[j]);
    }
    hide Victim;
  }

  /**
    After any calls to a new cache, bytes written within one sector are read back exactly when the sector
    number is below 0x8000, the cache was full, or the drive has the same bytes.
   */
  lemma ReadAfterWriteOnRuns(s: CacheState, calls: seq<Call>, disk: int, data: seq<Byte>, sector: U16, offset: nat)
    requires Shape(s) && forall i :: 0 <= i < |s.slots| ==> s.slots[i].accessCount == -1
    requires KnownDrives(calls)
    requires IsDrive(disk) && offset + |data| < 512
    ensures var t := AfterCalls(s, calls);
            ReadBy(WriteBy(t, disk, data, sector, offset), disk, |data|, sector, offset).1 == data <==>
            sector < 0x8000 || Full(t.slots) || TwiceWrittenBack(t, disk, sector)[offset..offset + |data|] == data
  {
    var t := AfterCalls(s, calls);
    assert Used(s.slots);
    hide *;
    CallsUse(s, calls);
    ShapeFacts(t);
    StaysVictimIfFull(t.slots);
    ReadAfterWriteExact(t, disk, data, sector, offset);
  }

  /** With two slots still empty, bytes written from sector 0x8000 on are not read back: the drive's are. */
  lemma HighSectorLost(s: CacheState, disk: int, data: seq<Byte>, sector: U16, offset: nat, i: nat, j: nat)
    requires Shape(s) && IsDrive(disk) && offset + |data| < 512 && sector >= 0x8000
    requires i < j < CACHE_SIZE && s.slots[i].accessCount == s.slots[j].accessCount == -1
    ensures ReadBy(WriteBy(s, disk, data, sector, offset), disk, |data|, sector, offset).1
         == s.media.Sector(disk, sector)[offset..offset + |data|]
  {
    HighReadAfterWrite(s, disk, data, sector, offset);
    hide ReadBy, WriteBy, Victim;
    var v := Victim(s.slots);
    var k := if v == i then j else i;
    var marked := s.slots[v := s.slots[v].(accessCount := 2)];
    assert marked[k] == s.slots[k];
    assert s.slots[v].accessCount == -1 && marked[Victim(marked)].accessCount == -1;
  }

  lemma MiddleByte(s: CacheState, b: Byte)
    requires Shape(s) && |s.slots| == 10 && s.slots[0].accessCount == s.slots[1].accessCount == -1
    ensures IsDrive(ATA0) && |s.media.ata0| == 0x200_0000
    ensures var t := WriteBy(s, ATA0, [b], 0x8000, 0); ReadBy(t, ATA0, 1, 0x8000, 0).1 == [s.media.ata0[0x100_0000]]
  {
    hide *;
    FirstTwo(s);
    KnownDrive(s.media);
    HighSectorLost(s, ATA0, [b], 0x8000, 0, 0, 1);
  }

  lemma KnownDrive(m: Media)
    requires m.Valid()
    ensures IsDrive(ATA0) && |m.ata0| == 0x200_0000 && m.Sector(ATA0, 0x8000)[0..1] == [m.ata0[0x100_0000]]
  {
  }

  lemma FirstTwo(s: CacheState)
    requires Shape(s)
    ensures s.media.Valid() && |s.slots| == CACHE_SIZE == 10
  {
  }

  /** So it is with a new cache: the byte in the middle of the drive is not the one just written. */
  method HighSectorRead(ata: Controller, b: Byte) returns (got: seq<Byte>)
    requires ata.Valid()
    modifies ata.primary, ata.secondary
    ensures ata.Valid() && got == [old(ata.View(ATA0))[0x100_0000]]
  {
    var cache := new Cache(ata);
    assert ata.View(ATA0) == old(ata.View(ATA0));
    hide *;
    cache.ValidIsReady();
    cache.StateFacts();
    ghost var s := cache.State();
    MiddleByte(s, b);
    cache.WriteAny(ATA0, [b], 0x8000, 0);
    got := cache.ReadAny(ATA0, 1, 0x8000, 0);
  }
}
