/**
  The slots of the write-back sector cache and the flat byte arrays its clients see, and the steps
  the cache takes on them, for every sector number.
 */
module CacheSlots {
  import opened Bytes
  import opened Ata

  const CACHE_SIZE := 10
  // Sector numbers are looked up as signed 16-bit values, so only those below 0x8000 (the
  // first 0x100_0000 bytes of a drive) can be found in the cache; the others are loaded each time.

  /** A cached sector; accessCount == -1 marks an empty slot. */
  datatype Slot = Slot(disk: int, sector: U16, contents: seq<Byte>, dirty: bool, accessCount: int)

  /** The bytes on the two physical drives. */
  datatype Media = Media(ata0: seq<Byte>, ata1: seq<Byte>) {
    ghost predicate Valid() {
      |ata0| == 0x200_0000 && |ata1| == 0x200_0000
    }

    ghost function Sector(disk: int, sector: U16): (r: seq<Byte>)
      requires Valid()
      ensures |r| == 512
    {
      (if disk == ATA0 then ata0 else ata1)[sector * 512..sector * 512 + 512]
    }
  }

  /** The conversion from unsigned short to short at the call of _cacheIndex. */
  function Short(sector: U16): int {
    if sector < 0x8000 then sector else sector - 0x1_0000
  }

  /** It is the only value of a short that is the sector number modulo 2^16. */
  lemma ShortSector(sector: U16, n: int)
    ensures Short(sector) == n <==> -0x8000 <= n < 0x8000 && n % 0x1_0000 == sector
  {
  }

  predicate Holds(slot: Slot, disk: int, sector: int) {
    slot.accessCount != -1 && slot.sector == sector && slot.disk == disk
  }

  ghost predicate SlotOk(slot: Slot, media: Media)
    requires media.Valid()
  {
    && |slot.contents| == 512
    && slot.accessCount >= -1
    && (slot.accessCount == -1 ==> !slot.dirty)
    && (slot.accessCount != -1 ==> IsDrive(slot.disk) && slot.sector < 0x8000)
    && (slot.accessCount != -1 && !slot.dirty ==> slot.contents == media.Sector(slot.disk, slot.sector))
  }

  /** The kept invariant: clean slots equal the disk, and no sector is cached twice. */
  ghost predicate Inv(slots: seq<Slot>, media: Media) {
    && media.Valid()
    && (forall i :: 0 <= i < |slots| ==> SlotOk(slots[i], media))
    && (forall i, j ::
          0 <= i < |slots| && 0 <= j < |slots| && slots[j].accessCount != -1 &&
          Holds(slots[i], slots[j].disk, slots[j].sector) ==>
            i == j)
  }

  /** The sector a client sees: the cached copy if there is one, else the disk. */
  ghost function ClientSector(slots: seq<Slot>, media: Media, disk: int, sector: U16): (r: seq<Byte>)
    requires Inv(slots, media)
    ensures |r| == 512
    ensures forall i :: 0 <= i < |slots| && Holds(slots[i], disk, sector) ==> r == slots[i].contents
    ensures (forall i :: 0 <= i < |slots| ==> !Holds(slots[i], disk, sector)) ==> r == media.Sector(disk, sector)
  {
    if exists i :: 0 <= i < |slots| && Holds(slots[i], disk, sector) then
      var i :| 0 <= i < |slots| && Holds(slots[i], disk, sector);
      slots[i].contents
    else
      media.Sector(disk, sector)
  }

  ghost function ClientView(slots: seq<Slot>, media: Media, disk: int): (r: seq<Byte>)
    requires Inv(slots, media)
    ensures |r| == 0x200_0000
  {
    seq(0x200_0000, a requires 0 <= a < 0x200_0000 =>
      ClientSector(slots, media, disk, a / 512)[a % 512])
  }

  lemma ClientViewSlice(slots: seq<Slot>, media: Media, disk: int, sector: U16, offset: nat, n: nat)
    requires Inv(slots, media) && offset + n <= 512
    ensures ClientView(slots, media, disk)[sector * 512 + offset..sector * 512 + offset + n]
         == ClientSector(slots, media, disk, sector)[offset..offset + n]
  {
    var start := sector * 512 + offset;
    var part := ClientView(slots, media, disk)[start..start + n];
    forall k | 0 <= k < n
      ensures part[k] == ClientSector(slots, media, disk, sector)[offset..offset + n][k]
    {
      assert (start + k) / 512 == sector;
    }
  }

  /** Writing a slot's contents to its sector keeps the invariant and what clients see. */
  lemma WriteBackKeepsView(slots: seq<Slot>, media: Media, i: nat, media': Media)
    requires Inv(slots, media) && i < |slots| && slots[i].accessCount != -1
    requires media'.Valid()
    requires forall d, s: U16 | IsDrive(d) ::
      media'.Sector(d, s) ==
        if d == slots[i].disk && s == slots[i].sector then slots[i].contents else media.Sector(d, s)
    ensures Inv(slots, media')
    ensures Inv(slots[i := slots[i].(dirty := false)], media')
    ensures forall d :: IsDrive(d) ==> ClientView(slots, media', d) == ClientView(slots, media, d)
    ensures forall d :: IsDrive(d) ==>
      ClientView(slots[i := slots[i].(dirty := false)], media', d) == ClientView(slots, media, d)
  {
    forall j | 0 <= j < |slots|
      ensures SlotOk(slots[j], media')
    {
    }
    var slots' := slots[i := slots[i].(dirty := false)];
    forall d, s: U16 | IsDrive(d)
      ensures ClientSector(slots, media', d, s) == ClientSector(slots, media, d, s)
      ensures ClientSector(slots', media', d, s) == ClientSector(slots, media, d, s)
    {
      if j :| 0 <= j < |slots| && Holds(slots[j], d, s) {
        assert Holds(slots'[j], d, s);
      }
    }
  }

  /** Loading an uncached sector over an empty or clean slot keeps the invariant and what clients see. */
  lemma LoadKeepsView(slots: seq<Slot>, media: Media, i: nat, slot: Slot)
    requires Inv(slots, media) && i < |slots|
    requires slots[i].accessCount == -1 || slots[i].contents == media.Sector(slots[i].disk, slots[i].sector)
    requires IsDrive(slot.disk) && slot.sector < 0x8000 && slot.accessCount == 1 && !slot.dirty
    requires slot.contents == media.Sector(slot.disk, slot.sector)
    requires forall j :: 0 <= j < |slots| ==> !Holds(slots[j], slot.disk, slot.sector)
    ensures Inv(slots[i := slot], media)
    ensures forall d :: IsDrive(d) ==> ClientView(slots[i := slot], media, d) == ClientView(slots, media, d)
  {
    var slots' := slots[i := slot];
    forall d, s: U16 | IsDrive(d)
      ensures ClientSector(slots', media, d, s) == ClientSector(slots, media, d, s)
    {
      if j :| 0 <= j < |slots| && Holds(slots[j], d, s) {
        assert j != i ==> Holds(slots'[j], d, s);
        assert j == i ==> forall k :: 0 <= k < |slots| ==> !Holds(slots'[k], d, s);
      } else if Holds(slot, d, s) {
        assert Holds(slots'[i], d, s);
      }
    }
  }

  lemma CountKeepsView(slots: seq<Slot>, media: Media, i: nat)
    requires Inv(slots, media) && i < |slots| && slots[i].accessCount != -1
    ensures var slots' := slots[i := slots[i].(accessCount := slots[i].accessCount + 1)];
            Inv(slots', media) && forall d | IsDrive(d) :: ClientView(slots', media, d) == ClientView(slots, media, d)
  {
    var slots' := slots[i := slots[i].(accessCount := slots[i].accessCount + 1)];
    forall d, s: U16 | IsDrive(d)
      ensures ClientSector(slots', media, d, s) == ClientSector(slots, media, d, s)
    {
      if j :| 0 <= j < |slots| && Holds(slots[j], d, s) {
        assert Holds(slots'[j], d, s);
      }
    }
  }

  /** With no dirty slot, clients see exactly the drives. */
  lemma CleanViewIsMedia(slots: seq<Slot>, media: Media)
    requires Inv(slots, media)
    requires forall i :: 0 <= i < |slots| ==> !slots[i].dirty
    ensures ClientView(slots, media, ATA0) == media.ata0
    ensures ClientView(slots, media, ATA1) == media.ata1
  {
    forall d, s: U16 | IsDrive(d)
      ensures ClientSector(slots, media, d, s) == media.Sector(d, s)
    {
      if j :| 0 <= j < |slots| && Holds(slots[j], d, s) {
        assert SlotOk(slots[j], media);
      }
    }
  }

  /** Storing bytes in a cached, dirty sector is a write to the flat array clients see. */
  lemma StoreSplicesView(slots: seq<Slot>, media: Media, i: nat, offset: nat, data: seq<Byte>, count: nat)
    requires Inv(slots, media) && i < |slots| && slots[i].accessCount != -1
    requires offset + |data| <= 512
    ensures var slot := slots[i].(contents := Splice(slots[i].contents, offset, data), dirty := true, accessCount := count);
            var slots' := slots[i := slot];
            && Inv(slots', media)
            && (forall d | IsDrive(d) ::
                  ClientView(slots', media, d) ==
                    if d == slots[i].disk
                    then Splice(ClientView(slots, media, d), slots[i].sector * 512 + offset, data)
                    else ClientView(slots, media, d))
  {
    hide Splice, ClientView;
    var slot := slots[i].(contents := Splice(slots[i].contents, offset, data), dirty := true, accessCount := count);
    var slots' := slots[i := slot];
    StoreKeepsInv(slots, media, i, slot);
    forall d | IsDrive(d)
      ensures ClientView(slots', media, d) ==
        if d == slots[i].disk
        then Splice(ClientView(slots, media, d), slots[i].sector * 512 + offset, data)
        else ClientView(slots, media, d)
    {
      hide Inv, ClientSector;
      StoreSectors(slots, media, i, slot, d);
      SectorChange(slots, slots', media, d, slots[i].sector, slots[i].disk, offset, data);
    }
  }

  lemma StoreKeepsInv(slots: seq<Slot>, media: Media, i: nat, slot: Slot)
    requires Inv(slots, media) && i < |slots| && slots[i].accessCount != -1
    requires slot == slots[i].(contents := slot.contents, dirty := true, accessCount := slot.accessCount)
    requires |slot.contents| == 512 && slot.accessCount >= 0
    ensures Inv(slots[i := slot], media)
  {
  }

  lemma StoreSectors(slots: seq<Slot>, media: Media, i: nat, slot: Slot, d: int)
    requires Inv(slots, media) && i < |slots| && slots[i].accessCount != -1 && Inv(slots[i := slot], media)
    requires slot.disk == slots[i].disk && slot.sector == slots[i].sector && slot.accessCount >= 0
    ensures ClientSector(slots, media, slots[i].disk, slots[i].sector) == slots[i].contents
    ensures forall s: U16 ::
      ClientSector(slots[i := slot], media, d, s) ==
        if Holds(slot, d, s) then slot.contents else ClientSector(slots, media, d, s)
  {
    var slots' := slots[i := slot];
    assert Holds(slots[i], slots[i].disk, slots[i].sector);
    forall s: U16
      ensures ClientSector(slots', media, d, s) ==
        if Holds(slot, d, s) then slot.contents else ClientSector(slots, media, d, s)
    {
      if j :| 0 <= j < |slots| && Holds(slots[j], d, s) {
        assert Holds(slots'[j], d, s);
      } else {
        assert forall k :: 0 <= k < |slots| ==> !Holds(slots'[k], d, s);
      }
    }
  }

  /** Views that differ in one sector differ by a splice inside it. */
  lemma SectorChange(slots: seq<Slot>, slots': seq<Slot>, media: Media, d: int, sector: U16, disk: int, offset: nat, data: seq<Byte>)
    requires Inv(slots, media) && Inv(slots', media) && offset + |data| <= 512
    requires forall s: U16 ::
      ClientSector(slots', media, d, s) ==
        if d == disk && s == sector then Splice(ClientSector(slots, media, d, s), offset, data)
        else ClientSector(slots, media, d, s)
    ensures ClientView(slots', media, d) ==
      if d == disk then Splice(ClientView(slots, media, d), sector * 512 + offset, data)
      else ClientView(slots, media, d)
  {
    hide Inv, ClientSector, Splice;
    forall a: nat | a < 0x200_0000
      ensures ClientView(slots', media, d)[a] ==
        if d == disk then Splice(ClientView(slots, media, d), sector * 512 + offset, data)[a]
        else ClientView(slots, media, d)[a]
    {
      var s: U16, o := a / 512, a % 512;
      assert ClientView(slots', media, d)[a] == ClientSector(slots', media, d, s)[o];
      assert ClientView(slots, media, d)[a] == ClientSector(slots, media, d, s)[o];
      SpliceAt(ClientView(slots, media, d), sector * 512 + offset, data, a);
      SpliceAt(ClientSector(slots, media, d, s), offset, data, o);
      assert a == 512 * s + o;
    }
  }

  // ---- The steps of the cache ------------------------------------------------

  datatype CacheState = CacheState(slots: seq<Slot>, media: Media)

  predicate SlotShape(slot: Slot) {
    && |slot.contents| == 512 && slot.accessCount >= -1
    && (slot.accessCount == -1 ==> !slot.dirty)
    && (slot.accessCount != -1 ==> IsDrive(slot.disk))
  }

  /** What holds of the cache whatever sectors were asked for. */
  ghost predicate Shape(s: CacheState) {
    s.media.Valid() && |s.slots| == CACHE_SIZE && forall i :: 0 <= i < |s.slots| ==> SlotShape(s.slots[i])
  }

  /** The first slot that caches the sector, or the number of slots. */
  function Find(slots: seq<Slot>, disk: int, sector: int): (i: nat)
    ensures i <= |slots| && (i < |slots| ==> Holds(slots[i], disk, sector))
    ensures forall j :: 0 <= j < i ==> !Holds(slots[j], disk, sector)
  {
    if slots == [] || Holds(slots[0], disk, sector) then 0 else 1 + Find(slots[1..], disk, sector)
  }

  lemma FindIs(slots: seq<Slot>, disk: int, sector: int, i: nat)
    requires i <= |slots| && (i < |slots| ==> Holds(slots[i], disk, sector))
    requires forall j :: 0 <= j < i ==> !Holds(slots[j], disk, sector)
    ensures Find(slots, disk, sector) == i
  {
  }

  /** The slot that is given up: the first one with the fewest accesses, empty slots having the least. */
  function Victim(slots: seq<Slot>): (v: nat)
    requires |slots| > 0
    ensures v < |slots|
    ensures forall i :: 0 <= i < v ==> slots[v].accessCount < slots[i].accessCount
    ensures forall i :: 0 <= i < |slots| ==> slots[v].accessCount <= slots[i].accessCount
  {
    var n := |slots| - 1;
    if n == 0 then 0
    else
      var v := Victim(slots[..n]);
      assert forall i :: 0 <= i < n ==> slots[..n][i] == slots[i];
      if slots[n].accessCount < slots[v].accessCount then n else v
  }

  lemma VictimIs(slots: seq<Slot>, v: nat)
    requires v < |slots| && forall i :: 0 <= i < v ==> slots[v].accessCount < slots[i].accessCount
    requires forall i :: 0 <= i < |slots| ==> slots[v].accessCount <= slots[i].accessCount
    ensures Victim(slots) == v
  {
  }

  lemma EmptyIsVictim(slots: seq<Slot>, i: nat)
    requires i < |slots| && slots[i].accessCount == -1 && forall j :: 0 <= j < i ==> slots[j].accessCount != -1
    requires forall j :: 0 <= j < |slots| ==> SlotShape(slots[j])
    ensures Victim(slots) == i && !slots[i].dirty
  {
    VictimIs(slots, i);
  }

  ghost function WithSector(m: Media, disk: int, sector: U16, contents: seq<Byte>): (r: Media)
    requires m.Valid() && |contents| == 512
    ensures r.Valid()
  {
    if disk == ATA0 then Media(Splice(m.ata0, sector * 512, contents), m.ata1)
    else Media(m.ata0, Splice(m.ata1, sector * 512, contents))
  }

  lemma SectorsWith(m: Media, disk: int, sector: U16, contents: seq<Byte>)
    requires m.Valid() && |contents| == 512 && IsDrive(disk)
    ensures forall d, s: U16 | IsDrive(d) ::
      WithSector(m, disk, sector, contents).Sector(d, s) ==
        if d == disk && s == sector then contents else m.Sector(d, s)
  {
    hide Splice;
    forall d, s: U16 | IsDrive(d)
      ensures WithSector(m, disk, sector, contents).Sector(d, s) ==
        if d == disk && s == sector then contents else m.Sector(d, s)
    {
      var before := if d == ATA0 then m.ata0 else m.ata1;
      if s == sector {
        SpliceReadsBack(before, sector * 512, contents);
      } else {
        SpliceLeavesRest(before, sector * 512, contents, s * 512, 512);
      }
    }
  }

  /** One whole-sector write and read as the media sees them. */
  lemma SectorPut(m: Media, disk: int, sector: U16, contents: seq<Byte>)
    requires m.Valid() && |contents| == 512 && IsDrive(disk)
    ensures WithSector(m, disk, sector, contents) ==
      if disk == ATA0 then Media(PutFrom(m.ata0, sector * 512, contents), m.ata1)
      else Media(m.ata0, PutFrom(m.ata1, sector * 512, contents))
  {
    hide Splice, PutFrom, SameCell;
    SameCellReflexive(sector * 512);
    PutInRange(if disk == ATA0 then m.ata0 else m.ata1, sector * 512, sector * 512, contents);
  }

  lemma SectorGot(m: Media, disk: int, sector: U16)
    requires m.Valid() && IsDrive(disk)
    ensures m.Sector(disk, sector) == GetFrom(if disk == ATA0 then m.ata0 else m.ata1, sector * 512, 512)
  {
    hide GetFrom, SameCell;
    SameCellReflexive(sector * 512);
    GetInRange(if disk == ATA0 then m.ata0 else m.ata1, sector * 512, sector * 512, 512);
  }

  /** The drives after the slot that is given up was written back. */
  ghost function Evicted(s: CacheState): (m: Media)
    requires Shape(s)
    ensures m.Valid()
  {
    var slot := s.slots[Victim(s.slots)];
    if slot.dirty then WithSector(s.media, slot.disk, slot.sector, slot.contents) else s.media
  }

  /** The look-up, and the load if it fails: the cache after it, and the slot. */
  ghost function Fetched(s: CacheState, disk: int, sector: U16): (r: (CacheState, nat))
    requires Shape(s) && IsDrive(disk)
    ensures Shape(r.0) && r.1 < CACHE_SIZE
    ensures r.0.slots[r.1].accessCount != -1 && r.0.slots[r.1].disk == disk
    ensures Occupies(s, r.0)
  {
    var f := Find(s.slots, disk, Short(sector));
    if f < |s.slots| then (s, f)
    else
      var v, m := Victim(s.slots), Evicted(s);
      (CacheState(s.slots[v := Slot(disk, sector, m.Sector(disk, sector), false, 1)], m), v)
  }

  lemma FetchedIs(s: CacheState, disk: int, sector: U16)
    requires Shape(s) && IsDrive(disk)
    ensures var f, v, m := Find(s.slots, disk, Short(sector)), Victim(s.slots), Evicted(s);
            && (f < CACHE_SIZE ==> Fetched(s, disk, sector) == (s, f))
            && (f >= CACHE_SIZE ==>
                  Fetched(s, disk, sector) == (CacheState(s.slots[v := Slot(disk, sector, m.Sector(disk, sector), false, 1)], m), v))
  {
    hide Find, Victim, Evicted;
  }

  lemma DirtyOccupied(s: CacheState, i: nat)
    requires Shape(s) && i < |s.slots| && s.slots[i].dirty
    ensures s.slots[i].accessCount != -1 && IsDrive(s.slots[i].disk) && |s.slots[i].contents| == 512
  {
  }

  /** No slot becomes empty again. */
  ghost predicate Occupies(s: CacheState, t: CacheState) {
    |t.slots| == |s.slots| && forall i :: 0 <= i < |s.slots| && s.slots[i].accessCount != -1 ==> t.slots[i].accessCount != -1
  }

  ghost function Counted(s: CacheState, i: nat): (r: CacheState)
    requires Shape(s) && i < CACHE_SIZE && s.slots[i].accessCount != -1
    ensures Shape(r) && Occupies(s, r)
  {
    CacheState(s.slots[i := s.slots[i].(accessCount := s.slots[i].accessCount + 1)], s.media)
  }

  /** Bytes put into a slot, which is marked and counted. */
  ghost function Stored(s: CacheState, i: nat, offset: nat, data: seq<Byte>): (r: CacheState)
    requires Shape(s) && i < CACHE_SIZE && s.slots[i].accessCount != -1 && offset + |data| <= 512
    ensures Shape(r) && Occupies(s, r)
  {
    var slot := s.slots[i];
    CacheState(s.slots[i := slot.(contents := Splice(slot.contents, offset, data), dirty := true, accessCount := slot.accessCount + 1)],
      s.media)
  }

  // ata_normalize.
  function SectorOf(sector: U16, offset: nat): U16 {
    (sector + offset / 512) % 0x1_0000
  }

  lemma SectorIs(sector: U16, offset: nat)
    ensures SectorOf(sector, offset) == (sector + offset / 512) % 0x1_0000
  {
  }

  /** diskCache_read on any sector. */
  ghost function ReadBy(s: CacheState, disk: int, bytes: nat, sector0: U16, offset0: nat): (r: (CacheState, seq<Byte>))
    requires Shape(s) && IsDrive(disk)
    ensures Shape(r.0) && Occupies(s, r.0) && |r.1| == bytes
    decreases bytes
  {
    hide Find, Victim, Evicted, Fetched;
    var sector, offset := SectorOf(sector0, offset0), offset0 % 512;
    var f := Fetched(s, disk, sector);
    if offset + bytes >= 512 then
      var first := 512 - offset;
      var rest := ReadBy(f.0, disk, bytes - first, (sector + 1) % 0x1_0000, 0);
      (Counted(rest.0, f.1), f.0.slots[f.1].contents[offset..] + rest.1)
    else
      (Counted(f.0, f.1), f.0.slots[f.1].contents[offset..offset + bytes])
  }

  /** diskCache_write on any sector. */
  ghost function WriteBy(s: CacheState, disk: int, msg: seq<Byte>, sector0: U16, offset0: nat): (r: CacheState)
    requires Shape(s) && IsDrive(disk)
    ensures Shape(r) && Occupies(s, r)
    decreases |msg|
  {
    hide Find, Victim, Evicted, Fetched;
    var sector, offset := SectorOf(sector0, offset0), offset0 % 512;
    var f := Fetched(s, disk, sector);
    if offset + |msg| >= 512 then
      var first := 512 - offset;
      WriteBy(Stored(f.0, f.1, offset, msg[..first]), disk, msg[first..], (sector + 1) % 0x1_0000, 0)
    else
      Stored(f.0, f.1, offset, msg)
  }

  // ---- Within reach the cache is a flat array --------------------------------

  ghost predicate Flat(s: CacheState) {
    Inv(s.slots, s.media) && |s.slots| == CACHE_SIZE
  }

  lemma FlatShape(s: CacheState)
    requires Flat(s)
    ensures Shape(s) && s.media.Valid()
  {
    forall i | 0 <= i < |s.slots| ensures SlotShape(s.slots[i]) {
      assert SlotOk(s.slots[i], s.media);
    }
  }

  ghost function SeenBy(s: CacheState, disk: int): (r: seq<Byte>)
    requires Flat(s)
    ensures |r| == 0x200_0000
  {
    ClientView(s.slots, s.media, disk)
  }

  /** Writing back the slot that is given up keeps what clients see, and makes the slot's contents the drive's. */
  lemma EvictKeepsView(s: CacheState)
    requires Flat(s) && Shape(s)
    ensures var v, m := Victim(s.slots), Evicted(s);
            && Inv(s.slots, m)
            && (s.slots[v].accessCount == -1 || s.slots[v].contents == m.Sector(s.slots[v].disk, s.slots[v].sector))
            && forall d | IsDrive(d) :: ClientView(s.slots, m, d) == ClientView(s.slots, s.media, d)
  {
    var v, m := Victim(s.slots), Evicted(s);
    assert SlotOk(s.slots[v], s.media);
    hide ClientView, Victim, Inv;
    if s.slots[v].dirty {
      SectorsWith(s.media, s.slots[v].disk, s.slots[v].sector, s.slots[v].contents);
      hide WithSector;
      WriteBackKeepsView(s.slots, s.media, v, m);
    }
  }

  /** A look-up below 0x8000 leaves what clients see, and finds the sector. */
  lemma FetchKeepsView(s: CacheState, disk: int, sector: U16)
    requires Flat(s) && Shape(s) && IsDrive(disk) && sector < 0x8000
    ensures var f := Fetched(s, disk, sector);
            && Flat(f.0) && Holds(f.0.slots[f.1], disk, sector)
            && forall d | IsDrive(d) :: SeenBy(f.0, d) == SeenBy(s, d)
  {
    EvictKeepsView(s);
    hide Inv, ClientView, Victim, Evicted;
    var f, v, m := Find(s.slots, disk, Short(sector)), Victim(s.slots), Evicted(s);
    if f == |s.slots| {
      LoadKeepsView(s.slots, m, v, Slot(disk, sector, m.Sector(disk, sector), false, 1));
    }
  }

  lemma CountKeepsSeen(s: CacheState, i: nat)
    requires Flat(s) && Shape(s) && i < CACHE_SIZE && s.slots[i].accessCount != -1
    ensures Flat(Counted(s, i)) && forall d | IsDrive(d) :: SeenBy(Counted(s, i), d) == SeenBy(s, d)
  {
    hide Inv, ClientView;
    CountKeepsView(s.slots, s.media, i);
  }

  lemma StoreSplicesSeen(s: CacheState, i: nat, offset: nat, data: seq<Byte>)
    requires Flat(s) && Shape(s) && i < CACHE_SIZE && s.slots[i].accessCount != -1 && offset + |data| <= 512
    ensures Flat(Stored(s, i, offset, data))
    ensures forall d | IsDrive(d) ::
      SeenBy(Stored(s, i, offset, data), d) ==
        if d == s.slots[i].disk then Splice(SeenBy(s, d), s.slots[i].sector * 512 + offset, data) else SeenBy(s, d)
  {
    hide Inv, ClientView, Splice;
    StoreSplicesView(s.slots, s.media, i, offset, data, s.slots[i].accessCount + 1);
  }

  /** A transfer within reach stays below sector 0x8000. */
  lemma InReach(sector0: U16, offset0: nat, bytes: nat)
    requires sector0 * 512 + offset0 + bytes < 0x100_0000
    ensures SectorOf(sector0, offset0) < 0x8000 && offset0 % 512 < 512
    ensures SectorOf(sector0, offset0) * 512 + offset0 % 512 == sector0 * 512 + offset0
    ensures offset0 % 512 + bytes >= 512 ==> (SectorOf(sector0, offset0) + 1) % 0x1_0000 == SectorOf(sector0, offset0) + 1 < 0x8000
  {
  }

  /** What a slot holds is what clients see of its sector. */
  lemma SlotSeen(s: CacheState, i: nat, disk: int, sector: U16, offset: nat, n: nat)
    requires Flat(s) && i < |s.slots| && Holds(s.slots[i], disk, sector) && offset + n <= 512
    ensures |s.slots[i].contents| == 512
    ensures s.slots[i].contents[offset..offset + n] == SeenBy(s, disk)[sector * 512 + offset..sector * 512 + offset + n]
  {
    ClientViewSlice(s.slots, s.media, disk, sector, offset, n);
    hide ClientView;
  }

  /** A read within reach answers from the flat array, and changes nothing that clients see. */
  lemma {:induction false} ReadLaw(s: CacheState, disk: int, bytes: nat, sector0: U16, offset0: nat)
    requires Flat(s) && Shape(s) && IsDrive(disk) && sector0 * 512 + offset0 + bytes < 0x100_0000
    ensures var r, a := ReadBy(s, disk, bytes, sector0, offset0), sector0 * 512 + offset0;
            && Flat(r.0) && r.1 == SeenBy(s, disk)[a..a + bytes]
            && forall d | IsDrive(d) :: SeenBy(r.0, d) == SeenBy(s, d)
    decreases bytes
  {
    hide *;
    var sector, offset := SectorOf(sector0, offset0), offset0 % 512;
    InReach(sector0, offset0, bytes);
    FetchKeepsView(s, disk, sector);
    var f := Fetched(s, disk, sector);
    ShapeFacts(f.0);
    ReadStep(s, disk, bytes, sector0, offset0);
    if offset + bytes >= 512 {
      var first := 512 - offset;
      SlotSeen(f.0, f.1, disk, sector, offset, first);
      var rest := ReadBy(f.0, disk, bytes - first, (sector + 1) % 0x1_0000, 0);
      ReadLaw(f.0, disk, bytes - first, (sector + 1) % 0x1_0000, 0);
      OccupiesAt(f.0, rest.0, f.1);
      CountKeepsSeen(rest.0, f.1);
      SliceAppend(SeenBy(s, disk), sector0 * 512 + offset0, first, bytes - first);
    } else {
      SlotSeen(f.0, f.1, disk, sector, offset, bytes);
      CountKeepsSeen(f.0, f.1);
    }
  }

  lemma ShapeFacts(s: CacheState)
    requires Shape(s)
    ensures |s.slots| == CACHE_SIZE && forall i :: 0 <= i < |s.slots| ==> |s.slots[i].contents| == 512
  {
  }

  lemma OccupiesAt(s: CacheState, t: CacheState, i: nat)
    requires Occupies(s, t) && i < |s.slots| && s.slots[i].accessCount != -1
    ensures |t.slots| == |s.slots| && t.slots[i].accessCount != -1
  {
  }

  lemma ReadStep(s: CacheState, disk: int, bytes: nat, sector0: U16, offset0: nat)
    requires Shape(s) && IsDrive(disk)
    ensures var sector, offset, f := SectorOf(sector0, offset0), offset0 % 512, Fetched(s, disk, SectorOf(sector0, offset0));
            && |f.0.slots| == CACHE_SIZE && |f.0.slots[f.1].contents| == 512
            && ReadBy(s, disk, bytes, sector0, offset0) ==
                 if offset + bytes >= 512 then
                   var rest := ReadBy(f.0, disk, bytes - (512 - offset), (sector + 1) % 0x1_0000, 0);
                   (Counted(rest.0, f.1), f.0.slots[f.1].contents[offset..512] + rest.1)
                 else (Counted(f.0, f.1), f.0.slots[f.1].contents[offset..offset + bytes])
  {
    hide Shape, Fetched, Counted, SectorOf, Occupies;
    var f, offset := Fetched(s, disk, SectorOf(sector0, offset0)), offset0 % 512;
    ShapeFacts(f.0);
    assert f.0.slots[f.1].contents[offset..512] == f.0.slots[f.1].contents[offset..];
  }

  /** A write within reach splices the flat array of its drive. */
  lemma {:induction false} WriteLaw(s: CacheState, disk: int, msg: seq<Byte>, sector0: U16, offset0: nat)
    requires Flat(s) && Shape(s) && IsDrive(disk) && sector0 * 512 + offset0 + |msg| < 0x100_0000
    ensures var r := WriteBy(s, disk, msg, sector0, offset0);
            && Flat(r)
            && forall d | IsDrive(d) ::
                 SeenBy(r, d) == if d == disk then Splice(SeenBy(s, d), sector0 * 512 + offset0, msg) else SeenBy(s, d)
    decreases |msg|
  {
    hide *;
    var sector, offset := SectorOf(sector0, offset0), offset0 % 512;
    InReach(sector0, offset0, |msg|);
    FetchKeepsView(s, disk, sector);
    var f := Fetched(s, disk, sector);
    ShapeFacts(f.0);
    HoldsIs(f.0.slots[f.1], disk, sector);
    WriteStep(s, disk, msg, sector0, offset0);
    if offset + |msg| >= 512 {
      var first := 512 - offset;
      StoreSplicesSeen(f.0, f.1, offset, msg[..first]);
      var middle := Stored(f.0, f.1, offset, msg[..first]);
      WriteLaw(middle, disk, msg[first..], (sector + 1) % 0x1_0000, 0);
      Split(msg, first);
      SpliceAppend(SeenBy(s, disk), sector0 * 512 + offset0, msg[..first], msg[first..]);
    } else {
      StoreSplicesSeen(f.0, f.1, offset, msg);
    }
  }

  lemma HoldsIs(slot: Slot, disk: int, sector: int)
    ensures Holds(slot, disk, sector) <==> slot.accessCount != -1 && slot.sector == sector && slot.disk == disk
  {
  }

  lemma WriteStep(s: CacheState, disk: int, msg: seq<Byte>, sector0: U16, offset0: nat)
    requires Shape(s) && IsDrive(disk)
    ensures var sector, offset, f := SectorOf(sector0, offset0), offset0 % 512, Fetched(s, disk, SectorOf(sector0, offset0));
            WriteBy(s, disk, msg, sector0, offset0) ==
              if offset + |msg| >= 512 then
                WriteBy(Stored(f.0, f.1, offset, msg[..512 - offset]), disk, msg[512 - offset..], (sector + 1) % 0x1_0000, 0)
              else Stored(f.0, f.1, offset, msg)
  {
    hide Fetched, Stored, SectorOf;
  }

  // cache_flush: the slots are written back in turn.

  ghost function Cleaned(s: CacheState, i: nat): (r: CacheState)
    requires Shape(s) && i < CACHE_SIZE
    ensures Shape(r) && |r.slots| == |s.slots| && forall j :: 0 <= j < |s.slots| ==> r.slots[j].accessCount == s.slots[j].accessCount
  {
    var slot := s.slots[i];
    if slot.dirty then CacheState(s.slots[i := slot.(dirty := false)], WithSector(s.media, slot.disk, slot.sector, slot.contents))
    else s
  }

  /** The cache after the first n slots were written back. */
  ghost function Flushed(s: CacheState, n: nat): (r: CacheState)
    requires Shape(s) && n <= CACHE_SIZE
    ensures Shape(r) && |r.slots| == |s.slots| && forall j :: 0 <= j < |s.slots| ==> r.slots[j].accessCount == s.slots[j].accessCount
  {
    hide Shape;
    if n == 0 then s else Cleaned(Flushed(s, n - 1), n - 1)
  }

  /** A flush cleans the slots and changes nothing else in them. */
  lemma {:induction false} FlushedSlots(s: CacheState, n: nat)
    requires Shape(s) && n <= CACHE_SIZE
    ensures |Flushed(s, n).slots| == |s.slots|
    ensures forall j :: 0 <= j < |s.slots| ==> Flushed(s, n).slots[j] == if j < n then s.slots[j].(dirty := false) else s.slots[j]
  {
    if n > 0 {
      FlushedSlots(s, n - 1);
    }
  }

  predicate DirtyCopy(slot: Slot, disk: int, sector: U16) {
    slot.dirty && slot.disk == disk && slot.sector == sector
  }

  lemma CleanedSector(s: CacheState, i: nat, disk: int, sector: U16)
    requires Shape(s) && i < CACHE_SIZE && IsDrive(disk)
    ensures Cleaned(s, i).media.Sector(disk, sector) ==
      if DirtyCopy(s.slots[i], disk, sector) then s.slots[i].contents else s.media.Sector(disk, sector)
  {
    hide WithSector;
    var slot := s.slots[i];
    if slot.dirty {
      SectorsWith(s.media, slot.disk, slot.sector, slot.contents);
    }
  }

  /** A sector that no dirty slot from m on holds is left as it is. */
  lemma {:induction false} NotFlushed(s: CacheState, m: nat, n: nat, disk: int, sector: U16)
    requires Shape(s) && m <= n <= CACHE_SIZE && IsDrive(disk)
    requires forall j :: m <= j < n ==> !DirtyCopy(s.slots[j], disk, sector)
    ensures Flushed(s, n).media.Sector(disk, sector) == Flushed(s, m).media.Sector(disk, sector)
  {
    hide *;
    if m < n {
      NotFlushed(s, m, n - 1, disk, sector);
      CleanedNext(s, n - 1, disk, sector);
    }
  }

  lemma CleanedNext(s: CacheState, i: nat, disk: int, sector: U16)
    requires Shape(s) && i < CACHE_SIZE && IsDrive(disk)
    ensures |s.slots| == CACHE_SIZE
    ensures Flushed(s, i + 1).media.Sector(disk, sector) ==
      if DirtyCopy(s.slots[i], disk, sector) then s.slots[i].contents else Flushed(s, i).media.Sector(disk, sector)
  {
    FlushedSlots(s, i);
    hide Cleaned, Shape;
    CleanedSector(Flushed(s, i), i, disk, sector);
  }

  /** Of several dirty slots with the same sector the last one is on the drive after a flush. */
  lemma LastFlushed(s: CacheState, disk: int, sector: U16, i: nat)
    requires Shape(s) && IsDrive(disk) && i < CACHE_SIZE && DirtyCopy(s.slots[i], disk, sector)
    requires forall j :: i < j < CACHE_SIZE ==> !DirtyCopy(s.slots[j], disk, sector)
    ensures Flushed(s, CACHE_SIZE).media.Sector(disk, sector) == s.slots[i].contents
  {
    CleanedNext(s, i, disk, sector);
    hide *;
    NotFlushed(s, i + 1, CACHE_SIZE, disk, sector);
  }

  /** Below sector 0x8000 clients see no flush. */
  lemma {:induction false} FlushLaw(s: CacheState, n: nat)
    requires Flat(s) && Shape(s) && n <= CACHE_SIZE
    ensures Flat(Flushed(s, n)) && forall d | IsDrive(d) :: SeenBy(Flushed(s, n), d) == SeenBy(s, d)
  {
    hide Inv, ClientView;
    if n > 0 {
      FlushLaw(s, n - 1);
      CleanKeepsSeen(Flushed(s, n - 1), n - 1);
    }
  }

  lemma CleanKeepsSeen(s: CacheState, i: nat)
    requires Flat(s) && Shape(s) && i < CACHE_SIZE
    ensures Flat(Cleaned(s, i)) && forall d | IsDrive(d) :: SeenBy(Cleaned(s, i), d) == SeenBy(s, d)
  {
    hide Inv, ClientView, WithSector;
    var slot := s.slots[i];
    if slot.dirty {
      SectorsWith(s.media, slot.disk, slot.sector, slot.contents);
      WriteBackKeepsView(s.slots, s.media, i, WithSector(s.media, slot.disk, slot.sector, slot.contents));
    }
  }
}
