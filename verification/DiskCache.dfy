/** The write-back sector cache in place: ten slots in front of the ATA driver. */
module DiskCache {
  import opened Bytes
  import opened Ata
  import opened CacheSlots

  class Cache {
    const ata: Controller
    const cachedData: array<Slot>

    ghost function OnDisk(): Media
      requires ata.Valid()
      reads ata.primary, ata.secondary
    {
      Media(ata.View(ATA0), ata.View(ATA1))
    }

    ghost predicate Valid()
      reads cachedData, ata.primary, ata.secondary
    {
      && ata.Valid()
      && cachedData.Length == CACHE_SIZE
      && Inv(cachedData[..], OnDisk())
    }

    /** The flat byte array of a drive, as clients of the cache see it. */
    ghost function View(disk: int): (r: seq<Byte>)
      requires Valid()
      reads cachedData, ata.primary, ata.secondary
      ensures |r| == 0x200_0000
    {
      ClientView(cachedData[..], OnDisk(), disk)
    }

    /** The slots and the drives. */
    ghost function State(): CacheState
      requires ata.Valid()
      reads cachedData, ata.primary, ata.secondary
    {
      CacheState(cachedData[..], OnDisk())
    }

    /** The cache whatever sectors were asked for; Valid() holds as long as all were below 0x8000. */
    ghost predicate Ready()
      reads cachedData, ata.primary, ata.secondary
    {
      ata.Valid() && cachedData.Length == CACHE_SIZE && Shape(State())
    }

    lemma ValidIsReady()
      requires Valid()
      ensures Ready() && Flat(State()) && forall d | IsDrive(d) :: View(d) == SeenBy(State(), d)
    {
      FlatShape(State());
    }

    lemma FlatIsValid()
      requires Ready() && Flat(State())
      ensures Valid() && forall d | IsDrive(d) :: View(d) == SeenBy(State(), d)
    {
    }

    constructor (ata: Controller)
      requires ata.Valid()
      ensures Valid() && fresh(cachedData) && this.ata == ata
      ensures forall d | IsDrive(d) :: View(d) == ata.View(d)
      ensures forall i :: 0 <= i < CACHE_SIZE ==> cachedData[i].accessCount == -1
    {
      this.ata := ata;
      cachedData := new Slot[CACHE_SIZE](_ => Slot(0, 0, seq(512, _ => 0), false, -1));
      new;
      assert forall d | IsDrive(d) :: View(d) == ata.View(d) by {
        forall d, a: nat | IsDrive(d) && a < 0x200_0000
          ensures View(d)[a] == ata.View(d)[a]
        {
          assert ClientSector(cachedData[..], OnDisk(), d, a / 512) == OnDisk().Sector(d, a / 512);
        }
      }
    }

    /** _cacheIndex: the first slot that caches the sector, or -1. */
    method CacheIndex(disk: int, sector: U16) returns (index: int)
      requires Ready()
      ensures -1 <= index < CACHE_SIZE
      ensures index != -1 ==> Holds(cachedData[index], disk, Short(sector))
      ensures index == -1 ==> forall i :: 0 <= i < CACHE_SIZE ==> !Holds(cachedData[i], disk, Short(sector))
      ensures Find(cachedData[..], disk, Short(sector)) == if index == -1 then CACHE_SIZE else index
    {
      hide Find, Shape;
      for i := 0 to CACHE_SIZE
        invariant forall j :: 0 <= j < i ==> !Holds(cachedData[j], disk, Short(sector))
      {
        if cachedData[i].accessCount != -1 && cachedData[i].sector == Short(sector) && cachedData[i].disk == disk {
          FindIs(cachedData[..], disk, Short(sector), i);
          return i;
        }
      }
      FindIs(cachedData[..], disk, Short(sector), CACHE_SIZE);
      return -1;
    }

    /** _nextFreeIndex: the first empty slot, else the first one with the fewest accesses, written back if dirty. */
    method NextFreeIndex() returns (index: nat)
      requires Ready()
      modifies ata.primary, ata.secondary
      ensures Ready() && index < CACHE_SIZE
      ensures OnDisk() == Evicted(old(State())) && index == Victim(cachedData[..])
      ensures forall i :: 0 <= i < index ==> cachedData[index].accessCount < cachedData[i].accessCount
      ensures forall i :: 0 <= i < CACHE_SIZE ==> cachedData[index].accessCount <= cachedData[i].accessCount
    {
      hide Victim, WithSector;
      ghost var slots := cachedData[..];
      var nextToFree := 0;
      for i := 0 to CACHE_SIZE
        invariant 0 <= nextToFree < CACHE_SIZE && (i == 0 ==> nextToFree == 0) && (i > 0 ==> nextToFree < i)
        invariant forall j :: 0 <= j < i ==> cachedData[j].accessCount != -1
        invariant forall j :: 0 <= j < nextToFree ==> cachedData[nextToFree].accessCount < cachedData[j].accessCount
        invariant forall j :: 0 <= j < i ==> cachedData[nextToFree].accessCount <= cachedData[j].accessCount
      {
        if cachedData[i].accessCount == -1 {
          EmptyIsVictim(slots, i);
          return i;
        } else if cachedData[i].accessCount < cachedData[nextToFree].accessCount {
          nextToFree := i;
        }
      }
      VictimIs(slots, nextToFree);
      if cachedData[nextToFree].dirty {
        WriteBack(nextToFree);
      }
      return nextToFree;
    }

    /** The ata_write of a slot's contents, common to eviction and flush. */
    method WriteBack(i: nat)
      requires Ready() && i < CACHE_SIZE && cachedData[i].accessCount != -1
      modifies ata.primary, ata.secondary
      ensures Ready()
      ensures OnDisk() == WithSector(old(OnDisk()), cachedData[i].disk, cachedData[i].sector, cachedData[i].contents)
    {
      hide BytesOf, PutFrom, Splice;
      ghost var before := OnDisk();
      var slot := cachedData[i];
      var _ := ata.Write(slot.disk, slot.contents, slot.sector, 0);
      SectorPut(before, slot.disk, slot.sector, slot.contents);
    }

    /** _cachSector. */
    method CacheSector(index: nat, disk: int, sector: U16)
      requires Ready() && index < CACHE_SIZE && IsDrive(disk)
      modifies cachedData
      ensures Ready()
      ensures cachedData[..] == old(cachedData[..])[index := Slot(disk, sector, OnDisk().Sector(disk, sector), false, 1)]
    {
      hide BytesOf, GetFrom;
      var _, contents := ata.Read(disk, 512, sector, 0);
      SectorGot(OnDisk(), disk, sector);
      cachedData[index] := Slot(disk, sector, contents, false, 1);
    }

    /** The look-up and load that open both diskCache_read and diskCache_write. */
    method Fetch(disk: int, sector: U16) returns (index: nat)
      requires Ready() && IsDrive(disk)
      modifies cachedData, ata.primary, ata.secondary
      ensures Ready()
      ensures State() == Fetched(old(State()), disk, sector).0 && index == Fetched(old(State()), disk, sector).1
    {
      hide Find, Victim, Evicted, Shape;
      ghost var s := State();
      var found := CacheIndex(disk, sector);
      FetchedIs(s, disk, sector);
      if found == -1 {
        index := NextFreeIndex();
        CacheSector(index, disk, sector);
      } else {
        index := found;
      }
    }

    method CountAccess(index: nat)
      requires Ready() && index < CACHE_SIZE && cachedData[index].accessCount != -1
      modifies cachedData
      ensures Ready() && State() == Counted(old(State()), index)
      ensures cachedData[..] == old(cachedData[..])[index := old(cachedData[index]).(accessCount := old(cachedData[index].accessCount) + 1)]
    {
      ghost var slots := cachedData[..];
      cachedData[index] := cachedData[index].(accessCount := cachedData[index].accessCount + 1);
      assert cachedData[..] == slots[index := cachedData[index]];
    }

    /** Marks the slot dirty, counts the access and copies the bytes into it. */
    method Store(index: nat, data: seq<Byte>, offset: nat)
      requires Ready() && index < CACHE_SIZE && cachedData[index].accessCount != -1
      requires offset + |data| <= 512
      modifies cachedData
      ensures Ready() && State() == Stored(old(State()), index, offset, data)
      ensures cachedData[index].dirty && cachedData[index].accessCount == old(cachedData[index].accessCount) + 1
    {
      hide BytesOf, Splice;
      ghost var slots := cachedData[..];
      var count := cachedData[index].accessCount + 1;
      cachedData[index] := cachedData[index].(dirty := true, accessCount := count);
      cachedData[index] := cachedData[index].(contents := Splice(cachedData[index].contents, offset, data));
      assert cachedData[..] == slots[index := cachedData[index]];
    }

    lemma StateFacts()
      requires Ready()
      ensures ata.Valid() && State().media == Media(ata.View(ATA0), ata.View(ATA1))
      ensures State().slots == cachedData[..] && |State().slots| == cachedData.Length == CACHE_SIZE == 10 && Shape(State())
      ensures forall i :: 0 <= i < CACHE_SIZE ==> State().slots[i] == cachedData[i] && |cachedData[i].contents| == 512
    {
    }

    /** diskCache_read, of any sector. */
    method ReadAny(disk: int, bytes: nat, sector0: U16, offset0: nat) returns (msg: seq<Byte>)
      requires Ready() && IsDrive(disk)
      modifies cachedData, ata.primary, ata.secondary
      ensures Ready()
      ensures State() == ReadBy(old(State()), disk, bytes, sector0, offset0).0
      ensures msg == ReadBy(old(State()), disk, bytes, sector0, offset0).1
      decreases bytes
    {
      hide *;
      StateFacts();
      ReadStep(State(), disk, bytes, sector0, offset0);
      var sector, offset := Controller.Normalize(sector0, offset0);
      SectorIs(sector0, offset0);
      var index := Fetch(disk, sector);
      StateFacts();
      if offset + bytes >= 512 {
        var first := 512 - offset;
        ghost var s := State();
        msg := cachedData[index].contents[offset..];
        // The nested call may evict this slot; the count below then goes to the slot's new sector.
        var rest := ReadAny(disk, bytes - first, (sector as int + 1) % 0x1_0000, 0);
        OccupiesAt(s, State(), index);
        StateFacts();
        msg := msg + rest;
        CountAccess(index);
        return;
      }
      msg := cachedData[index].contents[offset..offset + bytes];
      CountAccess(index);
    }

    /** diskCache_write, of any sector. */
    method WriteAny(disk: int, msg: seq<Byte>, sector0: U16, offset0: nat)
      requires Ready() && IsDrive(disk)
      modifies cachedData, ata.primary, ata.secondary
      ensures Ready()
      ensures State() == WriteBy(old(State()), disk, msg, sector0, offset0)
      decreases |msg|
    {
      hide *;
      StateFacts();
      WriteStep(State(), disk, msg, sector0, offset0);
      var sector, offset := Controller.Normalize(sector0, offset0);
      SectorIs(sector0, offset0);
      var index := Fetch(disk, sector);
      StateFacts();
      if offset + |msg| >= 512 {
        var first := 512 - offset;
        Store(index, msg[..first], offset);
        WriteAny(disk, msg[first..], (sector as int + 1) % 0x1_0000, 0);
        return;
      }
      Store(index, msg, offset);
    }

    /** A read that stays below sector 0x8000 answers from the flat array. */
    method Read(disk: int, bytes: nat, sector0: U16, offset0: nat) returns (msg: seq<Byte>)
      requires Valid() && IsDrive(disk)
      requires sector0 * 512 + offset0 + bytes < 0x100_0000
      modifies cachedData, ata.primary, ata.secondary
      ensures Valid()
      ensures forall d | IsDrive(d) :: View(d) == old(View(d))
      ensures var a := sector0 * 512 + offset0;
              msg == View(disk)[a..a + bytes]
    {
      hide *;
      ValidIsReady();
      ReadLaw(State(), disk, bytes, sector0, offset0);
      msg := ReadAny(disk, bytes, sector0, offset0);
      FlatIsValid();
    }

    /** A write that stays below sector 0x8000 splices the flat array of its drive. */
    method Write(disk: int, msg: seq<Byte>, sector0: U16, offset0: nat)
      requires Valid() && IsDrive(disk)
      requires sector0 * 512 + offset0 + |msg| < 0x100_0000
      modifies cachedData, ata.primary, ata.secondary
      ensures Valid()
      ensures forall d | IsDrive(d) ::
        View(d) == if d == disk then Splice(old(View(d)), sector0 * 512 + offset0, msg) else old(View(d))
    {
      hide *;
      ValidIsReady();
      WriteLaw(State(), disk, msg, sector0, offset0);
      WriteAny(disk, msg, sector0, offset0);
      FlatIsValid();
    }

    /** cache_flush: every dirty slot is written back, the first one first. */
    method FlushAny()
      requires Ready()
      modifies cachedData, ata.primary, ata.secondary
      ensures Ready() && State() == Flushed(old(State()), CACHE_SIZE)
    {
      hide Shape, WithSector;
      ghost var s := State();
      for i := 0 to CACHE_SIZE
        invariant Ready() && State() == Flushed(s, i)
      {
        if cachedData[i].dirty {
          ghost var slots := cachedData[..];
          DirtyOccupied(State(), i);
          WriteBack(i);
          cachedData[i] := cachedData[i].(dirty := false);
          assert cachedData[..] == slots[i := slots[i].(dirty := false)];
        }
        assert State() == Cleaned(Flushed(s, i), i);
      }
    }

    /** After requests below sector 0x8000 the drives hold what clients see, no slot is dirty, and clients see no change. */
    method Flush()
      requires Valid()
      modifies cachedData, ata.primary, ata.secondary
      ensures Valid()
      ensures forall i :: 0 <= i < CACHE_SIZE ==> !cachedData[i].dirty
      ensures forall d | IsDrive(d) :: View(d) == old(View(d))
      ensures forall d | IsDrive(d) :: ata.View(d) == View(d)
    {
      ValidIsReady();
      hide ClientView, Inv, Shape;
      FlushLaw(State(), CACHE_SIZE);
      FlushedSlots(State(), CACHE_SIZE);
      FlushAny();
      FlatIsValid();
      CleanViewIsMedia(cachedData[..], OnDisk());
    }
  }
}
