/** What the access counts of the cache count, and so which sector a full cache gives up. */
module CacheCounts {
  import opened Bytes
  import opened Ata
  import opened CacheSlots
  import opened CacheLimits

  /** A transfer of some bytes of one sector below 0x8000, or a flush. */
  predicate Local(call: Call) {
    match call
    case ReadCall(disk, bytes, sector, offset) => IsDrive(disk) && sector < 0x8000 && offset + bytes < 512
    case WriteCall(disk, data, sector, offset) => IsDrive(disk) && sector < 0x8000 && offset + |data| < 512
    case FlushCall => true
  }

  ghost function AfterCall(s: CacheState, call: Call): (r: CacheState)
    requires Shape(s) && Local(call)
    ensures Shape(r)
  {
    match call
    case ReadCall(disk, bytes, sector, offset) => ReadBy(s, disk, bytes, sector, offset).0
    case WriteCall(disk, data, sector, offset) => WriteBy(s, disk, data, sector, offset)
    case FlushCall => Flushed(s, CACHE_SIZE)
  }

  /** The call asks for this sector. */
  predicate Names(call: Call, disk: int, sector: int) {
    !call.FlushCall? && call.disk == disk && call.sector == sector
  }

  predicate Cached(slots: seq<Slot>, disk: int, sector: int) {
    exists i :: 0 <= i < |slots| && Holds(slots[i], disk, sector)
  }

  /** A transfer counts one access of the slot that holds its sector, and changes no other slot. */
  lemma HitCounts(s: CacheState, call: Call, i: nat)
    requires Shape(s) && Local(call) && !call.FlushCall? && i < |s.slots| && Holds(s.slots[i], call.disk, call.sector)
    requires forall j :: 0 <= j < i ==> !Holds(s.slots[j], call.disk, call.sector)
    ensures var t := AfterCall(s, call);
            && |t.slots| == |s.slots| && Holds(t.slots[i], call.disk, call.sector)
            && t.slots[i].accessCount == s.slots[i].accessCount + 1
            && forall j :: 0 <= j < |s.slots| && j != i ==> t.slots[j] == s.slots[j]
  {
    ShapeFacts(s);
    FindIs(s.slots, call.disk, call.sector, i);
    hide ReadBy, WriteBy, Find, Victim, Evicted, Splice;
    FetchedIs(s, call.disk, call.sector);
    hide Fetched;
    Transferred(s, call);
  }

  /**
    A transfer of a sector that no slot holds gives up the first of the slots with the fewest accesses;
    the sector starts with two accesses there, its load and the transfer.
   */
  lemma MissCounts(s: CacheState, call: Call)
    requires Shape(s) && Local(call) && !call.FlushCall? && !Cached(s.slots, call.disk, call.sector)
    ensures |s.slots| == |AfterCall(s, call).slots| == CACHE_SIZE
    ensures exists v :: 0 <= v < |s.slots| && GivenUp(s.slots, AfterCall(s, call).slots, v, call.disk, call.sector)
  {
    ShapeFacts(s);
    FindIs(s.slots, call.disk, call.sector, |s.slots|);
    var v := Victim(s.slots);
    hide ReadBy, WriteBy, Find, Victim, Evicted, Splice;
    FetchedIs(s, call.disk, call.sector);
    hide Fetched;
    Transferred(s, call);
    assert GivenUp(s.slots, AfterCall(s, call).slots, v, call.disk, call.sector);
  }

  predicate GivenUp(slots: seq<Slot>, slots': seq<Slot>, v: int, disk: int, sector: int)
    requires 0 <= v < |slots| == |slots'|
  {
    && Holds(slots'[v], disk, sector) && slots'[v].accessCount == 2
    && (forall j :: 0 <= j < |slots| && j != v ==> slots'[j] == slots[j])
    && (forall j :: 0 <= j < |slots| ==> slots[v].accessCount <= slots[j].accessCount)
    && forall j :: 0 <= j < v ==> slots[v].accessCount < slots[j].accessCount
  }

  /** The slots after a transfer: the slot that was fetched has the same key and one access more. */
  lemma Transferred(s: CacheState, call: Call)
    requires Shape(s) && Local(call) && !call.FlushCall?
    ensures var f, t := Fetched(s, call.disk, call.sector), AfterCall(s, call);
            && |t.slots| == |f.0.slots| == CACHE_SIZE
            && t.slots[f.1].disk == f.0.slots[f.1].disk && t.slots[f.1].sector == f.0.slots[f.1].sector
            && t.slots[f.1].accessCount == f.0.slots[f.1].accessCount + 1
            && forall j :: 0 <= j < CACHE_SIZE && j != f.1 ==> t.slots[j] == f.0.slots[j]
  {
    match call
    case ReadCall(disk, bytes, sector, offset) =>
      SingleRead(s, disk, bytes, sector, offset);
      hide ReadBy, Fetched;
    case WriteCall(disk, data, sector, offset) =>
      SingleWrite(s, disk, data, sector, offset);
      hide WriteBy, Fetched, Splice;
  }

  // ---- Runs of calls on cached sectors ---------------------------------------

  /** How many of the calls ask for the sector. */
  function Accesses(calls: seq<Call>, disk: int, sector: int): nat {
    |set k | 0 <= k < |calls| && Names(calls[k], disk, sector)|
  }

  /** No sector is in two slots: part of what every run below 0x8000 keeps. */
  predicate Apart(slots: seq<Slot>) {
    forall i, j :: 0 <= i < j < |slots| && slots[i].accessCount != -1 && slots[j].accessCount != -1 ==>
      slots[i].disk != slots[j].disk || slots[i].sector != slots[j].sector
  }

  predicate AllCached(slots: seq<Slot>, calls: seq<Call>) {
    forall k :: 0 <= k < |calls| ==> Local(calls[k]) && (calls[k].FlushCall? || Cached(slots, calls[k].disk, calls[k].sector))
  }

  /** What the calls are together is what they are one after the other. */
  lemma {:induction false} CallsInTurn(s: CacheState, calls: seq<Call>, call: Call)
    requires Shape(s) && Local(call) && KnownDrives(calls)
    ensures KnownDrives(calls + [call]) && AfterCalls(s, calls + [call]) == AfterCall(AfterCalls(s, calls), call)
    decreases |calls|
  {
    hide Shape, ReadBy, WriteBy;
    var all := calls + [call];
    if calls == [] {
      assert all == [call] && all[1..] == [];
    } else {
      assert all[0] == calls[0] && all[1..] == calls[1..] + [call];
      match calls[0]
      case ReadCall(disk, bytes, sector, offset) => CallsInTurn(ReadBy(s, disk, bytes, sector, offset).0, calls[1..], call);
      case WriteCall(disk, data, sector, offset) => CallsInTurn(WriteBy(s, disk, data, sector, offset), calls[1..], call);
      case FlushCall => CallsInTurn(Flushed(s, CACHE_SIZE), calls[1..], call);
    }
  }

  lemma AccessesNext(calls: seq<Call>, call: Call, disk: int, sector: int)
    ensures Accesses(calls + [call], disk, sector) == Accesses(calls, disk, sector) + if Names(call, disk, sector) then 1 else 0
  {
    var all := calls + [call];
    var before := set k | 0 <= k < |calls| && Names(calls[k], disk, sector);
    var after := set k | 0 <= k < |all| && Names(all[k], disk, sector);
    assert after == if Names(call, disk, sector) then before + {|calls|} else before;
  }

  /** The accesses of a slot, those of the calls included. */
  function TotalAccesses(slot: Slot, calls: seq<Call>): int {
    slot.accessCount + if slot.accessCount == -1 then 0 else Accesses(calls, slot.disk, slot.sector)
  }

  /** The same sectors in the same slots, each counted once for every call that asked for it. */
  predicate CountedFor(slots: seq<Slot>, slots': seq<Slot>, calls: seq<Call>) {
    && |slots'| == |slots|
    && forall i :: 0 <= i < |slots| ==>
         slots'[i].disk == slots[i].disk && slots'[i].sector == slots[i].sector && slots'[i].accessCount == TotalAccesses(slots[i], calls)
  }

  /** Calls on cached sectors load nothing: every slot keeps its sector and counts the calls that asked for it. */
  lemma {:induction false} HitsCounted(s: CacheState, calls: seq<Call>)
    requires Shape(s) && Apart(s.slots) && AllCached(s.slots, calls)
    ensures KnownDrives(calls) && CountedFor(s.slots, AfterCalls(s, calls).slots, calls)
    decreases |calls|
  {
    DrivesKnown(s.slots, calls);
    hide AllCached, Apart, KnownDrives, Shape, Cached, Local, AfterCall, CountedFor;
    if calls == [] {
      NothingCounted(s.slots);
    } else {
      hide AfterCalls;
      var n := |calls| - 1;
      LastCached(s.slots, calls);
      HitsCounted(s, calls[..n]);
      CallsInTurn(s, calls[..n], calls[n]);
      assert calls == calls[..n] + [calls[n]];
      CallCounted(s, AfterCalls(s, calls[..n]), calls[..n], calls[n]);
    }
  }

  lemma NothingCounted(slots: seq<Slot>)
    ensures CountedFor(slots, slots, [])
  {
    forall i | 0 <= i < |slots| ensures Accesses([], slots[i].disk, slots[i].sector) == 0 {
      var none: seq<Call> := [];
      assert (set k | 0 <= k < |none| && Names(none[k], slots[i].disk, slots[i].sector)) == {};
    }
  }

  lemma DrivesKnown(slots: seq<Slot>, calls: seq<Call>)
    requires AllCached(slots, calls)
    ensures KnownDrives(calls)
  {
    hide Cached;
  }

  lemma LastCached(slots: seq<Slot>, calls: seq<Call>)
    requires AllCached(slots, calls) && calls != []
    ensures var n := |calls| - 1;
            && AllCached(slots, calls[..n])
            && Local(calls[n]) && (calls[n].FlushCall? || Cached(slots, calls[n].disk, calls[n].sector))
  {
    hide Cached, Local;
  }

  lemma CallCounted(s: CacheState, t: CacheState, calls: seq<Call>, call: Call)
    requires Shape(s) && Shape(t) && Apart(s.slots) && CountedFor(s.slots, t.slots, calls)
    requires Local(call) && (call.FlushCall? || Cached(s.slots, call.disk, call.sector))
    ensures CountedFor(s.slots, AfterCall(t, call).slots, calls + [call])
  {
    forall i | 0 <= i < |s.slots|
      ensures Accesses(calls + [call], s.slots[i].disk, s.slots[i].sector)
           == Accesses(calls, s.slots[i].disk, s.slots[i].sector) + if Names(call, s.slots[i].disk, s.slots[i].sector) then 1 else 0
    {
      AccessesNext(calls, call, s.slots[i].disk, s.slots[i].sector);
    }
    CountsAreCounts(s);
    CountsAreCounts(t);
    hide Shape, Accesses;
    if call.FlushCall? {
      FlushedSlots(t, CACHE_SIZE);
      hide Flushed;
    } else {
      hide AfterCall, Local;
      var i :| 0 <= i < |s.slots| && Holds(s.slots[i], call.disk, call.sector);
      HitCounts(t, call, i);
    }
  }

  lemma CountsAreCounts(s: CacheState)
    requires Shape(s)
    ensures |s.slots| == CACHE_SIZE && forall i :: 0 <= i < |s.slots| ==> s.slots[i].accessCount >= -1
  {
  }

  /** Slot v got the sector, having the fewest accesses with the calls included; the others only counted. */
  predicate LeastUsed(slots: seq<Slot>, slots': seq<Slot>, calls: seq<Call>, v: int, disk: int, sector: int)
    requires 0 <= v < |slots| == |slots'|
  {
    && Holds(slots'[v], disk, sector) && slots'[v].accessCount == 2
    && (forall j :: 0 <= j < |slots| && j != v ==>
          slots'[j].disk == slots[j].disk && slots'[j].sector == slots[j].sector && slots'[j].accessCount == TotalAccesses(slots[j], calls))
    && (forall j :: 0 <= j < |slots| ==> TotalAccesses(slots[v], calls) <= TotalAccesses(slots[j], calls))
    && forall j :: 0 <= j < v ==> TotalAccesses(slots[v], calls) < TotalAccesses(slots[j], calls)
  }

  /**
    The cache gives up what was used least: after any calls on cached sectors, the first transfer of another
    sector takes the slot whose count, with one more for every call that asked for its sector, is least, the
    first of such slots, and no other slot loses its sector.
   */
  lemma LeastUsedGivenUp(s: CacheState, calls: seq<Call>, call: Call)
    requires Shape(s) && Apart(s.slots) && AllCached(s.slots, calls)
    requires Local(call) && !call.FlushCall? && !Cached(s.slots, call.disk, call.sector)
    ensures KnownDrives(calls) && |s.slots| == |AfterCall(AfterCalls(s, calls), call).slots|
    ensures exists v :: 0 <= v < |s.slots| &&
              LeastUsed(s.slots, AfterCall(AfterCalls(s, calls), call).slots, calls, v, call.disk, call.sector)
  {
    HitsCounted(s, calls);
    CountsAreCounts(s);
    hide Shape, Local, AfterCall, AfterCalls, TotalAccesses, LeastUsed, AllCached, Apart;
    var t := AfterCalls(s, calls);
    assert !Cached(t.slots, call.disk, call.sector) by {
      if i :| 0 <= i < |t.slots| && Holds(t.slots[i], call.disk, call.sector) {
        UsedSince(s.slots[i], calls);
        assert Holds(s.slots[i], call.disk, call.sector);
      }
    }
    MissCounts(t, call);
    var t' := AfterCall(t, call);
    var v :| 0 <= v < |t.slots| && GivenUp(t.slots, t'.slots, v, call.disk, call.sector);
    LeastIs(s.slots, t.slots, t'.slots, calls, v, call.disk, call.sector);
  }

  lemma UsedSince(slot: Slot, calls: seq<Call>)
    ensures TotalAccesses(slot, calls) >= slot.accessCount && (slot.accessCount == -1 ==> TotalAccesses(slot, calls) == -1)
  {
  }

  lemma LeastIs(slots: seq<Slot>, mid: seq<Slot>, slots': seq<Slot>, calls: seq<Call>, v: nat, disk: int, sector: int)
    requires v < |slots| == |mid| == |slots'| && CountedFor(slots, mid, calls) && GivenUp(mid, slots', v, disk, sector)
    ensures LeastUsed(slots, slots', calls, v, disk, sector)
  {
    hide TotalAccesses;
    assert forall j :: 0 <= j < |slots| ==> mid[j].accessCount == TotalAccesses(slots[j], calls);
  }

  /** A cache that clients see as flat arrays has no sector twice. */
  lemma FlatApart(s: CacheState)
    requires Flat(s)
    ensures Apart(s.slots)
  {
    forall i, j | 0 <= i < j < |s.slots| && s.slots[i].accessCount != -1 && s.slots[j].accessCount != -1
      ensures s.slots[i].disk != s.slots[j].disk || s.slots[i].sector != s.slots[j].sector
    {
      if s.slots[i].disk == s.slots[j].disk && s.slots[i].sector == s.slots[j].sector {
        assert Holds(s.slots[i], s.slots[j].disk, s.slots[j].sector);
        assert false;
      }
    }
  }
}
