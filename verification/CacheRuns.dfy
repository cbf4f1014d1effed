/** Whole runs of cache requests against a flat byte array per drive. */
module CacheRuns {
  import opened Bytes
  import opened Ata
  import opened CacheSlots
  import opened DiskCache

  datatype Request =
    | Reading(disk: int, bytes: nat, sector: U16, offset: nat)
    | Writing(disk: int, msg: seq<Byte>, sector: U16, offset: nat)
    | Flushing

  /** The drive is known, and no sector touched reaches 0x8000, not even the one behind the transfer. */
  predicate InReach(r: Request) {
    match r
    case Reading(disk, bytes, sector, offset) => IsDrive(disk) && sector * 512 + offset + bytes < 0x100_0000
    case Writing(disk, msg, sector, offset) => IsDrive(disk) && sector * 512 + offset + |msg| < 0x100_0000
    case Flushing => true
  }

  ghost function Drive(m: Media, disk: int): seq<Byte> {
    if disk == ATA0 then m.ata0 else m.ata1
  }

  /** What a request does to the flat arrays. */
  ghost function Applied(m: Media, r: Request): (n: Media)
    requires m.Valid() && InReach(r)
    ensures n.Valid()
  {
    match r
    case Writing(disk, msg, sector, offset) =>
      if disk == ATA0 then Media(Splice(m.ata0, sector * 512 + offset, msg), m.ata1)
      else Media(m.ata0, Splice(m.ata1, sector * 512 + offset, msg))
    case _ => m
  }

  /** What the flat arrays answer a request. */
  ghost function Answer(m: Media, r: Request): seq<Byte>
    requires m.Valid() && InReach(r)
  {
    match r
    case Reading(disk, bytes, sector, offset) =>
      Drive(m, disk)[sector * 512 + offset..sector * 512 + offset + bytes]
    case _ => []
  }

  ghost function AppliedAll(m: Media, rs: seq<Request>): (n: Media)
    requires m.Valid() && forall i :: 0 <= i < |rs| ==> InReach(rs[i])
    ensures n.Valid()
  {
    if rs == [] then m else Applied(AppliedAll(m, rs[..|rs| - 1]), rs[|rs| - 1])
  }

  ghost function AnswerAll(m: Media, rs: seq<Request>): (a: seq<seq<Byte>>)
    requires m.Valid() && forall i :: 0 <= i < |rs| ==> InReach(rs[i])
    ensures |a| == |rs|
  {
    if rs == [] then []
    else AnswerAll(m, rs[..|rs| - 1]) + [Answer(AppliedAll(m, rs[..|rs| - 1]), rs[|rs| - 1])]
  }

  ghost function Seen(cache: Cache): (m: Media)
    requires cache.Valid()
    reads cache.cachedData, cache.ata.primary, cache.ata.secondary
    ensures m.Valid()
  {
    Media(cache.View(ATA0), cache.View(ATA1))
  }

  /** One request through the cache. */
  method Handle(cache: Cache, r: Request) returns (answer: seq<Byte>)
    requires cache.Valid() && InReach(r)
    modifies cache.cachedData, cache.ata.primary, cache.ata.secondary
    ensures cache.Valid()
    ensures Seen(cache) == Applied(old(Seen(cache)), r) && answer == Answer(old(Seen(cache)), r)
  {
    answer := [];
    match r
    case Reading(disk, bytes, sector, offset) =>
      answer := cache.Read(disk, bytes, sector, offset);
    case Writing(disk, msg, sector, offset) =>
      cache.Write(disk, msg, sector, offset);
    case Flushing =>
      cache.Flush();
  }

  /** Any run of reads, writes and flushes answers and ends like the same run on flat arrays. */
  method Replay(cache: Cache, rs: seq<Request>) returns (answers: seq<seq<Byte>>)
    requires cache.Valid() && forall i :: 0 <= i < |rs| ==> InReach(rs[i])
    modifies cache.cachedData, cache.ata.primary, cache.ata.secondary
    ensures cache.Valid()
    ensures Seen(cache) == AppliedAll(old(Seen(cache)), rs) && answers == AnswerAll(old(Seen(cache)), rs)
  {
    hide cache.Valid, Seen, Applied, Answer;
    ghost var m := Seen(cache);
    answers := [];
    for i := 0 to |rs|
      invariant cache.Valid()
      invariant Seen(cache) == AppliedAll(m, rs[..i]) && answers == AnswerAll(m, rs[..i])
    {
      assert rs[..i + 1][..i] == rs[..i];
      var answer := Handle(cache, rs[i]);
      answers := answers + [answer];
    }
    assert rs[..|rs|] == rs;
  }

  /** A byte no write of the run covers is read as it was; the last write that covers a byte wins. */
  lemma {:induction false} LastWriteWins(m: Media, rs: seq<Request>, k: nat, disk: int, a: nat)
    requires m.Valid() && forall i :: 0 <= i < |rs| ==> InReach(rs[i])
    requires k <= |rs| && IsDrive(disk) && a < 0x200_0000
    requires forall i :: k <= i < |rs| ==> !Covers(rs[i], disk, a)
    ensures k == 0 ==> Drive(AppliedAll(m, rs), disk)[a] == Drive(m, disk)[a]
    ensures k > 0 && Covers(rs[k - 1], disk, a) ==>
              Drive(AppliedAll(m, rs), disk)[a] == rs[k - 1].msg[a - (rs[k - 1].sector * 512 + rs[k - 1].offset)]
    decreases |rs| - k
  {
    if rs != [] && k < |rs| {
      LastWriteWins(m, rs[..|rs| - 1], k, disk, a);
    }
  }

  /** A read answers the bytes of the drive, and so those of the last writes of the run before it. */
  lemma ReadAnswers(m: Media, rs: seq<Request>, disk: int, bytes: nat, sector: U16, offset: nat)
    requires m.Valid() && (forall i :: 0 <= i < |rs| ==> InReach(rs[i])) && InReach(Reading(disk, bytes, sector, offset))
    ensures var answer := Answer(AppliedAll(m, rs), Reading(disk, bytes, sector, offset));
            && |answer| == bytes
            && forall i :: 0 <= i < bytes ==> answer[i] == Drive(AppliedAll(m, rs), disk)[sector * 512 + offset + i]
  {
  }

  predicate Covers(r: Request, disk: int, a: int) {
    r.Writing? && r.disk == disk && r.sector * 512 + r.offset <= a < r.sector * 512 + r.offset + |r.msg|
  }
}
