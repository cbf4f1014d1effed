/**
  The ATA driver: whole-sector transfers over a 16-bit data register, presented as byte
  reads and writes at any sector, offset and length.
 */
module Ata {
  import opened Bytes

  const ATA0 := 0x1f0
  const ATA1 := 0x170
  // A sector has 512 bytes (256 words) and a 16-bit number, so a drive has
  // 0x1_0000 sectors and 0x200_0000 bytes.

  predicate IsDrive(ata: int) {
    ata == ATA0 || ata == ATA1
  }

  /** The bytes of a drive whose cells are 16-bit words, low byte first. */
  ghost function BytesOf(words: seq<U16>): (r: seq<Byte>)
    ensures |r| == 2 * |words|
  {
    seq(2 * |words|, i requires 0 <= i < 2 * |words| =>
      if i % 2 == 0 then words[i / 2] % 0x100 else words[i / 2] / 0x100)
  }

  /** Two addresses name the same cell of a circular disk. */
  ghost predicate SameCell(a: nat, b: nat) {
    a % 0x200_0000 == b % 0x200_0000
  }

  lemma SameCellTransitive(a: nat, b: nat, c: nat)
    requires SameCell(a, b) && SameCell(b, c)
    ensures SameCell(a, c)
  {
  }

  lemma SameCellReflexive(a: nat)
    ensures SameCell(a, a)
  {
  }

  lemma BytesOfWord(words: seq<U16>, k: nat)
    requires k < |words|
    ensures BytesOf(words)[2 * k] == words[k] % 0x100 && BytesOf(words)[2 * k + 1] == words[k] / 0x100
  {
  }

  /** Storing one word changes exactly its two bytes. */
  lemma BytesOfUpdate(words: seq<U16>, k: nat, out: U16)
    requires k < |words|
    ensures BytesOf(words[k := out]) == BytesOf(words)[2 * k := out % 0x100][2 * k + 1 := out / 0x100]
  {
  }

  /** A disk is circular: sector numbers are 16 bits wide and wrap. */
  ghost function GetFrom(m: seq<Byte>, a: nat, n: nat): (r: seq<Byte>)
    requires |m| == 0x200_0000
    ensures |r| == n
    ensures forall i :: 0 <= i < n ==> r[i] == m[(a + i) % 0x200_0000]
  {
    seq(n, i requires 0 <= i < n => m[(a + i) % 0x200_0000])
  }

  ghost function PutFrom(m: seq<Byte>, a: nat, d: seq<Byte>): (r: seq<Byte>)
    requires |m| == 0x200_0000
    ensures |r| == 0x200_0000
    decreases |d|
  {
    if d == [] then m else PutFrom(m[a % 0x200_0000 := d[0]], a + 1, d[1..])
  }

  lemma PutNothing(m: seq<Byte>, a: nat)
    requires |m| == 0x200_0000
    ensures PutFrom(m, a, []) == m
  {
  }

  lemma {:induction false} PutAppend(m: seq<Byte>, a: nat, x: seq<Byte>, y: seq<Byte>)
    requires |m| == 0x200_0000
    ensures PutFrom(m, a, x + y) == PutFrom(PutFrom(m, a, x), a + |x|, y)
    decreases |x|
  {
    if x == [] {
      assert x + y == y;
    } else {
      assert (x + y)[1..] == x[1..] + y;
      PutAppend(m[a % 0x200_0000 := x[0]], a + 1, x[1..], y);
    }
  }

  /** How far cell c lies after address a, going round the disk. */
  ghost function Distance(a: nat, c: nat): (r: nat)
    ensures r < 0x200_0000
  {
    (c - a) % 0x200_0000
  }

  lemma DistanceStep(a: nat, c: nat)
    requires c < 0x200_0000
    ensures Distance(a, c) == 0 <==> c == a % 0x200_0000
    ensures Distance(a + 1, c) == if Distance(a, c) == 0 then 0x1ff_ffff else Distance(a, c) - 1
  {
  }

  /** A write no longer than the disk: each written cell gets its byte, every other cell keeps its own. */
  lemma {:induction false} PutCells(m: seq<Byte>, a: nat, d: seq<Byte>, c: nat)
    requires |m| == 0x200_0000 && |d| <= 0x200_0000 && c < 0x200_0000
    ensures PutFrom(m, a, d)[c] == if Distance(a, c) < |d| then d[Distance(a, c)] else m[c]
    decreases |d|
  {
    hide Distance;
    if d != [] {
      PutCells(m[a % 0x200_0000 := d[0]], a + 1, d[1..], c);
      DistanceStep(a, c);
    }
  }

  lemma CellInRange(a: nat, cell: nat, c: nat)
    requires SameCell(cell, a) && cell < 0x200_0000 && c < 0x200_0000
    ensures Distance(a, c) == if cell <= c then c - cell else c - cell + 0x200_0000
  {
  }

  lemma PutInRange(m: seq<Byte>, a: nat, cell: nat, d: seq<Byte>)
    requires |m| == 0x200_0000 && SameCell(cell, a) && cell < 0x200_0000 && cell + |d| <= 0x200_0000
    ensures PutFrom(m, a, d) == Splice(m, cell, d)
  {
    hide SameCell, PutFrom, Distance;
    forall c | 0 <= c < 0x200_0000
      ensures PutFrom(m, a, d)[c] == Splice(m, cell, d)[c]
    {
      PutCells(m, a, d, c);
      CellInRange(a, cell, c);
    }
  }

  lemma CellOffset(a: nat, i: nat)
    requires i < 0x200_0000
    ensures Distance(a, (a + i) % 0x200_0000) == i
  {
  }

  /** Reading back what was written returns it, wherever the transfer starts and even if it wraps. */
  lemma ReadBack(m: seq<Byte>, a: nat, d: seq<Byte>)
    requires |m| == 0x200_0000 && |d| <= 0x200_0000
    ensures GetFrom(PutFrom(m, a, d), a, |d|) == d
  {
    hide PutFrom, Distance;
    forall i | 0 <= i < |d|
      ensures GetFrom(PutFrom(m, a, d), a, |d|)[i] == d[i]
    {
      PutCells(m, a, d, (a + i) % 0x200_0000);
      CellOffset(a, i);
    }
  }

  /** Moving whole sectors from the offset into the (16-bit) sector number names the same cell. */
  lemma NormalizedCell(sector: U16, offset: nat)
    ensures SameCell((sector + offset / 512) % 0x1_0000 * 512 + offset % 512, sector * 512 + offset)
  {
    var x := sector + offset / 512;
    var q, r := x / 0x1_0000, x % 0x1_0000;
    assert sector * 512 + offset == q * 0x200_0000 + (r * 512 + offset % 512);
  }

  /** A transfer that reaches the end of a sector goes on at the start of the next one. */
  lemma NextSectorCell(sector: U16, offset: nat, size: nat, a: nat)
    requires offset + size == 512
    requires SameCell(sector * 512 + offset, a)
    ensures SameCell((sector + 1) % 0x1_0000 * 512, a + size)
  {
    NormalizedCell(sector, 512);
    assert SameCell(sector * 512 + offset + size, a + size);
  }

  lemma CellAfter(a: nat, cell: nat, k: nat)
    requires SameCell(cell, a) && cell + k < 0x200_0000
    ensures (a + k) % 0x200_0000 == cell + k
  {
  }

  lemma GetInRange(m: seq<Byte>, a: nat, cell: nat, n: nat)
    requires |m| == 0x200_0000 && SameCell(cell, a) && cell < 0x200_0000 && cell + n <= 0x200_0000
    ensures GetFrom(m, a, n) == m[cell..cell + n]
  {
    hide SameCell;
    forall k | 0 <= k < n
      ensures GetFrom(m, a, n)[k] == m[cell + k]
    {
      CellAfter(a, cell, k);
    }
  }

  lemma GetAppend(m: seq<Byte>, a: nat, x: nat, y: nat)
    requires |m| == 0x200_0000
    ensures GetFrom(m, a, x + y) == GetFrom(m, a, x) + GetFrom(m, a + x, y)
  {
  }

  lemma SpliceGrow(m: seq<Byte>, a: nat, d: seq<Byte>, i: nat)
    requires a + |d| <= |m| && i + 2 <= |d|
    ensures Splice(m, a, d[..i])[a + i := d[i]][a + i + 1 := d[i + 1]] == Splice(m, a, d[..i + 2])
  {
  }

  /** A whole-sector write of the old sector overlaid with msg is a write of msg alone. */
  lemma Overlay(m: seq<Byte>, base: nat, tmp: seq<Byte>, offset: nat, msg: seq<Byte>)
    requires base + |tmp| <= |m| && offset + |msg| <= |tmp|
    requires forall k :: 0 <= k < |tmp| ==>
      tmp[k] == if offset <= k < offset + |msg| then msg[k - offset] else m[base + k]
    ensures Splice(m, base, tmp) == Splice(m, base + offset, msg)
  {
  }

  class Controller {
    const primary: array<U16>
    const secondary: array<U16>

    ghost predicate Valid() {
      && primary != secondary
      && primary.Length == 0x100_0000
      && secondary.Length == 0x100_0000
    }

    function Words(ata: int): array<U16> {
      if ata == ATA0 then primary else secondary
    }

    /** The flat byte array that a drive presents. */
    ghost function View(ata: int): (r: seq<Byte>)
      requires Valid()
      reads Words(ata)
      ensures |r| == 0x200_0000
    {
      BytesOf(Words(ata)[..])
    }

    constructor ()
      ensures Valid() && fresh(primary) && fresh(secondary)
    {
      primary := new U16[0x100_0000](_ => 0);
      secondary := new U16[0x100_0000](_ => 0);
    }

    /** ata_normalize, which the transfer loops repeat in line. */
    static method Normalize(sector0: U16, offset0: nat) returns (sector: U16, offset: nat)
      ensures offset < 512
      ensures SameCell(sector * 512 + offset, sector0 * 512 + offset0)
      ensures sector == (sector0 + offset0 / 512) % 0x1_0000 && offset == offset0 % 512
    {
      SameCellReflexive(sector0 * 512 + offset0);
      sector, offset := sector0, offset0;
      NormalizedCell(sector, offset);
      if offset >= 512 {
        sector := (sector + offset / 512) % 0x1_0000;
        offset := offset % 512;
      }
    }

    static method TranslateBytes(data: U16) returns (low: Byte, high: Byte)
      ensures low == data % 0x100 && high == data / 0x100
    {
      low := data % 0x100;
      high := data / 0x100 % 0x100;
    }

    static method WriteDataToRegister(upper: Byte, lower: Byte) returns (out: U16)
      ensures out % 0x100 == lower && out / 0x100 == upper
    {
      out := upper * 0x100 + lower;
    }

    method ReadSector(ata: int, sector: U16, offset: nat, count: nat) returns (ans: seq<Byte>)
      requires Valid() && IsDrive(ata) && offset + count <= 512
      ensures |ans| == count
      ensures ans == View(ata)[sector * 512 + offset..sector * 512 + offset + count]
    {
      hide BytesOf;
      var tmp := new Byte[512](_ => 0);
      ghost var base := sector * 512;
      ghost var view := View(ata);
      var b := 0;
      while b < 512
        invariant b % 2 == 0 && 0 <= b <= 512
        invariant view == View(ata)
        invariant forall k :: 0 <= k < b ==> tmp[k] == view[base + k]
      {
        var data := Words(ata)[sector * 256 + b / 2];
        BytesOfWord(Words(ata)[..], sector * 256 + b / 2);
        tmp[b], tmp[b + 1] := TranslateBytes(data);
        b := b + 2;
      }
      ans := [];
      for i := 0 to count
        invariant |ans| == i
        invariant forall k :: 0 <= k < i ==> ans[k] == view[base + offset + k]
      {
        ans := ans + [tmp[offset + i]];
      }
    }

    method WriteSector(ata: int, msg: seq<Byte>, sector: U16, offset: nat)
      requires Valid() && IsDrive(ata) && offset + |msg| <= 512
      modifies Words(ata)
      ensures View(ata) == Splice(old(View(ata)), sector * 512 + offset, msg)
    {
      hide BytesOf, Splice;
      // The drive only takes whole sectors, so the rest of the sector is read first.
      var tmp := ReadSector(ata, sector, 0, 512);
      ghost var base := sector * 512;
      ghost var before := View(ata);
      for i := 0 to |msg|
        invariant |tmp| == 512
        invariant forall k :: 0 <= k < 512 ==>
          tmp[k] == if offset <= k < offset + i then msg[k - offset] else before[base + k]
      {
        tmp := tmp[offset + i := msg[i]];
      }
      Overlay(before, base, tmp, offset, msg);
      SpliceNothing(before, base);
      var i := 0;
      while i < 512
        invariant i % 2 == 0 && 0 <= i <= 512
        invariant View(ata) == Splice(before, base, tmp[..i])
      {
        var out := WriteDataToRegister(tmp[i + 1], tmp[i]);
        var at := sector * 256 + i / 2;
        BytesOfUpdate(Words(ata)[..], at, out);
        SpliceGrow(before, base, tmp, i);
        ghost var words := Words(ata)[..];
        Words(ata)[at] := out;
        assert Words(ata)[..] == words[at := out];
        assert base + i == 2 * at;
        i := i + 2;
      }
      assert tmp[..i] == tmp;
    }

    /** ata_read: errno is set and nothing is read when the drive number is unknown. */
    method Read(ata: int, bytes: nat, sector0: U16, offset0: nat) returns (ok: bool, msg: seq<Byte>)
      requires Valid()
      ensures ok == IsDrive(ata)
      ensures msg == if ok then GetFrom(View(ata), sector0 * 512 + offset0, bytes) else []
    {
      hide BytesOf, GetFrom, SameCell;
      SameCellReflexive(sector0 * 512 + offset0);
      if ata != ATA0 && ata != ATA1 {
        return false, [];
      }
      ok, msg := true, [];
      var sector: U16, offset, left := sector0, offset0, bytes;
      ghost var start := sector0 * 512 + offset0;
      while left != 0
        invariant 0 <= left <= bytes && 0 <= offset
        invariant |msg| == bytes - left
        invariant left != 0 ==> SameCell(sector * 512 + offset, start + |msg|)
        invariant msg == GetFrom(View(ata), start, |msg|)
        decreases left
      {
        ghost var before := sector * 512 + offset;
        sector, offset := Normalize(sector, offset);
        SameCellTransitive(sector * 512 + offset, before, start + |msg|);
        var size := if offset + left > 512 then 512 - offset else left;
        var part := ReadSector(ata, sector, offset, size);
        GetInRange(View(ata), start + |msg|, sector * 512 + offset, size);
        GetAppend(View(ata), start, |msg|, size);
        ghost var at := start + |msg|;
        msg := msg + part;
        if offset + left > 512 {
          NextSectorCell(sector, offset, size, at);
          sector := (sector + 1) % 0x1_0000;
          offset := 0;
          left := left - size;
        } else {
          offset := offset + size;
          left := 0;
        }
      }
    }

    method Write(ata: int, msg: seq<Byte>, sector0: U16, offset0: nat) returns (ok: bool)
      requires Valid()
      modifies Words(ata)
      ensures ok == IsDrive(ata)
      ensures View(ata) ==
        if ok then PutFrom(old(View(ata)), sector0 * 512 + offset0, msg) else old(View(ata))
    {
      hide BytesOf, PutFrom, SameCell;
      SameCellReflexive(sector0 * 512 + offset0);
      if ata != ATA0 && ata != ATA1 {
        return false;
      }
      ok := true;
      PutNothing(View(ata), sector0 * 512 + offset0);
      var sector: U16, offset, done := sector0, offset0, 0;
      ghost var start := sector0 * 512 + offset0;
      while done != |msg|
        invariant 0 <= done <= |msg| && 0 <= offset
        invariant done != |msg| ==> SameCell(sector * 512 + offset, start + done)
        invariant View(ata) == PutFrom(old(View(ata)), start, msg[..done])
        decreases |msg| - done
      {
        ghost var before := sector * 512 + offset;
        sector, offset := Normalize(sector, offset);
        SameCellTransitive(sector * 512 + offset, before, start + done);
        var left := |msg| - done;
        var size := if offset + left > 512 then 512 - offset else left;
        PutInRange(View(ata), start + done, sector * 512 + offset, msg[done..done + size]);
        PutAppend(old(View(ata)), start, msg[..done], msg[done..done + size]);
        assert msg[..done] + msg[done..done + size] == msg[..done + size];
        WriteSector(ata, msg[done..done + size], sector, offset);
        if offset + left > 512 {
          NextSectorCell(sector, offset, size, start + done);
          sector := (sector + 1) % 0x1_0000;
          offset := 0;
        } else {
          offset := offset + size;
        }
        done := done + size;
      }
      assert msg[..done] == msg;
    }
  }
}
