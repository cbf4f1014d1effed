/**
  Where _writeBlock starts to write. It skips a page when the offset lies beyond the page's room,
  but subtracts the page's used count, so it finds the right place exactly if the skipped pages are full.
  Otherwise it starts to write on a wrong page, or runs off the chain.
 */
module WritePosition {
  import opened Bytes
  import opened DiskLayout
  import opened FileChains

  /** The room of page i, and its overhead, as the code counts them. */
  function Room(i: nat): nat {
    if i == 0 then 180 else 228
  }

  /** The page and the offset in it where writing starts, with page i next; page |used| is off the chain. */
  function Seek(used: seq<U32>, i: nat, offset: U32): (r: (nat, U32))
    requires i <= |used|
    ensures i <= r.0 <= |used| && (r.0 < |used| ==> r.1 < Room(r.0))
    decreases |used| - i
  {
    if i == |used| then (i, offset)
    else if offset < Room(i) then (i, offset)
    else Seek(used, i + 1, ToU32(offset - (used[i] - (256 - Room(i)))))
  }

  lemma SeekHere(used: seq<U32>, i: nat, offset: U32)
    requires i <= |used|
    ensures Room(i) == if i == 0 then 180 else 228
    ensures i == |used| || offset < Room(i) ==> Seek(used, i, offset) == (i, offset)
  {
  }

  lemma SeekRoom(used: seq<U32>, i: nat, offset: U32)
    requires 1 <= i <= |used|
    ensures Seek(used, i, offset).0 < |used| ==> Seek(used, i, offset).1 < 228
  {
  }

  lemma SeekSkips(used: seq<U32>, i: nat, offset: U32, room: nat)
    requires i < |used| && room == (if i == 0 then 180 else 228) && offset >= room
    ensures Seek(used, i, offset) == Seek(used, i + 1, ToU32(offset - (used[i] - (256 - room))))
  {
    hide ToU32;
  }

  /** Where the byte at the given offset of the file belongs. */
  function Place(offset: nat): (nat, nat) {
    if offset < 180 then (0, offset) else ((48 + offset) / 228, (48 + offset) % 228)
  }

  lemma PlaceOnPage(offset: nat, i: nat, r: nat)
    requires 48 + offset == 228 * i + r && 1 <= i && r < 228
    ensures Place(offset) == (i, r)
  {
  }

  lemma {:induction false} SeekOverFullPages(used: seq<U32>, length: nat, offset: U32, i: nat, r: U32)
    requires |used| <= MAX_BLOCKS && 48 + offset < 228 * |used|
    requires forall j :: 0 <= j < |used| ==> UsedOk(used[j], j, length)
    requires PagesBeforeFull(offset, length)
    requires i <= |used| && if i == 0 then r == offset else 48 + offset == 228 * i + r
    ensures Seek(used, i, r) == Place(offset)
    decreases |used| - i
  {
    hide ToU32;
    if i < |used| {
      if r < Room(i) {
        if i > 0 {
          PlaceOnPage(offset, i, r);
        }
      } else {
        var v := if i == 0 then 48 + r else r;
        PageStartsInside(offset, length, i, v);
        FullBeforeEnd(used[i], i, length);
        SeekOverFullPages(used, length, offset, i + 1, v - 228);
      }
    }
  }

  /** Beyond the file's end no page takes anything off the offset: the skipping runs off the chain. */
  lemma {:induction false} SeekPastEnd(used: seq<U32>, length: nat, i: nat, r: U32)
    requires 1 <= i <= |used| <= MAX_BLOCKS && 228 <= r && r + 28 * (|used| - i) < 0x1_0000_0000
    requires forall j :: 0 <= j < |used| ==> UsedOk(used[j], j, length)
    requires 48 + length <= 228 * i
    ensures Seek(used, i, r).0 == |used|
    decreases |used| - i
  {
    hide ToU32;
    if i < |used| {
      assert UsedOk(used[i], i, length);
      var u: int := used[i];
      SeekPastEnd(used, length, i + 1, ToU32(r - (u - 28)));
    }
  }

  /** A write over a gap that starts less than a page behind the file's end, on a file written to before. */
  predicate Near(firstUsed: U32, length: nat, offset: nat) {
    firstUsed != 0 && offset < length + 228
  }

  /**
    Where a write over a gap ends up: on the page after the file's last one, as many bytes in as it
    starts behind the end of the file, or off the chain.
   */
  lemma {:induction false} SeekOverGap(used: seq<U32>, length: nat, offset: U32, i: nat, r: U32)
    requires |used| <= MAX_BLOCKS && 48 + offset < 228 * |used|
    requires forall j :: 0 <= j < |used| ==> UsedOk(used[j], j, length)
    requires !PagesBeforeFull(offset, length)
    requires i <= |used| && if i == 0 then r == offset else 48 + offset == 228 * i + r && 228 * i <= 48 + length
    ensures (48 + length) / 228 + 1 < |used|
    ensures Near(used[0], length, offset) ==> Seek(used, i, r) == ((48 + length) / 228 + 1, offset - length)
    ensures !Near(used[0], length, offset) ==> Seek(used, i, r).0 == |used|
    decreases |used| - i
  {
    hide ToU32;
    var v := if i == 0 then 48 + r else r;
    BeforeGap(offset, length, i, v);
    assert UsedOk(used[i], i, length) && UsedOk(used[0], 0, length);
    if 228 * (i + 1) <= 48 + length {
      FullBeforeEnd(used[i], i, length);
      SeekOverGap(used, length, offset, i + 1, v - 228);
    } else {
      GapPage(length, i);
      var next := ToU32(r - (used[i] - (256 - Room(i))));
      assert Seek(used, i, r) == Seek(used, i + 1, next);
      if next >= 228 {
        SeekPastEnd(used, length, i + 1, next);
      }
    }
  }

  lemma GapPage(length: nat, i: nat)
    requires 228 * i <= 48 + length < 228 * (i + 1)
    ensures (48 + length) / 228 == i && Held(i, length) == 48 + length - 228 * i
  {
  }

  lemma BeforeGap(offset: nat, length: nat, i: nat, v: nat)
    requires !PagesBeforeFull(offset, length) && 48 + offset == 228 * i + v
    requires i > 0 ==> 228 * i <= 48 + length
    ensures v >= 228
  {
    var t, m := (48 + offset) / 228, (48 + offset) % 228;
    assert 228 * t + m == 228 * i + v;
  }

  lemma NotTheGapPlace(length: nat, offset: nat)
    requires !PagesBeforeFull(offset, length)
    ensures offset >= length && Place(offset) != ((48 + length) / 228 + 1, offset - length)
  {
    var t, m := (48 + offset) / 228, (48 + offset) % 228;
    var q, n := (48 + length) / 228, (48 + length) % 228;
    assert 48 + offset == 228 * t + m && 48 + length == 228 * q + n;
  }

  /** Exactly when a write finds its place: if no page before it is partly or wholly unfilled. */
  lemma SeekExact(used: seq<U32>, length: nat, offset: U32)
    requires |used| <= MAX_BLOCKS && 48 + offset < 228 * |used|
    requires forall j :: 0 <= j < |used| ==> UsedOk(used[j], j, length)
    ensures Seek(used, 0, offset) == Place(offset) <==> PagesBeforeFull(offset, length)
    ensures !PagesBeforeFull(offset, length) ==>
      (Seek(used, 0, offset).0 < |used| <==> Near(used[0], length, offset))
  {
    hide Seek, Place, PagesBeforeFull;
    if PagesBeforeFull(offset, length) {
      SeekOverFullPages(used, length, offset, 0, offset);
    } else {
      SeekOverGap(used, length, offset, 0, offset);
      NotTheGapPlace(length, offset);
      PlaceOnChain(offset, |used|);
    }
  }

  lemma PlaceOnChain(offset: nat, n: nat)
    requires 48 + offset < 228 * n
    ensures Place(offset).0 < n
  {
  }
}
