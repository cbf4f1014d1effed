/**
  What _writeBlock does to the blocks of a chain, wherever it starts: the image after it and the
  status it returns, and what a write that does not start in its place leaves of a file.
 */
module PageWrites {
  import opened Ata
  import opened Bytes
  import opened DiskLayout
  import opened FileChains
  import opened WritePosition

  /** The used counts of a chain's pages. */
  ghost function UsedCounts(img: Image, chain: Chain): (used: seq<U32>)
    requires img.Valid() && Placed(chain)
    ensures |used| == |chain|
    ensures forall i :: 0 <= i < |chain| ==> used[i] == img.Page(chain[i]).usedBytes
  {
    seq(|chain|, i requires 0 <= i < |chain| => img.Page(chain[i]).usedBytes)
  }

  /** The pages of the chain are linked in order. */
  ghost predicate Linked(img: Image, chain: Chain)
    requires img.Valid()
  {
    && |chain| >= 1 && Placed(chain) && Distinct(chain)
    && forall i :: 0 <= i < |chain| ==> LinkOk(img.Page(chain[i]), chain, i)
  }

  /** The image after data is laid over the pages from page i, place o on, as far as the chain goes. */
  ghost function Laid(img: Image, chain: Chain, i: nat, o: nat, data: seq<Byte>): (r: Image)
    requires img.Valid() && Placed(chain) && i <= |chain| && (i < |chain| ==> o < 228)
    ensures r.Valid()
    decreases |chain| - i
  {
    if i == |chain| || data == [] then img
    else
      var k := Min(228 - o, |data|);
      Laid(WithPageData(img, chain, i, o, data[..k]), chain, i + 1, 0, data[k..])
  }

  lemma LaidStep(img: Image, chain: Chain, i: nat, o: nat, data: seq<Byte>, k: nat)
    requires img.Valid() && Placed(chain) && i < |chain| && o < 228 && data != [] && k == Min(228 - o, |data|)
    ensures Laid(img, chain, i, o, data) == Laid(WithPageData(img, chain, i, o, data[..k]), chain, i + 1, 0, data[k..])
  {
    hide WithPageData;
  }

  lemma LaidNothing(img: Image, chain: Chain, i: nat, o: nat, data: seq<Byte>)
    requires img.Valid() && Placed(chain) && i <= |chain| && (i < |chain| ==> o < 228)
    requires i == |chain| || data == []
    ensures Laid(img, chain, i, o, data) == img
  {
  }

  /** 0 if count bytes from page i, place o on fit a chain of n pages, else -1. */
  function LaidStatus(n: nat, i: nat, o: nat, count: nat): int {
    if count == 0 || 228 * i + o + count <= 228 * n then 0 else -1
  }

  /** The image and the status after _writeBlock. The first page is written to even if there is no data. */
  ghost function BlockWritten(img: Image, chain: Chain, offset: U32, data: seq<Byte>): (r: (Image, int))
    requires img.Valid() && Linked(img, chain)
    ensures r.0.Valid()
  {
    if offset < 180 then
      var k := Min(180 - offset, |data|);
      (Laid(WithPageData(img, chain, 0, 48 + offset, data[..k]), chain, 1, 0, data[k..]),
       LaidStatus(|chain|, 1, 0, |data| - k))
    else
      var place := Seek(UsedCounts(img, chain), 0, offset);
      (Laid(img, chain, place.0, place.1, data), LaidStatus(|chain|, place.0, place.1, |data|))
  }

  lemma ChainLinked(img: Image, chain: Chain, length: nat)
    requires img.Valid() && ChainOk(img, chain, length) && Distinct(chain)
    ensures Linked(img, chain)
  {
  }

  lemma LinkedFacts(img: Image, chain: Chain, i: nat)
    requires img.Valid() && Linked(img, chain) && i < |chain|
    ensures Placed(chain) && Distinct(chain) && chain[i] < MAX_BLOCKS && LinkOk(img.Page(chain[i]), chain, i)
  {
  }

  lemma LinkedStart(img: Image, chain: Chain)
    requires img.Valid() && Linked(img, chain)
    ensures |chain| >= 1 && Placed(chain) && Distinct(chain) && chain[0] < MAX_BLOCKS && LinkOk(img.Page(chain[0]), chain, 0)
  {
  }

  lemma LinkFacts(page: DiskPage, chain: Chain, i: nat)
    requires LinkOk(page, chain, i)
    ensures page.magic == MAGIC_NUMBER && page.disk == ATA0 && page.totalLength == 256
    ensures page.hasNextPage != 0 <==> i + 1 < |chain|
    ensures i + 1 < |chain| ==> page.nextSector == FILE_CONTENTS_INITIAL_SECTOR && page.nextOffset == 256 * chain[i + 1]
  {
  }

  /** A write into page i keeps the links and the other pages' headers. */
  lemma PageDataLinks(img: Image, chain: Chain, i: nat, o: nat, d: seq<Byte>)
    requires img.Valid() && Linked(img, chain) && i < |chain| && o + |d| <= 228
    ensures Linked(WithPageData(img, chain, i, o, d), chain)
    ensures forall j :: 0 <= j < |chain| && j != i ==> WithPageData(img, chain, i, o, d).Page(chain[j]) == img.Page(chain[j])
    ensures WithPageData(img, chain, i, o, d).Page(chain[i]).usedBytes >= 28 + o + |d|
    ensures OnlyBlocks(img, WithPageData(img, chain, i, o, d), chain)
  {
    hide WithPageData, Stream, PageOf;
    PageDataPages(img, chain, i, o, d);
    PageDataStream(img, chain, i, o, d);
  }

  /** The same for a longer write. */
  lemma {:induction false} LaidLinks(img: Image, chain: Chain, i: nat, o: nat, data: seq<Byte>)
    requires img.Valid() && Linked(img, chain) && i <= |chain| && (i < |chain| ==> o < 228)
    ensures var img' := Laid(img, chain, i, o, data);
            && Linked(img', chain) && OnlyBlocks(img, img', chain)
            && (forall j :: 0 <= j < i ==> img'.Page(chain[j]) == img.Page(chain[j]))
            && (i < |chain| && data != [] ==> img'.Page(chain[i]).usedBytes > 28 + o)
    decreases |chain| - i
  {
    hide *;
    LinkedPlaced(img, chain);
    if i == |chain| || data == [] {
      LaidNothing(img, chain, i, o, data);
      NoBlocks(img, chain);
    } else {
      var k := Min(228 - o, |data|);
      MinFacts(228 - o, |data|);
      LaidStep(img, chain, i, o, data, k);
      PageDataLinks(img, chain, i, o, data[..k]);
      var middle := WithPageData(img, chain, i, o, data[..k]);
      LaidLinks(middle, chain, i + 1, 0, data[k..]);
      OnlyBlocksTransitive(img, middle, Laid(img, chain, i, o, data), chain);
    }
  }

  lemma LinkedPlaced(img: Image, chain: Chain)
    requires img.Valid() && Linked(img, chain)
    ensures Placed(chain) && Distinct(chain) && forall j :: 0 <= j < |chain| ==> chain[j] < MAX_BLOCKS
  {
  }

  lemma NoBlocks(img: Image, chain: Chain)
    requires img.Valid()
    ensures OnlyBlocks(img, img, chain)
  {
  }

  lemma MinFacts(x: int, y: int)
    ensures Min(x, y) <= x && Min(x, y) <= y && (Min(x, y) == x || Min(x, y) == y)
  {
  }

  // ---- In place --------------------------------------------------------------

  /** What is left of a write after full pages keeps the shape for the new length and splices the stream. */
  lemma {:induction false} LaidInOrder(img: Image, chain: Chain, length: nat, i: nat, o: nat, data: seq<Byte>)
    requires img.Valid() && ChainOk(img, chain, length) && Distinct(chain) && Placed(chain)
    requires 1 <= i <= |chain| && (i < |chain| ==> o < 228) && 228 * i + o + |data| <= 228 * |chain|
    requires data != [] ==> 228 * i <= 48 + length
    ensures var img' := Laid(img, chain, i, o, data);
            && ChainOk(img', chain, if data == [] then length else Max(length, 228 * i + o + |data| - 48))
            && Stream(img', chain) == Splice(Stream(img, chain), 228 * i + o, data)
            && OnlyBlocks(img, img', chain)
    decreases |chain| - i
  {
    hide *;
    if data == [] {
      LaidNothing(img, chain, i, o, data);
      NoBlocks(img, chain);
      SpliceNothing(Stream(img, chain), 228 * i + o);
    } else {
      var k := Min(228 - o, |data|);
      MinFacts(228 - o, |data|);
      LaidStep(img, chain, i, o, data, k);
      PageDataKeepsChain(img, chain, length, i, o, data[..k]);
      PageDataStream(img, chain, i, o, data[..k]);
      var middle, longer := WithPageData(img, chain, i, o, data[..k]), Max(length, 228 * i + o + k - 48);
      MaxFacts(length, 228 * i + o + k - 48);
      LaidInOrder(middle, chain, longer, i + 1, 0, data[k..]);
      MaxFacts(longer, 228 * i + o + |data| - 48);
      MaxFacts(length, 228 * i + o + |data| - 48);
      if k < |data| {
        assert 228 * i + o + k == 228 * (i + 1) + 0;
        SpliceAppend(Stream(img, chain), 228 * i + o, data[..k], data[k..]);
      } else {
        assert data[k..] == [] && data[..k] == data;
        LaidNothing(middle, chain, i + 1, 0, data[k..]);
      }
      Split(data, k);
      OnlyBlocksTransitive(img, middle, Laid(img, chain, i, o, data), chain);
    }
  }

  lemma MaxFacts(x: nat, y: nat)
    ensures Max(x, y) >= x && Max(x, y) >= y && (Max(x, y) == x || Max(x, y) == y)
  {
  }

  /** A write that starts within the file, or behind full pages, happens in its place. */
  lemma WrittenInPlace(img: Image, chain: Chain, size: nat, offset: U32, data: seq<Byte>)
    requires img.Valid() && ChainOk(img, chain, size) && Distinct(chain) && Linked(img, chain)
    requires |chain| <= MAX_BLOCKS && 48 + offset + |data| <= 228 * |chain| && WriteOk(size, offset, |data|)
    ensures var r := BlockWritten(img, chain, offset, data);
            && r.1 == 0
            && ChainOk(r.0, chain, Max(size, offset + |data|))
            && Stream(r.0, chain) == Splice(Stream(img, chain), 48 + offset, data)
            && OnlyBlocks(img, r.0, chain)
  {
    hide *;
    LinkedPlaced(img, chain);
    if offset < 180 {
      WrittenFromFirst(img, chain, size, offset, data);
    } else {
      WrittenFromLater(img, chain, size, offset, data);
    }
  }

  lemma FirstPageWrites(img: Image, chain: Chain, offset: U32, data: seq<Byte>, k: nat)
    requires img.Valid() && Linked(img, chain) && Placed(chain) && offset < 180 && k == Min(180 - offset, |data|)
    ensures BlockWritten(img, chain, offset, data) ==
      (Laid(WithPageData(img, chain, 0, 48 + offset, data[..k]), chain, 1, 0, data[k..]), LaidStatus(|chain|, 1, 0, |data| - k))
  {
    hide Laid, WithPageData, LaidStatus;
  }

  lemma LaterPageWrites(img: Image, chain: Chain, offset: U32, data: seq<Byte>, place: (nat, U32))
    requires img.Valid() && Linked(img, chain) && Placed(chain) && offset >= 180
    requires place == Seek(UsedCounts(img, chain), 0, offset)
    ensures 1 <= place.0 <= |chain| && (place.0 < |chain| ==> place.1 < 228)
    ensures BlockWritten(img, chain, offset, data) ==
      (Laid(img, chain, place.0, place.1, data), LaidStatus(|chain|, place.0, place.1, |data|))
  {
    hide Laid, WithPageData, LaidStatus, ToU32;
  }

  lemma WrittenFromFirst(img: Image, chain: Chain, size: nat, offset: U32, data: seq<Byte>)
    requires img.Valid() && ChainOk(img, chain, size) && Distinct(chain) && Linked(img, chain) && Placed(chain)
    requires 48 + offset + |data| <= 228 * |chain| && offset < 180 && |chain| >= 1
    ensures var r := BlockWritten(img, chain, offset, data);
            && r.1 == 0
            && ChainOk(r.0, chain, Max(size, offset + |data|))
            && Stream(r.0, chain) == Splice(Stream(img, chain), 48 + offset, data)
            && OnlyBlocks(img, r.0, chain)
  {
    hide *;
    var k := Min(180 - offset, |data|);
    MinFacts(180 - offset, |data|);
    FirstPageWrites(img, chain, offset, data, k);
    PageDataKeepsChain(img, chain, size, 0, 48 + offset, data[..k]);
    PageDataStream(img, chain, 0, 48 + offset, data[..k]);
    var middle, longer := WithPageData(img, chain, 0, 48 + offset, data[..k]), Max(size, 48 + offset + k - 48);
    MaxFacts(size, offset + k);
    LaidInOrder(middle, chain, longer, 1, 0, data[k..]);
    StatusFits(|chain|, 1, 0, |data| - k);
    MaxFacts(longer, 228 + |data| - k - 48);
    MaxFacts(size, offset + |data|);
    if k < |data| {
      SpliceAppend(Stream(img, chain), 48 + offset, data[..k], data[k..]);
    } else {
      assert data[k..] == [] && data[..k] == data;
      LaidNothing(middle, chain, 1, 0, data[k..]);
    }
    Split(data, k);
    OnlyBlocksTransitive(img, middle, BlockWritten(img, chain, offset, data).0, chain);
  }

  lemma StatusFits(n: nat, i: nat, o: nat, count: nat)
    requires count == 0 || 228 * i + o + count <= 228 * n
    ensures LaidStatus(n, i, o, count) == 0
  {
  }

  lemma StatusFails(n: nat, i: nat, o: nat, count: nat)
    requires count > 0 && 228 * i + o + count > 228 * n
    ensures LaidStatus(n, i, o, count) == -1
  {
  }

  lemma WrittenFromLater(img: Image, chain: Chain, size: nat, offset: U32, data: seq<Byte>)
    requires img.Valid() && ChainOk(img, chain, size) && Distinct(chain) && Linked(img, chain) && Placed(chain)
    requires |chain| <= MAX_BLOCKS && 48 + offset + |data| <= 228 * |chain| && WriteOk(size, offset, |data|) && offset >= 180
    ensures var r := BlockWritten(img, chain, offset, data);
            && r.1 == 0
            && ChainOk(r.0, chain, Max(size, offset + |data|))
            && Stream(r.0, chain) == Splice(Stream(img, chain), 48 + offset, data)
            && OnlyBlocks(img, r.0, chain)
  {
    hide *;
    WriteOkFacts(size, offset, |data|);
    var place := Seek(UsedCounts(img, chain), 0, offset);
    LaterPageWrites(img, chain, offset, data, place);
    MaxFacts(size, offset + |data|);
    if data == [] {
      LaidNothing(img, chain, place.0, place.1, data);
      NoBlocks(img, chain);
      SpliceNothing(Stream(img, chain), 48 + offset);
      StatusFits(|chain|, place.0, place.1, |data|);
    } else {
      CountsOk(img, chain, size);
      SeekOverFullPages(UsedCounts(img, chain), size, offset, 0, offset);
      PlaceFacts(offset, size);
      LaidInOrder(img, chain, size, place.0, place.1, data);
      StatusFits(|chain|, place.0, place.1, |data|);
    }
  }

  lemma CountsOk(img: Image, chain: Chain, length: nat)
    requires img.Valid() && ChainOk(img, chain, length) && Placed(chain)
    ensures forall i :: 0 <= i < |chain| ==> UsedOk(UsedCounts(img, chain)[i], i, length)
  {
    hide UsedOk, LinkOk;
  }

  lemma PlaceFacts(offset: nat, length: nat)
    requires PagesBeforeFull(offset, length) && offset >= 180
    ensures var p := Place(offset); 48 + offset == 228 * p.0 + p.1 && p.0 >= 1 && p.1 < 228 && 228 * p.0 <= 48 + length
  {
  }

  // ---- Over a gap ------------------------------------------------------------

  /** Outside its place a write without data does nothing; any other starts on the page after the last one, or nowhere. */
  lemma GapWritten(img: Image, chain: Chain, size: nat, offset: U32, data: seq<Byte>)
    requires img.Valid() && ChainOk(img, chain, size) && Distinct(chain) && Linked(img, chain) && Placed(chain)
    requires |chain| <= MAX_BLOCKS && 48 + offset + |data| <= 228 * |chain| && !WriteOk(size, offset, |data|)
    ensures offset > size && |chain| > 0 && chain[0] < MAX_BLOCKS
    ensures var r := BlockWritten(img, chain, offset, data);
            var page := (48 + size) / 228 + 1;
            if data == [] then r == (img, 0)
            else if !Near(img.Page(chain[0]).usedBytes, size, offset) then r == (img, -1)
            else
              && page < |chain| && offset - size < 228
              && r == (Laid(img, chain, page, offset - size, data), LaidStatus(|chain|, page, offset - size, |data|))
  {
    hide *;
    NotOkFacts(size, offset, |data|);
    LinkedFacts(img, chain, 0);
    var place := Seek(UsedCounts(img, chain), 0, offset);
    LaterPageWrites(img, chain, offset, data, place);
    if data == [] {
      LaidNothing(img, chain, place.0, place.1, data);
      StatusFits(|chain|, place.0, place.1, |data|);
    } else {
      CountsOk(img, chain, size);
      SeekOverGap(UsedCounts(img, chain), size, offset, 0, offset);
      if Near(img.Page(chain[0]).usedBytes, size, offset) {
      } else {
        LaidNothing(img, chain, place.0, place.1, data);
        StatusFails(|chain|, place.0, place.1, |data|);
      }
    }
  }

  lemma NotOkFacts(size: nat, offset: nat, count: nat)
    requires !WriteOk(size, offset, count)
    ensures offset >= 180 && offset > size && (count > 0 ==> !PagesBeforeFull(offset, size))
  {
  }

  /** As much of the data as the chain has room for is in the stream, from where the write started. */
  lemma {:induction false} LaidStream(img: Image, chain: Chain, i: nat, o: nat, data: seq<Byte>, m: nat)
    requires img.Valid() && Placed(chain) && Distinct(chain) && i <= |chain| && (if i < |chain| then o < 228 else o == 0)
    requires m == Min(|data|, 228 * |chain| - (228 * i + o))
    ensures Stream(Laid(img, chain, i, o, data), chain) == Splice(Stream(img, chain), 228 * i + o, data[..m])
    decreases |chain| - i
  {
    hide *;
    MinFacts(|data|, 228 * |chain| - (228 * i + o));
    if i == |chain| || data == [] {
      LaidNothing(img, chain, i, o, data);
      assert data[..m] == [];
      SpliceNothing(Stream(img, chain), 228 * i + o);
    } else {
      var k := Min(228 - o, |data|);
      MinFacts(228 - o, |data|);
      LaidStep(img, chain, i, o, data, k);
      PageDataStream(img, chain, i, o, data[..k]);
      var middle := WithPageData(img, chain, i, o, data[..k]);
      MinFacts(|data| - k, 228 * |chain| - 228 * (i + 1));
      LaidStream(middle, chain, i + 1, 0, data[k..], Min(|data| - k, 228 * |chain| - 228 * (i + 1)));
      if k < |data| {
        assert data[k..][..m - k] == data[k..m] && data[..k] + data[k..m] == data[..m];
        SpliceAppend(Stream(img, chain), 228 * i + o, data[..k], data[k..m]);
      } else {
        assert data[k..] == [] && data[..k] == data == data[..m];
        LaidNothing(middle, chain, i + 1, 0, data[k..]);
      }
    }
  }

  /** An inode entry and the page headers leave no choice for the file's chain. */
  lemma {:induction false} SameAt(img: Image, n: nat, chain: Chain, c: Chain, i: nat)
    requires img.Valid() && Linked(img, chain) && n < MAX_INODES && FileOk(img, n, c)
    requires img.INode(n).data.nextOffset == 256 * chain[0] && i < |c| <= |chain|
    ensures c[i] == chain[i]
  {
    hide *;
    if i == 0 {
      EntryStarts(img, n, c);
    } else {
      SameAt(img, n, chain, c, i - 1);
      FileLinks(img, n, c, i - 1);
      LinkedFacts(img, chain, i - 1);
      NextBlock(img.Page(c[i - 1]), chain, c, i - 1);
    }
  }

  lemma EntryStarts(img: Image, n: nat, c: Chain)
    requires img.Valid() && n < MAX_INODES && FileOk(img, n, c)
    ensures |c| >= 1 && img.INode(n).data.nextOffset == 256 * c[0] && img.INode(n).blocks == |c|
  {
    hide ChainOk, INodeOf;
  }

  lemma FileLinks(img: Image, n: nat, c: Chain, i: nat)
    requires img.Valid() && n < MAX_INODES && FileOk(img, n, c) && i < |c|
    ensures c[i] < MAX_BLOCKS && LinkOk(img.Page(c[i]), c, i)
  {
    hide LinkOk, UsedOk, INodeOf, PageOf;
  }

  lemma NextBlock(page: DiskPage, chain: Chain, c: Chain, i: nat)
    requires LinkOk(page, c, i) && LinkOk(page, chain, i) && i + 1 < |c| <= |chain|
    ensures c[i + 1] == chain[i + 1]
  {
  }

  lemma SameChain(img: Image, n: nat, chain: Chain, c: Chain)
    requires img.Valid() && Linked(img, chain) && n < MAX_INODES && FileOk(img, n, c)
    requires img.INode(n).data.nextOffset == 256 * chain[0] && img.INode(n).blocks <= |chain|
    ensures c == chain
  {
    hide *;
    EntryStarts(img, n, c);
    forall i | 0 <= i < |c| ensures c[i] == chain[i] {
      SameAt(img, n, chain, c, i);
    }
    SameEnd(img, n, chain, c);
  }

  lemma SameEnd(img: Image, n: nat, chain: Chain, c: Chain)
    requires img.Valid() && Linked(img, chain) && n < MAX_INODES && FileOk(img, n, c) && 1 <= |c| <= |chain|
    requires forall i :: 0 <= i < |c| ==> c[i] == chain[i]
    ensures |c| == |chain|
  {
    hide *;
    FileLinks(img, n, c, |c| - 1);
    LinkedFacts(img, chain, |c| - 1);
    LastBlock(img.Page(chain[|c| - 1]), chain, c);
  }

  lemma LastBlock(page: DiskPage, chain: Chain, c: Chain)
    requires 1 <= |c| <= |chain| && LinkOk(page, c, |c| - 1) && LinkOk(page, chain, |c| - 1)
    ensures |c| == |chain|
  {
  }

  /** No file has the entry once more blocks are linked behind it than the entry counts. */
  lemma LinkedButNotCounted(img: Image, n: nat, chain: Chain, c: Chain)
    requires img.Valid() && Linked(img, chain) && n < MAX_INODES
    requires img.INode(n).data.nextOffset == 256 * chain[0] && img.INode(n).blocks < |chain|
    ensures !FileOk(img, n, c)
  {
    hide *;
    if FileOk(img, n, c) {
      SameChain(img, n, chain, c);
      EntryStarts(img, n, c);
    }
  }

  /** No file has the entry if one of its pages has a used count that is wrong for the entry's length. */
  lemma Miscounted(img: Image, n: nat, chain: Chain, c: Chain, i: nat)
    requires img.Valid() && Linked(img, chain) && Placed(chain) && n < MAX_INODES && i < |chain|
    requires INodeOk(img.INode(n), chain) && !UsedOk(img.Page(chain[i]).usedBytes, i, img.INode(n).usedBytes)
    ensures !FileOk(img, n, c)
  {
    hide LinkOk, UsedOk, PageOf, INodeOf, MapBit;
    if FileOk(img, n, c) {
      SameChain(img, n, chain, c);
    }
  }

  /** The last page of a file holds too little for any greater length. */
  lemma ShortPage(used: U32, i: nat, length: nat, longer: nat)
    requires UsedOk(used, i, length) && i == (48 + length) / 228 && length < longer
    ensures !UsedOk(used, i, longer)
  {
  }

  lemma LastPageOnChain(n: nat, length: nat, longer: nat)
    requires 48 + longer <= 228 * n && length < longer
    ensures (48 + length) / 228 < n
  {
  }

  /** A page behind the file's last one counts nothing. */
  lemma FilledBehind(used: U32, length: nat)
    requires used > 28
    ensures !UsedOk(used, (48 + length) / 228 + 1, length)
  {
  }
}
