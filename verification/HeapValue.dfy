/**
 * The kernel heap as a value: boundary tags by address, the index of holes, and the bounds.
 * A tag is in its map when its magic number is in memory; a footer holds the address of its header.
 * A header takes 9 bytes and a footer 8, so a block of size s holds s - 17 bytes of data.
 */
module HeapValue {
  import opened Bytes
  import opened OrderedArray

  datatype Header = Header(isHole: bool, size: int)

  datatype HeapState = HeapState(headers: map<int, Header>, footers: map<int, int>, index: seq<int>,
                                 start: int, end: int, max: int)

  /** The heap after halloc, and the address it returns: the one behind the header of the block. */
  datatype Grant = Grant(heap: HeapState, data: int)

  function SizeKey(headers: map<int, Header>): int -> int {
    a => if a in headers then headers[a].size else 0
  }

  function Size(h: HeapState, a: int): int {
    if a in h.headers then h.headers[a].size else 0
  }

  predicate IsHole(h: HeapState, a: int) {
    a in h.headers && h.headers[a].isHole
  }

  predicate IsLive(h: HeapState, a: int) {
    a in h.headers && !h.headers[a].isHole
  }

  function End(h: HeapState, a: int): int {
    a + Size(h, a)
  }

  /* --- The operations on values --- */

  /** The first index position whose hole has the needed size, or the size of the index. */
  function FirstFit(headers: map<int, Header>, index: seq<int>, need: int): (k: nat)
    ensures k <= |index|
    ensures forall j :: 0 <= j < k ==> SizeKey(headers)(index[j]) < need
    ensures k < |index| ==> SizeKey(headers)(index[k]) >= need
  {
    if index == [] || SizeKey(headers)(index[0]) >= need then 0
    else 1 + FirstFit(headers, index[1..], need)
  }

  lemma FirstFitIs(headers: map<int, Header>, index: seq<int>, need: int, k: nat)
    requires k <= |index| && (forall j :: 0 <= j < k ==> SizeKey(headers)(index[j]) < need)
    requires k < |index| ==> SizeKey(headers)(index[k]) >= need
    ensures FirstFit(headers, index, need) == k
  {
  }

  /** The position of the largest address among the first n entries, or -1. */
  function Endmost(index: seq<int>, n: nat): (k: int)
    requires n <= |index|
    ensures -1 <= k < n
    ensures forall j :: 0 <= j < n ==> index[j] <= if k == -1 then 0 else index[k]
    ensures k != -1 ==> 0 < index[k]
  {
    if n == 0 then -1
    else
      var k := Endmost(index, n - 1);
      if index[n - 1] > (if k == -1 then 0 else index[k]) then n - 1 else k
  }

  function IndexOf(index: seq<int>, a: int): (k: nat)
    ensures k <= |index|
    ensures k < |index| ==> index[k] == a
    ensures a in index ==> k < |index|
    ensures forall j :: 0 <= j < k ==> index[j] != a
  {
    if index == [] || index[0] == a then 0 else 1 + IndexOf(index[1..], a)
  }

  lemma IndexOfIs(index: seq<int>, a: int, k: nat)
    requires k <= |index| && (forall j :: 0 <= j < k ==> index[j] != a) && (k < |index| ==> index[k] == a)
    ensures IndexOf(index, a) == k
  {
  }

  /** The bytes a request takes together with its tags, in 32 bits. */
  function Need(size: U32): U32 {
    ToU32(size + 17)
  }

  /** The heap length to which expand rounds: an exact multiple of the page size gets one more page. */
  function Rounded(n: nat): (r: nat)
    ensures n <= r <= n + 0x1000
  {
    if n < 0x1000 then n else n - n % 0x1000 + 0x1000
  }

  /** What halloc needs to run: bounds in order, and index entries that are headers. */
  predicate Ready(h: HeapState) {
    0 <= h.start <= h.end && 0 < h.end &&
    forall k :: 0 <= k < |h.index| ==> h.index[k] in h.headers && 0 < h.index[k] && 0 <= Size(h, h.index[k])
  }

  /** Takes a block from the front of the hole at index position i. */
  function Cut(h: HeapState, i: nat, need: int): HeapState
    requires i < |h.index| && h.index[i] in h.headers
  {
    var pos := h.index[i];
    var size := h.headers[pos].size;
    var take := if size - need < 17 then size else need;
    var index1 := Removed(h.index, i);
    var headers1 := h.headers[pos := Header(false, take)];
    var footers1 := h.footers[pos + take - 8 := pos];
    if size - take > 0 then
      var rest := pos + take;
      var headers2 := headers1[rest := Header(true, size - take)];
      var footers2 := if pos + size - 8 < h.end then footers1[pos + size - 8 := rest] else footers1;
      h.(headers := headers2, footers := footers2, index := Inserted(index1, SizeKey(headers2), rest))
    else
      h.(headers := headers1, footers := footers1, index := index1)
  }

  /** The heap after expand and the adjustment of its endmost hole. */
  function Grown(h: HeapState, need: nat): (g: HeapState)
    requires Ready(h)
    ensures g.start == h.start && g.end == h.start + Rounded(h.end - h.start + need) && g.max == h.max
  {
    var end := h.start + Rounded(h.end - h.start + need);
    var k := Endmost(h.index, |h.index|);
    if k == -1 then
      var headers := h.headers[h.end := Header(true, end - h.end)];
      h.(headers := headers, footers := h.footers[end - 8 := h.end], end := end,
         index := Inserted(h.index, SizeKey(headers), h.end))
    else
      var m := h.index[k];
      var size := h.headers[m].size + (end - h.end);
      h.(headers := h.headers[m := h.headers[m].(size := size)], footers := h.footers[m + size - 8 := m], end := end)
  }

  /** After an expansion the linear scan succeeds. */
  lemma GrownFits(h: HeapState, need: nat)
    requires Ready(h)
    ensures Ready(Grown(h, need)) && |Grown(h, need).index| == if |h.index| == 0 then 1 else |h.index|
    ensures FirstFit(Grown(h, need).headers, Grown(h, need).index, need) < |Grown(h, need).index|
  {
    var g := Grown(h, need);
    var k := Endmost(h.index, |h.index|);
    if k == -1 {
      var p := Position(h.index, SizeKey(g.headers), h.end);
      assert g.index[p] == h.end;
    } else {
      assert g.index[k] == h.index[k];
    }
  }

  /** The part of halloc that follows a successful scan. */
  function CutFirstFit(h: HeapState, need: nat): Grant
    requires Ready(h) && FirstFit(h.headers, h.index, need) < |h.index|
  {
    var i := FirstFit(h.headers, h.index, need);
    Grant(Cut(h, i, need), h.index[i] + 9)
  }

  /** halloc: at most one expansion, then a cut. */
  function Alloc(h: HeapState, size: U32): Grant
    requires Ready(h)
  {
    if FirstFit(h.headers, h.index, Need(size)) < |h.index| then
      CutFirstFit(h, Need(size))
    else
      GrownFits(h, Need(size));
      CutFirstFit(Grown(h, Need(size)), Need(size))
  }

  /** The hole to the left that hfree merges with: read through the footer before the header. */
  predicate MergesLeft(h: HeapState, a: int) {
    a - 8 in h.footers && (h.footers[a - 8] == a || IsHole(h, h.footers[a - 8]))
  }

  predicate MergesRight(h: HeapState, a: int) {
    IsHole(h, End(h, a))
  }

  /** Where the freed block ends up ending. */
  function FreedEnd(h: HeapState, a: int): int {
    if MergesRight(h, a) then End(h, End(h, a)) else End(h, a)
  }

  function FreedHeaders(h: HeapState, a: int): map<int, Header>
    requires a in h.headers
  {
    var left := MergesLeft(h, a);
    var b := if left then h.footers[a - 8] else a;
    var marked := h.headers[a := Header(true, Size(h, a))];
    marked[b := Header(true, FreedEnd(h, a) - a + if left then Size(h, b) else 0)]
  }

  function FreedFooters(h: HeapState, a: int): map<int, int> {
    if MergesLeft(h, a) then h.footers[End(h, a) - 8 := h.footers[a - 8]] else h.footers
  }

  /** The index without the hole merged from the right. */
  function FreedIndex(h: HeapState, a: int): seq<int>
    requires MergesRight(h, a) ==> End(h, a) in h.index
  {
    if MergesRight(h, a) then Removed(h.index, IndexOf(h.index, End(h, a))) else h.index
  }

  /** hfree of the block with its header at a, when the merged hole stays below the heap end. */
  function Free(h: HeapState, a: int): HeapState
    requires a in h.headers && (MergesRight(h, a) ==> End(h, a) in h.index)
  {
    var index := FreedIndex(h, a);
    h.(headers := FreedHeaders(h, a), footers := FreedFooters(h, a),
       index := if MergesLeft(h, a) then index else Inserted(index, SizeKey(FreedHeaders(h, a)), a))
  }

  /** The heap made by create_heap: the index takes 0x80000 bytes, then one more page starts. */
  function Created(start: nat, end: nat, max: nat): HeapState
  {
    var first := Rounded(start + 0x80000);
    HeapState(map[first := Header(true, end - first)], map[], [first], first, end, max)
  }

  lemma CutIndexFrom(h: HeapState, i: nat, need: nat)
    requires i < |h.index| && h.index[i] in h.headers
    ensures var pos, g := h.index[i], Cut(h, i, need);
            forall x :: x in g.index ==> x in h.index || (x in g.headers && pos < x && 0 < Size(g, x)) || x == pos
  {
    var pos, g := h.index[i], Cut(h, i, need);
    var take := if h.headers[pos].size - need < 17 then h.headers[pos].size else need;
    RemovedFrom(h.index, i);
    InsertedMembers(Removed(h.index, i), SizeKey(g.headers), pos + take);
    hide Inserted, Removed;
  }

  lemma CutReady(h: HeapState, i: nat, need: nat)
    requires Ready(h) && i < |h.index| && need <= Size(h, h.index[i])
    ensures h.index[i] in h.headers && Ready(Cut(h, i, need))
  {
    var g := Cut(h, i, need);
    CutIndexFrom(h, i, need);
    CutHeaders(h, i, need);
    hide Cut;
    forall k | 0 <= k < |g.index| ensures g.index[k] in g.headers && 0 < g.index[k] && 0 <= Size(g, g.index[k]) {
      assert g.index[k] in g.index;
      if g.index[k] in h.index {
        var j :| 0 <= j < |h.index| && h.index[j] == g.index[k];
      }
    }
  }

  lemma CutHeaders(h: HeapState, i: nat, need: nat)
    requires i < |h.index| && h.index[i] in h.headers && need <= Size(h, h.index[i])
    ensures var g := Cut(h, i, need);
            && g.start == h.start && g.end == h.end && h.index[i] in g.headers && 0 <= Size(g, h.index[i])
            && forall x :: x in h.headers && 0 <= Size(h, x) ==> x in g.headers && 0 <= Size(g, x)
  {
    hide Inserted, Removed;
  }

  lemma AllocReady(h: HeapState, size: U32)
    requires Ready(h)
    ensures Ready(Alloc(h, size).heap)
  {
    var g := if FirstFit(h.headers, h.index, Need(size)) < |h.index| then h else Grown(h, Need(size));
    GrownFits(h, Need(size));
    CutReady(g, FirstFit(g.headers, g.index, Need(size)), Need(size));
    hide Cut, Grown, Ready, FirstFit;
  }

  /** The heap after a run of halloc calls. */
  function AfterAllocs(h: HeapState, sizes: seq<U32>): HeapState
    requires Ready(h)
    decreases |sizes|
  {
    hide Ready, Alloc;
    if sizes == [] then h
    else
      AllocReady(h, sizes[0]);
      AfterAllocs(Alloc(h, sizes[0]).heap, sizes[1..])
  }

  /** The addresses the run returns. */
  function Granted(h: HeapState, sizes: seq<U32>): (r: seq<int>)
    requires Ready(h)
    ensures |r| == |sizes|
    decreases |sizes|
  {
    hide Ready, Alloc;
    if sizes == [] then []
    else
      AllocReady(h, sizes[0]);
      [Alloc(h, sizes[0]).data] + Granted(Alloc(h, sizes[0]).heap, sizes[1..])
  }
}
