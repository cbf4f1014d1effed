/** Bytes, 32-bit words in memory order, and slice replacement on byte sequences. */
module Bytes {

  type Byte = x: int | 0 <= x < 0x100
  type U16 = x: int | 0 <= x < 0x1_0000
  type U32 = x: int | 0 <= x < 0x1_0000_0000

  /** Conversion to unsigned int: the value modulo 2^32, also for negative operands. */
  function ToU32(x: int): (r: U32)
    ensures 0 <= x < 0x1_0000_0000 ==> r == x
    ensures -0x1_0000_0000 <= x < 0 ==> r == x + 0x1_0000_0000
  {
    x % 0x1_0000_0000
  }

  function Min(x: int, y: int): int {
    if x < y then x else y
  }

  /** The sequence m with the cells a, a+1, ... replaced by d. */
  function Splice<T>(m: seq<T>, a: nat, d: seq<T>): (r: seq<T>)
    requires a + |d| <= |m|
    ensures |r| == |m|
  {
    m[..a] + d + m[a + |d|..]
  }

  lemma SpliceAt<T>(m: seq<T>, a: nat, d: seq<T>, i: nat)
    requires a + |d| <= |m| && i < |m|
    ensures Splice(m, a, d)[i] == if a <= i < a + |d| then d[i - a] else m[i]
  {
  }

  lemma SpliceReadsBack<T>(m: seq<T>, a: nat, d: seq<T>)
    requires a + |d| <= |m|
    ensures Splice(m, a, d)[a..a + |d|] == d
  {
  }

  lemma SpliceLeavesRest<T>(m: seq<T>, a: nat, d: seq<T>, b: nat, n: nat)
    requires a + |d| <= |m| && b + n <= |m|
    requires b + n <= a || a + |d| <= b
    ensures Splice(m, a, d)[b..b + n] == m[b..b + n]
  {
  }

  lemma Split<T>(m: seq<T>, k: nat)
    requires k <= |m|
    ensures m[..k] + m[k..] == m
  {
  }

  lemma SpliceNothing<T>(m: seq<T>, a: nat)
    requires a <= |m|
    ensures Splice(m, a, []) == m
  {
  }

  /** A replacement inside a slice is seen as such by the slice. */
  lemma SpliceWithin<T>(m: seq<T>, base: nat, n: nat, o: nat, d: seq<T>)
    requires base + n <= |m| && o + |d| <= n
    ensures Splice(m, base + o, d)[base..base + n] == Splice(m[base..base + n], o, d)
  {
  }

  /** Two adjacent replacements are one. */
  lemma SpliceAppend<T>(m: seq<T>, a: nat, x: seq<T>, y: seq<T>)
    requires a + |x| + |y| <= |m|
    ensures Splice(Splice(m, a, x), a + |x|, y) == Splice(m, a, x + y)
  {
  }

  lemma SliceAppend<T>(m: seq<T>, a: nat, x: nat, y: nat)
    requires a + x + y <= |m|
    ensures m[a..a + x] + m[a + x..a + x + y] == m[a..a + x + y]
  {
  }

  lemma SliceOfSlice<T>(m: seq<T>, a: nat, n: nat, o: nat, k: nat)
    requires a + n <= |m| && o + k <= n
    ensures m[a..a + n][o..o + k] == m[a + o..a + o + k]
  {
    var x, y := m[a..a + n][o..o + k], m[a + o..a + o + k];
    assert forall i :: 0 <= i < k ==> x[i] == m[a..a + n][o + i] == y[i];
  }

  /** The four bytes of a 32-bit word, least significant first. */
  function U32Bytes(n: U32): (b: seq<Byte>)
    ensures |b| == 4
  {
    [n % 0x100, n / 0x100 % 0x100, n / 0x1_0000 % 0x100, n / 0x100_0000]
  }

  function U32At(b: seq<Byte>, at: nat): (n: U32)
    requires at + 4 <= |b|
  {
    var b0: int, b1: int, b2: int, b3: int := b[at], b[at + 1], b[at + 2], b[at + 3];
    b0 + 0x100 * b1 + 0x1_0000 * b2 + 0x100_0000 * b3
  }

  lemma U32Digits(n: U32)
    ensures n == n % 0x100 + 0x100 * (n / 0x100 % 0x100) + 0x1_0000 * (n / 0x1_0000 % 0x100) + 0x100_0000 * (n / 0x100_0000)
  {
    assert n / 0x1_0000 == n / 0x100 / 0x100;
    assert n / 0x100_0000 == n / 0x1_0000 / 0x100;
  }

  lemma U32RoundTrip(b: seq<Byte>, at: nat, n: U32)
    requires at + 4 <= |b|
    requires b[at..at + 4] == U32Bytes(n)
    ensures U32At(b, at) == n
  {
    var w := b[at..at + 4];
    assert b[at] == w[0] && b[at + 1] == w[1] && b[at + 2] == w[2] && b[at + 3] == w[3];
    U32Digits(n);
  }

  /** A C structure of 32-bit fields as it lies in memory. */
  function WordBytes(words: seq<U32>): (b: seq<Byte>)
    ensures |b| == 4 * |words|
  {
    seq(4 * |words|, i requires 0 <= i < 4 * |words| => U32Bytes(words[i / 4])[i % 4])
  }

  function WordsOf(b: seq<Byte>, count: nat): (words: seq<U32>)
    requires 4 * count <= |b|
    ensures |words| == count
  {
    seq(count, k requires 0 <= k < count => U32At(b, 4 * k))
  }

  lemma WordsRoundTrip(words: seq<U32>, rest: seq<Byte>)
    ensures WordsOf(WordBytes(words) + rest, |words|) == words
  {
    hide U32Bytes, U32At;
    var b := WordBytes(words) + rest;
    forall k | 0 <= k < |words|
      ensures WordsOf(b, |words|)[k] == words[k]
    {
      assert b[4 * k..4 * k + 4] == U32Bytes(words[k]);
      U32RoundTrip(b, 4 * k, words[k]);
    }
  }

  /** Bit j of a number: (b & 1 << j) != 0. */
  predicate BitOf(b: nat, j: nat) {
    if j == 0 then b % 2 == 1 else BitOf(b / 2, j - 1)
  }

  /** The number with bit j changed to v: b | 1 << j, or b & ~(1 << j). */
  function PutBit(b: nat, j: nat, v: bool): (r: nat)
    ensures BitOf(r, j) == v
  {
    if j == 0 then b / 2 * 2 + (if v then 1 else 0) else PutBit(b / 2, j - 1, v) * 2 + b % 2
  }

  lemma {:induction false} PutBitOther(b: nat, j: nat, v: bool, k: nat)
    requires k != j
    ensures BitOf(PutBit(b, j, v), k) == BitOf(b, k)
  {
    if j != 0 && k != 0 {
      var r := PutBit(b, j, v);
      assert r / 2 == PutBit(b / 2, j - 1, v);
      PutBitOther(b / 2, j - 1, v, k - 1);
    }
  }

  ghost function Power2(n: nat): nat {
    if n == 0 then 1 else 2 * Power2(n - 1)
  }

  /** Bit j has the weight 2^j: the bits above it, the bit, and those below. */
  lemma {:induction false} BitWeight(b: nat, j: nat) returns (high: nat, low: nat)
    ensures b == (2 * high + if BitOf(b, j) then 1 else 0) * Power2(j) + low && low < Power2(j)
  {
    if j == 0 {
      high, low := b / 2, 0;
    } else {
      high, low := BitWeight(b / 2, j - 1);
      Doubled(b, 2 * high + if BitOf(b / 2, j - 1) then 1 else 0, Power2(j - 1), low);
      low := 2 * low + b % 2;
    }
  }

  lemma Doubled(b: nat, top: nat, power: nat, low: nat)
    requires b / 2 == top * power + low && low < power
    ensures b == top * (2 * power) + (2 * low + b % 2) && 2 * low + b % 2 < 2 * power
  {
    assert top * (2 * power) == 2 * (top * power);
  }

  lemma {:induction false} PutBitInRange(b: nat, j: nat, v: bool, width: nat)
    requires j < width && b < Power2(width)
    ensures PutBit(b, j, v) < Power2(width)
  {
    if j != 0 {
      assert b / 2 < Power2(width - 1);
      PutBitInRange(b / 2, j - 1, v, width - 1);
    }
  }

  lemma {:induction false} BitsDetermine(a: nat, b: nat, width: nat)
    requires a < Power2(width) && b < Power2(width)
    requires forall k | 0 <= k < width :: BitOf(a, k) == BitOf(b, k)
    ensures a == b
  {
    if width != 0 {
      assert BitOf(a, 0) == BitOf(b, 0);
      forall k | 0 <= k < width - 1
        ensures BitOf(a / 2, k) == BitOf(b / 2, k)
      {
        assert BitOf(a, k + 1) == BitOf(b, k + 1);
      }
      BitsDetermine(a / 2, b / 2, width - 1);
    }
  }

  lemma ByteWidth()
    ensures Power2(8) == 0x100
  {
    assert Power2(4) == 16;
  }

  function PutByteBit(b: Byte, j: nat, v: bool): (r: Byte)
    requires j < 8
    ensures forall k: nat :: BitOf(r, k) == if k == j then v else BitOf(b, k)
  {
    ByteWidth();
    PutBitInRange(b, j, v, 8);
    assert forall k: nat :: k != j ==> BitOf(PutBit(b, j, v), k) == BitOf(b, k) by {
      forall k: nat | k != j
        ensures BitOf(PutBit(b, j, v), k) == BitOf(b, k)
      {
        PutBitOther(b, j, v, k);
      }
    }
    PutBit(b, j, v)
  }

  /** Bit k of a bitmap: bit k % 8 of byte k / 8. */
  predicate MapBit(bitmap: seq<Byte>, k: nat)
    requires k < 8 * |bitmap|
  {
    BitOf(bitmap[k / 8], k % 8)
  }

  function PutMapBit(bitmap: seq<Byte>, k: nat, v: bool): (r: seq<Byte>)
    requires k < 8 * |bitmap|
    ensures |r| == |bitmap|
    ensures forall i | 0 <= i < 8 * |bitmap| :: MapBit(r, i) == if i == k then v else MapBit(bitmap, i)
  {
    bitmap[k / 8 := PutByteBit(bitmap[k / 8], k % 8, v)]
  }

  lemma PutMapBitIs(bitmap: seq<Byte>, k: nat, v: bool)
    requires k < 8 * |bitmap|
    ensures PutMapBit(bitmap, k, v) == bitmap[k / 8 := PutByteBit(bitmap[k / 8], k % 8, v)]
  {
  }

  lemma BitmapExtensional(a: seq<Byte>, b: seq<Byte>)
    requires |a| == |b|
    requires forall i | 0 <= i < 8 * |a| :: MapBit(a, i) == MapBit(b, i)
    ensures a == b
  {
    forall i | 0 <= i < |a|
      ensures a[i] == b[i]
    {
      forall k | 0 <= k < 8
        ensures BitOf(a[i], k) == BitOf(b[i], k)
      {
        assert MapBit(a, 8 * i + k) == MapBit(b, 8 * i + k);
      }
      ByteWidth();
      BitsDetermine(a[i], b[i], 8);
    }
  }
}
