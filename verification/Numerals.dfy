/** Numbers as text: numberBaseNtoString, itoa and atoi, with 32-bit arithmetic. */
module Numerals {
  import opened Bytes
  import opened CStrings

  type Int32 = x: int | -0x8000_0000 <= x < 0x8000_0000

  function DigitChar(d: nat): Byte
    requires d < 16
  {
    if d < 10 then 48 + d else 55 + d
  }

  lemma DigitShown(d: nat)
    requires d < 16
    ensures DigitChar(d) == "0123456789ABCDEF"[d] as int
  {
  }

  function DigitValue(c: Byte): int {
    if c < 58 then c - 48 else c - 55
  }

  /** The numeral of n: its digits, most significant first. */
  function Numeral(n: nat, base: nat): (s: seq<Byte>)
    requires 2 <= base <= 16
    ensures |s| > 0 && 0 !in s
  {
    if n < base then [DigitChar(n)] else Numeral(n / base, base) + [DigitChar(n % base)]
  }

  /** The number a numeral denotes. */
  function Denoted(s: seq<Byte>, base: nat): int {
    if s == [] then 0 else Denoted(s[..|s| - 1], base) * base + DigitValue(s[|s| - 1])
  }

  function Power(base: nat, k: nat): nat {
    if k == 0 then 1 else base * Power(base, k - 1)
  }

  predicate IsDigit(c: Byte, base: nat) {
    (48 <= c < 58 && c - 48 < base) || (65 <= c < 71 && c - 55 < base)
  }

  /** The numeral denotes its number, in digits of the base, without a leading zero. */
  lemma {:induction false} NumeralDenotes(n: nat, base: nat)
    requires 2 <= base <= 16
    ensures Denoted(Numeral(n, base), base) == n
    ensures forall i :: 0 <= i < |Numeral(n, base)| ==> IsDigit(Numeral(n, base)[i], base)
    ensures Numeral(n, base)[0] == 48 ==> n == 0
  {
    hide Denoted, IsDigit, DigitChar;
    if n >= base {
      Quotient(n, base);
      NumeralDenotes(n / base, base);
      DenotedAppend(Numeral(n / base, base), n % base, base);
    } else {
      DenotedAppend([], n, base);
      DenotedNothing(base);
      assert Numeral(n, base) == [] + [DigitChar(n)];
    }
  }

  lemma DenotedNothing(base: nat)
    ensures Denoted([], base) * base == 0
  {
    assert Denoted([], base) == 0;
  }

  lemma Quotient(n: nat, base: nat)
    requires 2 <= base <= n
    ensures (n / base) * base + n % base == n && 1 <= n / base < n && n % base < base
  {
    var q, r := n / base, n % base;
    assert n == base * q + r;
    if q < 1 {
      ProductGrows(base, q, 0);
      assert false;
    }
    ProductGrows(q, 2, base);
  }

  lemma ProductGrows(b: nat, x: int, y: int)
    requires x <= y
    ensures b * x <= b * y
  {
  }

  lemma DenotedAppend(s: seq<Byte>, d: nat, base: nat)
    requires 2 <= base <= 16 && d < base
    ensures Denoted(s + [DigitChar(d)], base) == Denoted(s, base) * base + d && IsDigit(DigitChar(d), base)
    ensures DigitChar(d) == 48 ==> d == 0
  {
    assert (s + [DigitChar(d)])[..|s|] == s;
  }

  /** A numeral without leading zero that denotes n is the one Numeral gives. */
  lemma {:induction false} NumeralUnique(s: seq<Byte>, base: nat)
    requires 2 <= base <= 16 && s != [] && (s[0] == 48 ==> |s| == 1)
    requires forall i :: 0 <= i < |s| ==> IsDigit(s[i], base)
    ensures 0 <= Denoted(s, base) && s == Numeral(Denoted(s, base), base) && (s[0] != 48 ==> Denoted(s, base) > 0)
  {
    var k := |s| - 1;
    var d := DigitValue(s[k]);
    if k == 0 {
      assert Denoted(s[..0], base) == 0;
    } else {
      NumeralUnique(s[..k], base);
      var m := Denoted(s[..k], base);
      DivideDigit(m, base, d);
      assert s == s[..k] + [s[k]];
    }
  }

  lemma DivideDigit(m: nat, base: nat, d: nat)
    requires 1 <= base && d < base
    ensures (m * base + d) / base == m && (m * base + d) % base == d
    ensures m > 0 ==> m * base + d >= base
  {
    var x := m * base + d;
    var q, r := x / base, x % base;
    assert x == base * q + r;
    QuotientUnique(base, q, r, m, d);
    if m > 0 {
      ProductGrows(base, 1, m);
    }
  }

  lemma QuotientUnique(base: nat, q: int, r: int, m: int, d: int)
    requires base * q + r == base * m + d && 0 <= r < base && 0 <= d < base
    ensures q == m && r == d
  {
    if q > m {
      ProductGrows(base, m + 1, q);
      assert false;
    } else if q < m {
      ProductGrows(base, q + 1, m);
      assert false;
    }
  }

  /** A numeral has k digits exactly when the number lies between the powers. */
  lemma {:induction false} NumeralLength(n: nat, base: nat, k: nat)
    requires 2 <= base <= 16
    ensures |Numeral(n, base)| <= k <==> 1 <= k && n < Power(base, k)
    decreases n
  {
    if k == 0 {
    } else if n < base {
      PowerGrows(base, k);
    } else {
      NumeralLength(n / base, base, k - 1);
      DivideBelow(n, base, Power(base, k - 1));
      if k == 1 {
        assert Power(base, 0) == 1;
      }
    }
  }

  lemma PowerGrows(base: nat, k: nat)
    requires 2 <= base && 1 <= k
    ensures base <= Power(base, k)
  {
    if k > 1 {
      PowerGrows(base, k - 1);
      assert base * Power(base, k - 1) >= Power(base, k - 1);
    }
  }

  lemma DivideBelow(n: nat, base: nat, p: nat)
    requires 1 <= base
    ensures n / base < p <==> n < base * p
  {
    var q, r := n / base, n % base;
    assert n == base * q + r;
    if q < p {
      assert base * (q + 1) <= base * p;
    } else {
      assert base * p <= base * q;
    }
  }

  /* --- numberBaseNtoString --- */

  /** The characters for the digits, most significant last. */
  function Written(digits: seq<int>, base: nat): (s: seq<Byte>)
    requires 2 <= base <= 16 && forall i :: 0 <= i < |digits| ==> 0 <= digits[i] < base
    ensures |s| == |digits|
  {
    if digits == [] then [] else Written(digits[1..], base) + [DigitChar(digits[0])]
  }

  lemma {:induction false} WrittenAppend(digits: seq<int>, d: nat, base: nat)
    requires 2 <= base <= 16 && d < base && forall i :: 0 <= i < |digits| ==> 0 <= digits[i] < base
    ensures Written(digits + [d], base) == [DigitChar(d)] + Written(digits, base)
  {
    var all := digits + [d];
    if digits == [] {
      assert all[1..] == [];
    } else {
      assert all[1..] == digits[1..] + [d];
      WrittenAppend(digits[1..], d, base);
    }
  }

  lemma {:induction false} WrittenAt(digits: seq<int>, i: nat, base: nat)
    requires 2 <= base <= 16 && i < |digits| && forall k :: 0 <= k < |digits| ==> 0 <= digits[k] < base
    ensures Written(digits, base)[|digits| - 1 - i] == DigitChar(digits[i])
  {
    if i > 0 {
      WrittenAt(digits[1..], i - 1, base);
    }
  }

  /** What is left of the number, followed by the digits taken off, is the numeral. */
  ghost predicate Taken(number: nat, n: nat, digits: seq<int>, base: nat)
    requires 2 <= base <= 16
  {
    && (forall i :: 0 <= i < |digits| ==> 0 <= digits[i] < base)
    && Numeral(number, base) == (if n > 0 then Numeral(n, base) else []) + Written(digits, base)
  }

  lemma TakeDigit(number: nat, n: nat, digits: seq<int>, base: nat)
    requires 2 <= base <= 16 && 0 < n && Taken(number, n, digits, base)
    ensures Taken(number, n / base, digits + [n % base], base)
    ensures n < base ==> n / base == 0 && n % base == n
  {
    hide Numeral, Written;
    DigitBound(n, base);
    WrittenAppend(digits, n % base, base);
    NumeralStep(n, base);
    assert (if n / base > 0 then Numeral(n / base, base) else []) + ([DigitChar(n % base)] + Written(digits, base))
        == (if n / base > 0 then Numeral(n / base, base) else []) + [DigitChar(n % base)] + Written(digits, base);
  }

  lemma DigitBound(n: nat, base: nat)
    requires 2 <= base
    ensures 0 <= n % base < base && 0 <= n / base
    ensures n < base ==> n % base == n && n / base == 0
  {
  }

  /** The room the remaining number needs shrinks with every digit: at most 32 digits. */
  lemma RoomLeft(n: nat, base: nat, k: nat)
    requires 2 <= base && 0 < n < Power(2, k)
    ensures 0 < k && n / base < Power(2, k - 1)
  {
    if k > 0 {
      DivideBelow(n, 2, Power(2, k - 1));
      DivideSmaller(n, base);
    }
  }

  lemma DivideSmaller(n: nat, base: nat)
    requires 2 <= base
    ensures n / base <= n / 2
  {
    var q := n / base;
    assert n == base * q + n % base;
    ProductGrows(q, 2, base);
  }

  lemma Power32()
    ensures Power(2, 32) == 0x1_0000_0000
  {
    assert Power(2, 8) == 0x100;
    assert Power(2, 16) == 0x1_0000;
    assert Power(2, 24) == 0x100_0000;
  }

  const NUMBERS: seq<Byte> := [48, 49, 50, 51, 52, 53, 54, 55, 56, 57, 65, 66, 67, 68, 69, 70]

  function Quo(n: nat, base: nat): nat
    requires 2 <= base
  {
    n / base
  }

  function Rest(n: nat, base: nat): nat
    requires 2 <= base
  {
    n % base
  }

  /** One round of the digit loop. */
  lemma DigitRound(number: nat, n: nat, digits: seq<int>, base: nat, k: nat)
    requires 2 <= base <= 16 && 0 < n < Power(2, k) && Taken(number, n, digits, base)
    ensures 0 < k && Quo(n, base) < Power(2, k - 1) && Quo(n, base) < n && Rest(n, base) < base
    ensures Taken(number, Quo(n, base), digits + [Rest(n, base)], base)
    ensures n < base ==> Quo(n, base) == 0 && Rest(n, base) == n
  {
    hide Taken, Power;
    TakeDigit(number, n, digits, base);
    RoomLeft(n, base, k);
    DigitBound(n, base);
    DivideSmaller(n, base);
  }

  /** The digit loop of numberBaseNtoString; no base uses more than 32 of the 40 cells. */
  method TakeDigits(number0: U32, base: nat, digits: array<int>) returns (position: nat)
    requires 2 <= base <= 16 && digits.Length == 40 && number0 != 0
    modifies digits
    ensures position <= 32 && (forall i :: 0 <= i < position ==> 0 <= digits[i] < base)
    ensures Numeral(number0, base) == Written(digits[..position], base)
  {
    hide Written, Numeral, Taken, Power, Quo, Rest;
    var number: nat := number0;
    position := 0;
    Power32();
    TakeNone(number0, base);
    assert digits[..0] == [];
    while number > 0
      invariant position <= 32 && number < Power(2, 32 - position)
      invariant Taken(number0, number, digits[..position], base)
    {
      ghost var taken, n := digits[..position], number;
      DigitRound(number0, number, taken, base, 32 - position);
      if number < base {
        digits[position] := number;
        number := 0;
      } else {
        digits[position] := Rest(number, base);
        number := Quo(number, base);
      }
      assert digits[..position + 1] == taken + [Rest(n, base)];
      position := position + 1;
    }
    TakenAll(number0, digits[..position], base);
    assert forall i :: 0 <= i < position ==> digits[..position][i] == digits[i];
  }

  lemma TakenAll(number: nat, digits: seq<int>, base: nat)
    requires 2 <= base <= 16 && Taken(number, 0, digits, base)
    ensures forall i :: 0 <= i < |digits| ==> 0 <= digits[i] < base
    ensures Numeral(number, base) == Written(digits, base)
  {
    assert [] + Written(digits, base) == Written(digits, base);
  }

  lemma TakeNone(number: nat, base: nat)
    requires 2 <= base <= 16 && 0 < number
    ensures Taken(number, number, [], base)
  {
    assert Numeral(number, base) == Numeral(number, base) + Written([], base);
  }

  /** numberBaseNtoString. */
  method NumberBaseNToString(number: U32, base: nat, out: array<Byte>)
    requires 2 <= base <= 16 && out.Length >= 33
    modifies out
    ensures |Numeral(number, base)| <= 32
    ensures out[..|Numeral(number, base)| + 1] == Numeral(number, base) + [0]
    ensures out[|Numeral(number, base)| + 1..] == old(out[|Numeral(number, base)| + 1..])
    ensures Text(out[..]) == Numeral(number, base)
  {
    hide Text, Numeral, Written;
    ghost var s := Numeral(number, base);
    NumeralZero(base);
    var digits := new int[40];
    if number != 0 {
      var position := TakeDigits(number, base, digits);
      WriteDigits(digits, position, base, out);
    } else {
      out[0] := 48;
      out[1] := 0;
    }
    assert out[..|s| + 1] == s + [0];
    assert out[..] == s + [0] + out[|s| + 1..];
    TextOf(s, out[|s| + 1..]);
  }

  /** The loop of numberBaseNtoString that writes the characters in reverse. */
  method WriteDigits(digits: array<int>, position0: nat, base: nat, out: array<Byte>)
    requires 2 <= base <= 16 && position0 < out.Length && position0 <= digits.Length
    requires forall i :: 0 <= i < position0 ==> 0 <= digits[i] < base
    modifies out
    ensures out[..position0 + 1] == Written(digits[..position0], base) + [0]
    ensures out[position0 + 1..] == old(out[position0 + 1..])
  {
    hide Written;
    ghost var taken := digits[..position0];
    ghost var s := Written(taken, base);
    var position, index := position0, 0;
    while position > 0
      invariant position + index == position0
      invariant forall k :: 0 <= k < index ==> out[k] == s[k]
      invariant forall k :: index <= k < out.Length ==> out[k] == old(out[k])
    {
      WrittenAt(taken, position - 1, base);
      DigitBound(digits[position - 1], base);
      out[index] := NUMBERS[digits[position - 1] % base];
      position, index := position - 1, index + 1;
    }
    out[index] := 0;
  }

  lemma NumeralZero(base: nat)
    requires 2 <= base <= 16
    ensures Numeral(0, base) == [48]
  {
  }

  /* --- itoa --- */

  /** The remainder of C, which has the sign of the dividend. */
  function Rem10(i: int): int {
    if i >= 0 then i % 10 else -(-i % 10)
  }

  /** The quotient of C, which truncates towards zero. */
  function Quot10(i: int): int {
    if i >= 0 then i / 10 else -(-i / 10)
  }

  /** The decimal text of an integer. */
  function Decimal(i: int): (s: seq<Byte>)
    ensures |s| > 0 && 0 !in s
  {
    if i >= 0 then Numeral(i, 10) else [45] + Numeral(-i, 10)
  }

  /** A 32-bit integer takes at most eleven characters. */
  lemma DecimalLength(i: Int32)
    ensures |Decimal(i)| <= 11
  {
    assert Power(10, 5) == 100000;
    assert Power(10, 10) == 10000000000;
    NumeralLength(Magnitude(i), 10, 10);
  }

  /** The digit loop of itoa below position p0 for the magnitude of i0. */
  method PutDigits(i0: int, buf: array<Byte>, p0: nat) returns (p: nat)
    requires |Numeral(Magnitude(i0), 10)| <= p0 <= buf.Length
    modifies buf
    ensures p + |Numeral(Magnitude(i0), 10)| == p0
    ensures buf[p..p0] == Numeral(Magnitude(i0), 10) && buf[p0..] == old(buf[p0..]) && buf[..p] == old(buf[..p])
  {
    hide Numeral, Rem10, Quot10;
    ghost var s := Numeral(Magnitude(i0), 10);
    p := p0;
    var i := i0;
    var started := false;
    ghost var done: seq<Byte> := [];
    assert s == Numeral(Magnitude(i), 10) + done;
    while !started || i != 0
      invariant p <= p0 && (started ==> p < p0) && (!started ==> p == p0 && i == i0)
      invariant (i0 >= 0 ==> i >= 0) && (i0 < 0 ==> i < 0 || (started && i == 0))
      invariant buf[p..p0] == done && buf[p0..] == old(buf[p0..]) && buf[..p] == old(buf[..p])
      invariant s == (if started && i == 0 then [] else Numeral(Magnitude(i), 10)) + done
      decreases !started, Magnitude(i)
    {
      DecimalStep(i, done);
      p := p - 1;
      buf[p] := if i0 >= 0 then 48 + Rem10(i) else 48 - Rem10(i);
      done := [buf[p]] + done;
      i := Quot10(i);
      started := true;
    }
  }

  lemma DecimalStep(i: int, done: seq<Byte>)
    ensures var c := if i >= 0 then 48 + Rem10(i) else 48 - Rem10(i);
            && 48 <= c < 58 && Magnitude(Quot10(i)) == Magnitude(i) / 10
            && Numeral(Magnitude(i), 10) + done
               == (if Quot10(i) == 0 then [] else Numeral(Magnitude(Quot10(i)), 10)) + ([c] + done)
    ensures Magnitude(Quot10(i)) < Magnitude(i) || i == 0
    ensures (i >= 0 ==> Quot10(i) >= 0) && (i <= 0 ==> Quot10(i) <= 0)
  {
    NumeralStep(Magnitude(i), 10);
    hide Numeral;
    var rest := if Quot10(i) == 0 then [] else Numeral(Magnitude(Quot10(i)), 10);
    assert rest + [DigitChar(Magnitude(i) % 10)] + done == rest + ([DigitChar(Magnitude(i) % 10)] + done);
  }

  function Magnitude(i: int): nat {
    if i >= 0 then i else -i
  }

  lemma NumeralStep(n: nat, base: nat)
    requires 2 <= base <= 16
    ensures Numeral(n, base) == (if n / base != 0 then Numeral(n / base, base) else []) + [DigitChar(n % base)]
    ensures n / base < n || n == 0
  {
    hide DigitChar;
    DigitBound(n, base);
    if n >= base {
      Quotient(n, base);
    }
  }

  /** itoa: the returned position in the static buffer of 21 bytes, whose last byte stays zero. */
  method Itoa(i: Int32, buf: array<Byte>) returns (p: nat)
    requires buf.Length == 21 && buf[20] == 0
    modifies buf
    ensures 9 <= p < 20 && buf[20] == 0
    ensures buf[p..] == Decimal(i) + [0] && Text(buf[p..]) == Decimal(i) && buf[..p] == old(buf[..p])
  {
    hide *;
    DecimalLength(i);
    DecimalIs(i);
    p := PutDigits(i, buf, 20);
    ghost var s := Numeral(Magnitude(i), 10);
    assert buf[20] == buf[20..][0] == 0;
    assert buf[p..] == buf[p..20] + buf[20..];
    if i < 0 {
      ghost var tail := buf[p..];
      p := p - 1;
      buf[p] := 45;
      assert buf[p..] == [45] + tail;
    }
    TextOf(Decimal(i), []);
    assert Decimal(i) + [0] + [] == buf[p..];
  }

  lemma DecimalIs(i: int)
    ensures Decimal(i) == if i < 0 then [45] + Numeral(Magnitude(i), 10) else Numeral(Magnitude(i), 10)
  {
  }
}
