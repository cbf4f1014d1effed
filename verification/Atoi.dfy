/** atoi with 32-bit wrap-around, and when it reads back what itoa printed. */
module Atoi {
  import opened Bytes
  import opened CStrings
  import opened Numerals

  /** Conversion to int: the value modulo 2^32 that is in range. */
  function Wrap(x: int): Int32 {
    var r := x % 0x1_0000_0000;
    if r >= 0x8000_0000 then r - 0x1_0000_0000 else r
  }

  /** It is the only value of an int that is the number modulo 2^32. */
  lemma WrapUnique(x: int, n: Int32)
    ensures Wrap(x) == n <==> x % 0x1_0000_0000 == n % 0x1_0000_0000
  {
  }

  lemma WrapShift(x: int, j: int)
    ensures Wrap(x + 0x1_0000_0000 * j) == Wrap(x)
  {
  }

  lemma WrapIs(x: int) returns (j: int)
    ensures Wrap(x) == x + 0x1_0000_0000 * j
  {
    j := -(x / 0x1_0000_0000) - if x % 0x1_0000_0000 >= 0x8000_0000 then 1 else 0;
  }

  lemma WrapOfWrap(x: int, d: int)
    ensures Wrap(10 * Wrap(x) + d) == Wrap(10 * x + d)
    ensures Wrap(Wrap(Wrap(Wrap(x) * 8) + Wrap(Wrap(x) * 2)) + d) == Wrap(10 * x + d)
  {
    var j := WrapIs(x);
    var a := WrapIs(Wrap(x) * 8);
    var b := WrapIs(Wrap(x) * 2);
    var c := WrapIs(Wrap(Wrap(x) * 8) + Wrap(Wrap(x) * 2));
    hide Wrap;
    WrapShift(10 * x + d, 10 * j);
    WrapShift(10 * x + d, 10 * j + a + b + c);
  }

  /** The number a text stands for when every character counts as a digit, in unbounded arithmetic. */
  function Reading(s: seq<Byte>): int {
    if s == [] then 0 else 10 * Reading(s[..|s| - 1]) + Signed(s[|s| - 1]) - 48
  }

  /** atoi: every character is taken for a digit, the minus sign too. */
  method AToI(str: seq<Byte>) returns (i: Int32)
    requires 0 in str
    ensures i == Wrap(Reading(Text(str)))
  {
    hide Wrap;
    ghost var s := Text(str);
    var k := 0;
    i := 0;
    assert Wrap(0) == 0 by { WrapZero(); }
    while str[k] != 0
      invariant 0 <= k <= |s| && i == Wrap(Reading(s[..k]))
      decreases |s| - k
    {
      assert s[..k + 1][..k] == s[..k];
      WrapOfWrap(Reading(s[..k]), Signed(str[k]) - 48);
      i := Wrap(Wrap(Wrap(i * 8) + Wrap(i * 2)) + (Signed(str[k]) - 48));
      k := k + 1;
    }
    assert s[..k] == s;
  }

  lemma WrapZero()
    ensures Wrap(0) == 0
  {
  }

  lemma {:induction false} ReadingNumeral(pre: seq<Byte>, n: nat)
    ensures Reading(pre + Numeral(n, 10)) == Reading(pre) * Power(10, |Numeral(n, 10)|) + n
    decreases n
  {
    hide Numeral, DigitChar, Power;
    NumeralStep(n, 10);
    DigitIs(n % 10);
    var front := if n / 10 != 0 then Numeral(n / 10, 10) else [];
    ReadingAppend(pre + front, n % 10);
    assert pre + Numeral(n, 10) == pre + front + [DigitChar(n % 10)];
    PowerStep(|front|);
    if n / 10 != 0 {
      ReadingNumeral(pre, n / 10);
      Regroup(Reading(pre), Power(10, |front|));
    } else {
      assert pre + front == pre;
    }
  }

  lemma DigitIs(d: nat)
    requires d < 10
    ensures DigitChar(d) == 48 + d
  {
  }

  lemma ReadingAppend(s: seq<Byte>, d: nat)
    requires d < 10
    ensures Reading(s + [DigitChar(d)]) == 10 * Reading(s) + d
  {
    assert (s + [DigitChar(d)])[..|s|] == s;
  }

  lemma PowerStep(k: nat)
    ensures Power(10, k + 1) == 10 * Power(10, k) && Power(10, 0) == 1
  {
  }

  lemma Regroup(x: int, p: int)
    ensures 10 * (x * p) == x * (10 * p)
  {
  }

  /** The digits of a 32-bit magnitude, with the powers of ten written out. */
  lemma LengthIs(m: nat)
    requires 1 <= m <= 0x8000_0000
    ensures var k := |Numeral(m, 10)|;
            1 <= k <= 10 && Power(10, k - 1) <= m < Power(10, k)
  {
    var k := |Numeral(m, 10)|;
    NumeralLength(m, 10, k);
    NumeralLength(m, 10, k - 1);
    PowersOfTen();
    NumeralLength(m, 10, 10);
  }

  lemma PowersOfTen()
    ensures Power(10, 0) == 1 && Power(10, 1) == 10 && Power(10, 2) == 100 && Power(10, 3) == 1000 && Power(10, 4) == 10000
    ensures Power(10, 5) == 100000 && Power(10, 6) == 1000000 && Power(10, 7) == 10000000
    ensures Power(10, 8) == 100000000 && Power(10, 9) == 1000000000 && Power(10, 10) == 10000000000
  {
  }

  /** The minus sign counts as the digit -3, which is right for one negative number only. */
  lemma NegativeReading(m: int)
    requires 1 <= m <= 0x8000_0000
    ensures Wrap(-3 * Power(10, |Numeral(m, 10)|) + m) == -m <==> m == 2115098112
  {
    LengthIs(m);
    PowersOfTen();
    var k := |Numeral(m, 10)|;
    hide Numeral, Power;
    assert k == 1 || k == 2 || k == 3 || k == 4 || k == 5 || k == 6 || k == 7 || k == 8 || k == 9 || k == 10;
    var p := Power(10, k);
    assert p <= 1000000000 || p == 10000000000;
    assert m < p <= 10 * m;
    NegativeWrap(m, p);
  }

  lemma NegativeWrap(m: int, p: int)
    requires 1 <= m <= 0x8000_0000 && m < p <= 10 * m && (p <= 1000000000 || p == 10000000000)
    ensures Wrap(-3 * p + m) == -m <==> m == 2115098112
  {
    if p <= 1000000000 {
      assert Wrap(-3 * p + m) == -3 * p + m || Wrap(-3 * p + m) == -3 * p + m + 0x1_0000_0000;
    } else {
      WrapShift(-3 * p + m, 7);
    }
  }

  lemma NotNegative(n: Int32)
    requires 0 <= n
    ensures Wrap(Reading(Decimal(n))) == n
  {
    hide Numeral;
    ReadingNumeral([], n);
    assert [] + Numeral(n, 10) == Numeral(n, 10);
    assert Reading([]) == 0;
  }

  lemma MinusIs()
    ensures Reading([45]) == -3
  {
    assert [45][..0] == [];
  }

  /** atoi reads back what itoa printed exactly for the numbers from 0 up, and for -2115098112. */
  lemma ReadsBackExact(n: Int32)
    ensures Wrap(Reading(Decimal(n))) == n <==> 0 <= n || n == -2115098112
  {
    if n >= 0 {
      NotNegative(n);
    } else {
      hide Wrap, Power, Numeral, Reading;
      ReadingNumeral([45], Magnitude(n));
      MinusIs();
      NegativeReading(Magnitude(n));
    }
  }
}
