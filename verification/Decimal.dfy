/** Decimal text: printing with zero padding, parsing, and how text order relates to value. */
module Decimal {
  import opened StringOrder

  function Pow10(n: nat): (p: nat)
    ensures p >= 1
  {
    if n == 0 then 1 else 10 * Pow10(n - 1)
  }

  predicate IsDigit(c: char) {
    '0' <= c <= '9'
  }

  predicate AllDigits(s: string) {
    forall i :: 0 <= i < |s| ==> IsDigit(s[i])
  }

  function DigitValue(c: char): nat
    requires IsDigit(c)
  {
    c as nat - '0' as nat
  }

  /** The number a digit string stands for. */
  function Value(s: string): nat
    requires AllDigits(s)
  {
    if s == [] then 0 else DigitValue(s[0]) * Pow10(|s| - 1) + Value(s[1..])
  }

  function DigitChar(n: nat): (c: char)
    requires n < 10
    ensures IsDigit(c) && DigitValue(c) == n
  {
    '0' + n as char
  }

  function Digits(n: nat): (s: string)
    ensures s != [] && AllDigits(s)
  {
    if n < 10 then [DigitChar(n)] else Digits(n / 10) + [DigitChar(n % 10)]
  }

  function Zeros(n: nat): (s: string)
    ensures |s| == n && AllDigits(s)
  {
    if n == 0 then [] else ['0'] + Zeros(n - 1)
  }

  /** `n` in decimal, with leading zeros up to `width` characters. */
  function Padded(n: nat, width: nat): (s: string)
    ensures s != [] && AllDigits(s) && |s| >= width
  {
    var d := Digits(n);
    if |d| < width then Zeros(width - |d|) + d else d
  }

  lemma {:induction false} ValueSnoc(s: string, c: char)
    requires AllDigits(s) && IsDigit(c)
    ensures Value(s + [c]) == 10 * Value(s) + DigitValue(c)
  {
    if s == [] {
      assert s + [c] == [c];
      assert Value([c][1..]) == 0;
    } else {
      assert (s + [c])[1..] == s[1..] + [c];
      ValueSnoc(s[1..], c);
      assert DigitValue(s[0]) * Pow10(|s|) == 10 * (DigitValue(s[0]) * Pow10(|s| - 1));
    }
  }

  lemma {:induction false} DigitsValue(n: nat)
    ensures Value(Digits(n)) == n
  {
    if n < 10 {
      assert Value([DigitChar(n)][1..]) == 0;
    } else {
      DigitsValue(n / 10);
      ValueSnoc(Digits(n / 10), DigitChar(n % 10));
    }
  }

  lemma {:induction false} ZerosValue(k: nat, s: string)
    requires AllDigits(s)
    ensures Value(Zeros(k) + s) == Value(s)
  {
    if k == 0 {
      assert Zeros(0) + s == s;
    } else {
      assert (Zeros(k) + s)[1..] == Zeros(k - 1) + s;
      ZerosValue(k - 1, s);
    }
  }

  lemma PaddedValue(n: nat, width: nat)
    ensures Value(Padded(n, width)) == n
  {
    DigitsValue(n);
    if |Digits(n)| < width {
      ZerosValue(width - |Digits(n)|, Digits(n));
    }
  }

  lemma Carry(a: nat, b: nat, p: nat)
    requires a < b
    ensures a * p + p <= b * p
  {
    var d := b - a - 1;
    assert b * p == (a + 1 + d) * p == a * p + p + d * p;
    assert d * p >= 0;
  }

  lemma {:induction false} ValueBound(s: string)
    requires AllDigits(s)
    ensures Value(s) < Pow10(|s|)
  {
    if s != [] {
      ValueBound(s[1..]);
      Carry(DigitValue(s[0]), 10, Pow10(|s| - 1));
    }
  }

  lemma {:induction false} DigitsLength(n: nat)
    ensures n >= 10 ==> Pow10(|Digits(n)| - 1) <= n
    ensures n < Pow10(|Digits(n)|)
  {
    if n < 10 {
      assert Pow10(1) == 10 * Pow10(0);
    } else {
      DigitsLength(n / 10);
    }
  }

  /** A number below `Pow10(width)` is padded to exactly `width` characters. */
  lemma PaddedLength(n: nat, width: nat)
    requires width >= 1 && n < Pow10(width)
    ensures |Padded(n, width)| == width
  {
    DigitsLength(n);
    if |Digits(n)| > width {
      PowMonotone(width, |Digits(n)| - 1);
    }
  }

  lemma {:induction false} PowMonotone(a: nat, b: nat)
    requires a <= b
    ensures Pow10(a) <= Pow10(b)
    decreases b
  {
    if a < b { PowMonotone(a, b - 1); }
  }

  /** For digit strings of one length, text order is numeric order. */
  lemma {:induction false} OrderOfValues(s: string, t: string)
    requires AllDigits(s) && AllDigits(t) && |s| == |t|
    ensures Less(s, t) <==> Value(s) < Value(t)
    ensures s == t <==> Value(s) == Value(t)
  {
    if s != [] {
      OrderOfValues(s[1..], t[1..]);
      ValueBound(s[1..]);
      ValueBound(t[1..]);
      assert s == [s[0]] + s[1..] && t == [t[0]] + t[1..];
      HeadsOrder(DigitValue(s[0]), DigitValue(t[0]), Value(s[1..]), Value(t[1..]), Pow10(|s| - 1));
    }
  }

  lemma HeadsOrder(a: nat, b: nat, x: nat, y: nat, p: nat)
    requires x < p && y < p
    ensures a * p + x < b * p + y <==> (a < b || (a == b && x < y))
    ensures a * p + x == b * p + y <==> (a == b && x == y)
  {
    if a < b {
      Carry(a, b, p);
    } else if b < a {
      Carry(b, a, p);
    }
  }

  lemma PaddedOrder(m: nat, n: nat, width: nat)
    requires |Padded(m, width)| == |Padded(n, width)|
    ensures Less(Padded(m, width), Padded(n, width)) <==> m < n
    ensures Padded(m, width) == Padded(n, width) <==> m == n
  {
    PaddedValue(m, width);
    PaddedValue(n, width);
    OrderOfValues(Padded(m, width), Padded(n, width));
  }

  /** The last digit of a number, by its code point. */
  function Digit(n: int): char {
    (48 + n % 10) as char
  }

  lemma {:induction false} ZerosSnoc(k: nat)
    ensures Zeros(k) + ['0'] == Zeros(k + 1)
  {
    if k > 0 {
      ZerosSnoc(k - 1);
      assert ['0'] + Zeros(k - 1) + ['0'] == ['0'] + (Zeros(k - 1) + ['0']);
    }
  }

  lemma PaddedDigit(n: nat, width: nat)
    requires n < 10
    ensures Padded(n, width + 1) == Zeros(width) + [Digit(n)]
  {
  }

  lemma PaddedMore(n: nat, width: nat)
    requires n >= 10
    ensures Padded(n, width + 1) == Padded(n / 10, width) + [Digit(n)]
  {
    var head := Digits(n / 10);
    assert Digits(n) == head + [Digit(n)];
    if |head| < width {
      assert Zeros(width - |head|) + (head + [Digit(n)]) == Zeros(width - |head|) + head + [Digit(n)];
    }
  }

  lemma PaddedSnoc(n: nat, width: nat)
    requires width >= 1
    ensures Padded(n, width + 1) == Padded(n / 10, width) + [Digit(n)]
  {
    if n < 10 {
      PaddedDigit(n, width);
      PaddedDigit(0, width - 1);
      ZerosSnoc(width - 1);
    } else {
      PaddedMore(n, width);
    }
  }

  lemma TwoDigits(n: nat)
    requires n < 100
    ensures Padded(n, 2) == [Digit(n / 10), Digit(n)]
  {
    PaddedSnoc(n, 1);
  }

  lemma FourDigits(n: nat)
    requires n < 10_000
    ensures Padded(n, 4) == [Digit(n / 1_000), Digit(n / 100), Digit(n / 10), Digit(n)]
  {
    PaddedSnoc(n, 3);
    PaddedSnoc(n / 10, 2);
    TwoDigits(n / 10 / 10);
    assert n / 10 / 10 == n / 100 && n / 100 / 10 == n / 1_000;
  }
}
