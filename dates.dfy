/** Calendar dates as the app stores them: the `YYYY-MM-DD` prefix of
    `Date.prototype.toISOString`. The history sort compares `new Date(d)`
    values; this module shows that, for such strings, comparing them as
    strings orders them the same way. */
module Dates {
  import opened Strings

  predicate IsDigit(c: char) {
    '0' <= c <= '9'
  }

  predicate AllDigits(s: string) {
    forall k :: 0 <= k < |s| ==> IsDigit(s[k])
  }

  function Pow10(n: nat): (p: nat)
    ensures p >= 1
  {
    if n == 0 then 1 else 10 * Pow10(n - 1)
  }

  /** The decimal value of a string of digits, most significant first. */
  function Number(s: string): nat
    requires AllDigits(s)
  {
    if s == [] then 0
    else
      var d, p := s[0] as int - '0' as int, Pow10(|s| - 1);
      MulMono(0, d, p);
      d * p + Number(s[1..])
  }

  lemma MulMono(x: int, y: int, p: nat)
    requires x <= y
    ensures x * p <= y * p
  {
  }

  /** A leading digit `d` before a tail below `p` stays below `10 * p`. */
  lemma DigitStep(d: int, p: nat, n: int)
    requires 0 <= d <= 9 && n < p
    ensures d * p + n < 10 * p
  {
    MulMono(d + 1, 10, p);
    assert (d + 1) * p == d * p + p;
  }

  lemma {:induction false} NumberBound(s: string)
    requires AllDigits(s)
    ensures Number(s) < Pow10(|s|)
  {
    if s != [] {
      assert IsDigit(s[0]);
      var d, p := s[0] as int - '0' as int, Pow10(|s| - 1);
      assert 0 <= d <= 9;
      assert Pow10(|s|) == 10 * p;
      assert Number(s) == d * p + Number(s[1..]);
      NumberBound(s[1..]);
      DigitStep(d, p, Number(s[1..]));
    }
  }

  /** For digit strings of one length, string order is numeric order. */
  lemma {:induction false} DigitsLtIff(a: string, b: string)
    requires AllDigits(a) && AllDigits(b) && |a| == |b|
    ensures Lt(a, b) <==> Number(a) < Number(b)
  {
    if a != [] {
      var da, db := a[0] as int - '0' as int, b[0] as int - '0' as int;
      var p := Pow10(|a| - 1);
      if a[0] == b[0] {
        DigitsLtIff(a[1..], b[1..]);
      } else {
        NumberBound(a[1..]);
        NumberBound(b[1..]);
        assert Number(a) == da * p + Number(a[1..]);
        assert Number(b) == db * p + Number(b[1..]);
        if da < db {
          MulMono(da + 1, db, p);
          assert (da + 1) * p == da * p + p;
        } else {
          MulMono(db + 1, da, p);
          assert (db + 1) * p == db * p + p;
        }
      }
    }
  }

  /** Comparing two strings that each consist of a head and a tail, heads of
      one length: the heads decide unless they are equal. */
  lemma {:induction false} LtConcat(x1: string, y1: string, x2: string, y2: string)
    requires |x1| == |x2|
    ensures Lt(x1 + y1, x2 + y2) <==> Lt(x1, x2) || (x1 == x2 && Lt(y1, y2))
  {
    if x1 != [] {
      assert (x1 + y1)[1..] == x1[1..] + y1;
      assert (x2 + y2)[1..] == x2[1..] + y2;
      LtConcat(x1[1..], y1, x2[1..], y2);
      if x1[0] == x2[0] && x1[1..] == x2[1..] {
        assert x1 == [x1[0]] + x1[1..];
        assert x2 == [x2[0]] + x2[1..];
      }
    } else {
      assert x1 + y1 == y1 && x2 + y2 == y2;
    }
  }

  /** `YYYY-MM-DD` with four year digits. */
  predicate IsIsoDate(d: string) {
    && |d| == 10
    && AllDigits(d[..4]) && d[4] == '-'
    && AllDigits(d[5..7]) && d[7] == '-'
    && AllDigits(d[8..])
  }

  function Year(d: string): nat requires IsIsoDate(d) { Number(d[..4]) }
  function Month(d: string): nat requires IsIsoDate(d) { Number(d[5..7]) }
  function Day(d: string): nat requires IsIsoDate(d) { Number(d[8..]) }

  /** A number that grows with the calendar: year first, then month, then day. */
  function DayKey(d: string): nat
    requires IsIsoDate(d)
  {
    Year(d) * 10000 + Month(d) * 100 + Day(d)
  }

  /** Two digit strings of one length are equal exactly when their values are. */
  lemma DigitsEqIff(a: string, b: string)
    requires AllDigits(a) && AllDigits(b) && |a| == |b|
    ensures a == b <==> Number(a) == Number(b)
  {
    DigitsLtIff(a, b);
    DigitsLtIff(b, a);
    LtTotal(a, b);
  }

  /** String order on ISO dates compares the year digits, then the month
      digits, then the day digits. */
  lemma IsoDateFields(a: string, b: string)
    requires IsIsoDate(a) && IsIsoDate(b)
    ensures Lt(a, b) <==>
              || Lt(a[..4], b[..4])
              || (a[..4] == b[..4] && (Lt(a[5..7], b[5..7]) || (a[5..7] == b[5..7] && Lt(a[8..], b[8..]))))
  {
    assert a == a[..4] + (a[4..5] + (a[5..7] + (a[7..8] + a[8..])));
    assert b == b[..4] + (b[4..5] + (b[5..7] + (b[7..8] + b[8..])));
    assert a[4..5] == b[4..5] == "-" && a[7..8] == b[7..8] == "-";
    assert a[4..] == a[4..5] + a[5..] && b[4..] == b[4..5] + b[5..];
    assert a[5..] == a[5..7] + a[7..] && b[5..] == b[5..7] + b[7..];
    assert a[7..] == a[7..8] + a[8..] && b[7..] == b[7..8] + b[8..];
    LtConcat(a[..4], a[4..], b[..4], b[4..]);
    LtConcat(a[4..5], a[5..], b[4..5], b[5..]);
    LtConcat(a[5..7], a[7..], b[5..7], b[7..]);
    LtConcat(a[7..8], a[8..], b[7..8], b[8..]);
    LtIrreflexive("-");
  }

  /** A key `y * 10000 + m * 100 + d` with two-digit `m` and `d` orders
      year first, then month, then day. */
  lemma KeyOrder(y1: nat, m1: nat, d1: nat, y2: nat, m2: nat, d2: nat)
    requires m1 < 100 && d1 < 100 && m2 < 100 && d2 < 100
    ensures y1 * 10000 + m1 * 100 + d1 < y2 * 10000 + m2 * 100 + d2 <==>
              y1 < y2 || (y1 == y2 && (m1 < m2 || (m1 == m2 && d1 < d2)))
  {
  }

  /** The string order of ISO dates is the chronological order of the days
      they name, so sorting them as strings is sorting them by time. */
  lemma IsoDateOrder(a: string, b: string)
    requires IsIsoDate(a) && IsIsoDate(b)
    ensures Lt(a, b) <==> DayKey(a) < DayKey(b)
  {
    IsoDateFields(a, b);
    DigitsLtIff(a[..4], b[..4]);
    DigitsLtIff(a[5..7], b[5..7]);
    DigitsLtIff(a[8..], b[8..]);
    DigitsEqIff(a[..4], b[..4]);
    DigitsEqIff(a[5..7], b[5..7]);
    assert Pow10(2) == 100;
    NumberBound(a[5..7]);
    NumberBound(b[5..7]);
    NumberBound(a[8..]);
    NumberBound(b[8..]);
    KeyOrder(Year(a), Month(a), Day(a), Year(b), Month(b), Day(b));
  }
}
