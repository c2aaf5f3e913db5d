/** Timestamps of the task store.

    The store writes both date columns as text produced by
    strftime("%Y-%m-%d %H:%M:%S") and orders the listing with
    `ORDER BY fecha_creacion DESC`, which on a TEXT column compares the text
    itself. This module defines that text order and proves that on text of
    the timestamp format it is the chronological order of the fields. */
module Fecha {

  // ---------------------------------------------------------------------------
  // The text order of a TEXT column (SQLite's BINARY collation)
  // ---------------------------------------------------------------------------

  /** `a <= b` as SQLite compares two TEXT values: the first differing
      character decides, and a proper prefix sorts first. */
  predicate LexLe(a: string, b: string)
    ensures |a| <= |b| && a == b[..|a|] ==> LexLe(a, b)
    ensures LexLe(a, b) && |a| > 0 ==> |b| > 0 && a[0] <= b[0]
  {
    |a| == 0 || (|b| > 0 && (a[0] < b[0] || (a[0] == b[0] && LexLe(a[1..], b[1..]))))
  }

  /** Every text sorts no later than itself. */
  lemma {:induction false} LexLeReflexive(a: string)
    ensures LexLe(a, a)
  {
    if |a| > 0 {
      LexLeReflexive(a[1..]);
    }
  }

  lemma {:induction false} LexLeAntisymmetric(a: string, b: string)
    requires LexLe(a, b) && LexLe(b, a)
    ensures a == b
  {
    if |a| > 0 {
      LexLeAntisymmetric(a[1..], b[1..]);
      assert a == [a[0]] + a[1..] && b == [b[0]] + b[1..];
    }
  }

  lemma {:induction false} LexLeTransitive(a: string, b: string, c: string)
    requires LexLe(a, b) && LexLe(b, c)
    ensures LexLe(a, c)
  {
    if |a| > 0 && a[0] == b[0] && b[0] == c[0] {
      LexLeTransitive(a[1..], b[1..], c[1..]);
    }
  }

  lemma {:induction false} LexLeTotal(a: string, b: string)
    ensures LexLe(a, b) || LexLe(b, a)
  {
    if |a| > 0 && |b| > 0 && a[0] == b[0] {
      LexLeTotal(a[1..], b[1..]);
    }
  }

  /** Comparing two texts whose first parts have the same length: the first
      parts decide unless they are equal, and then the rest decides. */
  lemma {:induction false} LexLeAppend(x1: string, x2: string, y1: string, y2: string)
    requires |x1| == |y1|
    ensures LexLe(x1 + x2, y1 + y2) <==>
            (x1 != y1 && LexLe(x1, y1)) || (x1 == y1 && LexLe(x2, y2))
  {
    if |x1| == 0 {
      assert x1 + x2 == x2 && y1 + y2 == y2;
    } else {
      assert (x1 + x2)[0] == x1[0] && (x1 + x2)[1..] == x1[1..] + x2;
      assert (y1 + y2)[0] == y1[0] && (y1 + y2)[1..] == y1[1..] + y2;
      assert x1 == [x1[0]] + x1[1..] && y1 == [y1[0]] + y1[1..];
      LexLeAppend(x1[1..], x2, y1[1..], y2);
    }
  }

  // ---------------------------------------------------------------------------
  // Digits
  // ---------------------------------------------------------------------------

  predicate IsDigit(c: char)
  {
    '0' <= c <= '9'
  }

  function DigitValue(c: char): (d: nat)
    requires IsDigit(c)
    ensures d <= 9
  {
    c as int - '0' as int
  }

  function DigitCount(s: string): nat
  {
    if s == [] then 0 else (if IsDigit(s[0]) then 1 else 0) + DigitCount(s[1..])
  }

  function Pow10(n: nat): (p: nat)
    ensures p >= 1
  {
    if n == 0 then 1 else 10 * Pow10(n - 1)
  }

  lemma MulLe(a: int, b: int, p: int)
    requires a <= b && 0 <= p
    ensures a * p <= b * p
  {
    assert b * p - a * p == (b - a) * p;
  }

  /** The number the digits of `s` spell, read left to right; any other
      character is skipped. It has at most DigitCount(s) decimal places. */
  function DigitsValue(s: string): (v: nat)
    ensures v < Pow10(DigitCount(s))
  {
    if s == [] then 0
    else if IsDigit(s[0]) then
      var p := Pow10(DigitCount(s[1..]));
      MulLe(DigitValue(s[0]), 9, p);
      DigitValue(s[0]) * p + DigitsValue(s[1..])
    else DigitsValue(s[1..])
  }

  /** `x` and `y` have digits at the same places and agree on every other
      character. */
  predicate SameShape(x: string, y: string)
  {
    && |x| == |y|
    && forall i :: 0 <= i < |x| ==>
         (IsDigit(x[i]) <==> IsDigit(y[i])) && (!IsDigit(x[i]) ==> x[i] == y[i])
  }

  lemma LeadingDigitArith(dx: int, dy: int, p: int, vx: int, vy: int)
    requires 0 <= dx < dy && 0 <= vx < p && 0 <= vy
    ensures dx * p + vx < dy * p + vy
  {
    MulLe(dx + 1, dy, p);
    assert (dx + 1) * p == dx * p + p;
  }

  /** The first digit of two equally long digit runs decides between the
      numbers they spell unless it is the same in both. */
  lemma {:induction false} LeadingDigit(x: string, y: string)
    requires |x| > 0 && |y| > 0 && IsDigit(x[0]) && IsDigit(y[0])
    requires DigitCount(x[1..]) == DigitCount(y[1..])
    ensures x[0] < y[0] ==> DigitsValue(x) < DigitsValue(y)
    ensures y[0] < x[0] ==> DigitsValue(y) < DigitsValue(x)
    ensures x[0] == y[0] ==> DigitsValue(x) - DigitsValue(y) == DigitsValue(x[1..]) - DigitsValue(y[1..])
  {
    var p := Pow10(DigitCount(x[1..]));
    var dx, dy := DigitValue(x[0]), DigitValue(y[0]);
    var vx, vy := DigitsValue(x[1..]), DigitsValue(y[1..]);
    assert DigitsValue(x) == dx * p + vx;
    assert DigitsValue(y) == dy * p + vy;
    if dx < dy {
      LeadingDigitArith(dx, dy, p, vx, vy);
    } else if dy < dx {
      LeadingDigitArith(dy, dx, p, vy, vx);
    }
  }

  lemma {:induction false} SameShapeTail(x: string, y: string)
    requires SameShape(x, y) && |x| > 0
    ensures SameShape(x[1..], y[1..])
  {
    forall i | 0 <= i < |x| - 1
      ensures (IsDigit(x[1..][i]) <==> IsDigit(y[1..][i]))
      ensures !IsDigit(x[1..][i]) ==> x[1..][i] == y[1..][i]
    {
      assert x[1..][i] == x[i + 1] && y[1..][i] == y[i + 1];
    }
  }

  /** On texts of the same shape the text order is the order of the numbers
      their digits spell. */
  lemma {:induction false} DigitOrder(x: string, y: string)
    requires SameShape(x, y)
    ensures DigitCount(x) == DigitCount(y)
    ensures LexLe(x, y) <==> DigitsValue(x) <= DigitsValue(y)
  {
    if |x| > 0 {
      assert x[0] == x[..][0] && y[0] == y[..][0];
      SameShapeTail(x, y);
      DigitOrder(x[1..], y[1..]);
      if IsDigit(x[0]) {
        LeadingDigit(x, y);
      }
    }
  }

  /** Two digit strings of the same length are equal exactly when they spell
      the same number, and otherwise the text order is the strict numeric one. */
  lemma {:induction false} DigitBlockOrder(x: string, y: string)
    requires |x| == |y| && AllDigits(x) && AllDigits(y)
    ensures (x != y && LexLe(x, y)) <==> DigitsValue(x) < DigitsValue(y)
    ensures x == y <==> DigitsValue(x) == DigitsValue(y)
  {
    DigitOrder(x, y);
    DigitOrder(y, x);
    if DigitsValue(x) == DigitsValue(y) {
      LexLeAntisymmetric(x, y);
    }
  }

  // ---------------------------------------------------------------------------
  // The timestamp format
  // ---------------------------------------------------------------------------

  predicate AllDigits(s: string)
  {
    forall i :: 0 <= i < |s| ==> IsDigit(s[i])
  }

  /** Text as strftime("%Y-%m-%d %H:%M:%S") writes it for a four-digit year. */
  predicate IsTimestamp(s: string)
  {
    && |s| == 19
    && AllDigits(s[0..4]) && s[4] == '-' && AllDigits(s[5..7]) && s[7] == '-'
    && AllDigits(s[8..10]) && s[10] == ' ' && AllDigits(s[11..13]) && s[13] == ':'
    && AllDigits(s[14..16]) && s[16] == ':' && AllDigits(s[17..19])
  }

  datatype DateTime = DateTime(year: nat, month: nat, day: nat, hour: nat, minute: nat, second: nat)

  /** The six fields a timestamp spells. */
  function Fields(s: string): DateTime
    requires IsTimestamp(s)
  {
    DateTime(DigitsValue(s[0..4]), DigitsValue(s[5..7]), DigitsValue(s[8..10]),
             DigitsValue(s[11..13]), DigitsValue(s[14..16]), DigitsValue(s[17..19]))
  }

  /** `a` is not later than `b`: the fields compared from the year down to
      the second. */
  predicate NotLater(a: DateTime, b: DateTime)
  {
    if a.year != b.year then a.year < b.year
    else if a.month != b.month then a.month < b.month
    else if a.day != b.day then a.day < b.day
    else if a.hour != b.hour then a.hour < b.hour
    else if a.minute != b.minute then a.minute < b.minute
    else a.second <= b.second
  }

  /** A block of `w` digits starting at `i` in both texts comes first in the
      comparison of what follows `i`. */
  lemma {:induction false} FieldThenRest(a: string, b: string, i: nat, w: nat)
    requires i + w <= |a| == |b|
    requires AllDigits(a[i..i + w]) && AllDigits(b[i..i + w])
    ensures LexLe(a[i..], b[i..]) <==>
            || DigitsValue(a[i..i + w]) < DigitsValue(b[i..i + w])
            || (DigitsValue(a[i..i + w]) == DigitsValue(b[i..i + w]) && LexLe(a[i + w..], b[i + w..]))
  {
    assert a[i..] == a[i..i + w] + a[i + w..];
    assert b[i..] == b[i..i + w] + b[i + w..];
    LexLeAppend(a[i..i + w], a[i + w..], b[i..i + w], b[i + w..]);
    DigitBlockOrder(a[i..i + w], b[i..i + w]);
  }

  /** A separator both texts share at `i` does not affect the comparison. */
  lemma {:induction false} SeparatorThenRest(a: string, b: string, i: nat)
    requires i < |a| == |b| && a[i] == b[i]
    ensures LexLe(a[i..], b[i..]) <==> LexLe(a[i + 1..], b[i + 1..])
  {
    assert a[i..][1..] == a[i + 1..] && b[i..][1..] == b[i + 1..];
  }

  /** A field of `w` digits at `i` followed by a shared separator. */
  lemma {:induction false} FieldSeparatorThenRest(a: string, b: string, i: nat, w: nat)
    requires i + w < |a| == |b|
    requires AllDigits(a[i..i + w]) && AllDigits(b[i..i + w]) && a[i + w] == b[i + w]
    ensures LexLe(a[i..], b[i..]) <==>
            || DigitsValue(a[i..i + w]) < DigitsValue(b[i..i + w])
            || (DigitsValue(a[i..i + w]) == DigitsValue(b[i..i + w]) && LexLe(a[i + w + 1..], b[i + w + 1..]))
  {
    FieldThenRest(a, b, i, w);
    SeparatorThenRest(a, b, i + w);
  }

  /** NotLater unfolded as the chain of field comparisons the text order
      performs. */
  lemma NotLaterChain(x: DateTime, y: DateTime, r0: bool, r1: bool, r2: bool, r3: bool, r4: bool)
    requires r4 <==> x.minute < y.minute || (x.minute == y.minute && x.second <= y.second)
    requires r3 <==> x.hour < y.hour || (x.hour == y.hour && r4)
    requires r2 <==> x.day < y.day || (x.day == y.day && r3)
    requires r1 <==> x.month < y.month || (x.month == y.month && r2)
    requires r0 <==> x.year < y.year || (x.year == y.year && r1)
    ensures r0 <==> NotLater(x, y)
  {
  }

  // The comparison of two timestamps, one field at a time.

  lemma YearStep(a: string, b: string)
    requires IsTimestamp(a) && IsTimestamp(b)
    ensures LexLe(a, b) <==> (Fields(a).year < Fields(b).year ||
              (Fields(a).year == Fields(b).year && LexLe(a[5..], b[5..])))
  {
    FieldSeparatorThenRest(a, b, 0, 4);
    assert a[0..] == a && b[0..] == b;
  }

  lemma MonthStep(a: string, b: string)
    requires IsTimestamp(a) && IsTimestamp(b)
    ensures LexLe(a[5..], b[5..]) <==> (Fields(a).month < Fields(b).month ||
              (Fields(a).month == Fields(b).month && LexLe(a[8..], b[8..])))
  {
    FieldSeparatorThenRest(a, b, 5, 2);
  }

  lemma DayStep(a: string, b: string)
    requires IsTimestamp(a) && IsTimestamp(b)
    ensures LexLe(a[8..], b[8..]) <==> (Fields(a).day < Fields(b).day ||
              (Fields(a).day == Fields(b).day && LexLe(a[11..], b[11..])))
  {
    FieldSeparatorThenRest(a, b, 8, 2);
  }

  lemma HourStep(a: string, b: string)
    requires IsTimestamp(a) && IsTimestamp(b)
    ensures LexLe(a[11..], b[11..]) <==> (Fields(a).hour < Fields(b).hour ||
              (Fields(a).hour == Fields(b).hour && LexLe(a[14..], b[14..])))
  {
    FieldSeparatorThenRest(a, b, 11, 2);
  }

  lemma MinuteSecondStep(a: string, b: string)
    requires IsTimestamp(a) && IsTimestamp(b)
    ensures LexLe(a[14..], b[14..]) <==> (Fields(a).minute < Fields(b).minute ||
              (Fields(a).minute == Fields(b).minute && Fields(a).second <= Fields(b).second))
  {
    FieldSeparatorThenRest(a, b, 14, 2);
    FieldThenRest(a, b, 17, 2);
    assert |a[19..]| == 0;
  }

  /** The store's text order on timestamps is chronological order: for two
      timestamps, `a <= b` as text exactly when `a` is not later than `b`. */
  lemma TimestampOrder(a: string, b: string)
    requires IsTimestamp(a) && IsTimestamp(b)
    ensures LexLe(a, b) <==> NotLater(Fields(a), Fields(b))
  {
    YearStep(a, b);
    MonthStep(a, b);
    DayStep(a, b);
    HourStep(a, b);
    MinuteSecondStep(a, b);
    NotLaterChain(Fields(a), Fields(b), LexLe(a, b), LexLe(a[5..], b[5..]),
                  LexLe(a[8..], b[8..]), LexLe(a[11..], b[11..]), LexLe(a[14..], b[14..]));
  }
}
