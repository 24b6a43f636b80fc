/**
 * Proleptic-Gregorian calendar dates, the part of JavaScript's `Date` the
 * return-date rule relies on: rolling a date forward or back by whole days
 * (`setDate(getDate() + n)`), the day of the week (`getDay`), and the
 * `YYYY-MM-DD` text form the service parses and produces.
 */
module Calendar {
  import opened Wrappers
  import Text

  datatype Date = Date(year: int, month: int, day: int)

  predicate IsLeapYear(y: int)
  {
    (y % 4 == 0 && y % 100 != 0) || y % 400 == 0
  }

  function DaysInMonth(y: int, m: int): (n: int)
    requires 1 <= m <= 12
    ensures 28 <= n <= 31
    ensures m == 2 ==> n == if IsLeapYear(y) then 29 else 28
  {
    if m == 2 then (if IsLeapYear(y) then 29 else 28)
    else if m == 4 || m == 6 || m == 9 || m == 11 then 30
    else 31
  }

  /** A date that exists on the calendar. */
  predicate Valid(d: Date)
  {
    1 <= d.month <= 12 && 1 <= d.day <= DaysInMonth(d.year, d.month)
  }

  /** The year counted from March, so that a leap day ends its year. */
  function MarchYear(d: Date): int
  {
    if d.month <= 2 then d.year - 1 else d.year
  }

  /** The month counted from March (March is 0, February is 11). */
  function MarchMonth(d: Date): int
  {
    if d.month <= 2 then d.month + 9 else d.month - 3
  }

  /** Days from 1 March of year 0 to 1 March of the March-based year `y`. */
  function YearStart(y: int): int
  {
    365 * y + y / 4 - y / 100 + y / 400
  }

  /** Days from 1 March to the first day of the March-based month `mp`. */
  function MonthStart(mp: int): int
  {
    match mp
    case 0 => 0    case 1 => 31   case 2 => 61   case 3 => 92
    case 4 => 122  case 5 => 153  case 6 => 184  case 7 => 214
    case 8 => 245  case 9 => 275  case 10 => 306 case _ => 337
  }

  /** Day number: the count of days from 1970-01-01 (day 0) to `d`. */
  function DayNumber(d: Date): int
  {
    YearStart(MarchYear(d)) + MonthStart(MarchMonth(d)) + d.day - 1 - 719468
  }

  /** Day of the week of a day number, numbered as `getDay` does (0 is Sunday, 6 is Saturday). */
  function WeekdayOf(n: int): (w: int)
    ensures 0 <= w < 7
    ensures n == 0 ==> w == 4
  {
    (n + 4) % 7
  }

  function Weekday(d: Date): (w: int)
    ensures 0 <= w < 7
  {
    WeekdayOf(DayNumber(d))
  }

  /** One March-based year has 365 days, or 366 when the February it ends with has a leap day. */
  lemma YearLength(y: int)
    ensures YearStart(y + 1) - YearStart(y) == if IsLeapYear(y + 1) then 366 else 365
  {
    FloorStep(y, 4);
    FloorStep(y, 100);
    FloorStep(y, 400);
    assert (y + 1) % 100 == 0 ==> (y + 1) % 4 == 0;
    assert (y + 1) % 400 == 0 ==> (y + 1) % 100 == 0;
  }

  lemma FloorStep(y: int, k: int)
    requires k == 4 || k == 100 || k == 400
    ensures (y + 1) / k - y / k == if (y + 1) % k == 0 then 1 else 0
  {
    var q, r := y / k, y % k;
    assert y == q * k + r && 0 <= r < k;
    if r + 1 < k {
      assert y + 1 == q * k + (r + 1);
    } else {
      assert y + 1 == (q + 1) * k;
    }
  }

  /** The day after `d`, rolling over the end of the month and of the year. */
  function NextDay(d: Date): (r: Date)
    requires Valid(d)
    ensures Valid(r)
    ensures DayNumber(r) == DayNumber(d) + 1
  {
    if d.day < DaysInMonth(d.year, d.month) then Date(d.year, d.month, d.day + 1)
    else if d.month < 12 then
      MonthRollover(d); Date(d.year, d.month + 1, 1)
    else Date(d.year + 1, 1, 1)
  }

  /** The first of the next month follows the last day of a month before December. */
  lemma MonthRollover(d: Date)
    requires Valid(d) && d.day == DaysInMonth(d.year, d.month) && d.month < 12
    ensures DayNumber(Date(d.year, d.month + 1, 1)) == DayNumber(d) + 1
  {
    if d.month == 2 {
      YearLength(d.year - 1);
    }
  }

  /** The day before `d`, rolling back over the start of the month and of the year. */
  function PrevDay(d: Date): (r: Date)
    requires Valid(d)
    ensures Valid(r)
    ensures NextDay(r) == d
    ensures DayNumber(r) == DayNumber(d) - 1
  {
    if d.day > 1 then Date(d.year, d.month, d.day - 1)
    else if d.month > 1 then Date(d.year, d.month - 1, DaysInMonth(d.year, d.month - 1))
    else Date(d.year - 1, 12, 31)
  }

  /** The date `n` days after `d` (before it when `n` is negative), as
      `setDate(getDate() + n)` computes it on a date at midnight. */
  function AddDays(d: Date, n: int): (r: Date)
    requires Valid(d)
    ensures Valid(r)
    ensures DayNumber(r) == DayNumber(d) + n
    decreases if n < 0 then -n else n
  {
    if n == 0 then d
    else if n > 0 then AddDays(NextDay(d), n - 1)
    else AddDays(PrevDay(d), n + 1)
  }

  lemma {:induction false} YearStartMonotone(a: int, b: int)
    requires a <= b
    ensures YearStart(a) + 365 * (b - a) <= YearStart(b)
    decreases b - a
  {
    if a < b {
      YearStartMonotone(a, b - 1);
      YearLength(b - 1);
    }
  }

  /** Where a date falls inside its March-based year. */
  function YearOffset(d: Date): int
  {
    MonthStart(MarchMonth(d)) + d.day - 1
  }

  lemma YearOffsetBounds(d: Date)
    requires Valid(d)
    ensures 0 <= YearOffset(d) < YearStart(MarchYear(d) + 1) - YearStart(MarchYear(d))
  {
    YearLength(MarchYear(d));
  }

  /** Two calendar dates with the same day number are the same date, so a day
      number names exactly one date. */
  lemma DayNumberInjective(d1: Date, d2: Date)
    requires Valid(d1) && Valid(d2)
    requires DayNumber(d1) == DayNumber(d2)
    ensures d1 == d2
  {
    SameMarchYear(d1, d2);
    assert YearOffset(d1) == YearOffset(d2);
    assert MarchMonth(d1) == MarchMonth(d2);
  }

  /** Dates with the same day number fall in the same March-based year. */
  lemma SameMarchYear(d1: Date, d2: Date)
    requires Valid(d1) && Valid(d2)
    requires DayNumber(d1) == DayNumber(d2)
    ensures MarchYear(d1) == MarchYear(d2)
  {
    if MarchYear(d1) < MarchYear(d2) {
      EarlierYearEarlierDay(d1, d2);
      assert false;
    } else if MarchYear(d2) < MarchYear(d1) {
      EarlierYearEarlierDay(d2, d1);
      assert false;
    }
  }

  /** Every day of an earlier March-based year comes before every day of a later one. */
  lemma EarlierYearEarlierDay(d1: Date, d2: Date)
    requires Valid(d1) && Valid(d2)
    requires MarchYear(d1) < MarchYear(d2)
    ensures DayNumber(d1) < DayNumber(d2)
  {
    var y1, y2 := MarchYear(d1), MarchYear(d2);
    YearOffsetBounds(d1);
    YearOffsetBounds(d2);
    YearStartMonotone(y1 + 1, y2);
    assert DayNumber(d1) == YearStart(y1) + YearOffset(d1) - 719468;
    assert DayNumber(d2) == YearStart(y2) + YearOffset(d2) - 719468;
    assert YearStart(y1) + YearOffset(d1) < YearStart(y1 + 1) <= YearStart(y2);
  }

  /** `d` is `AddDays(PrevDay(d), 1)` and `AddDays` is exactly "the date with that day number". */
  lemma AddDaysUnique(d: Date, n: int, e: Date)
    requires Valid(d) && Valid(e)
    ensures (AddDays(d, n) == e) == (DayNumber(e) == DayNumber(d) + n)
  {
    if DayNumber(e) == DayNumber(d) + n {
      DayNumberInjective(AddDays(d, n), e);
    }
  }

  // ----- The YYYY-MM-DD text form -----

  function DigitAt(s: string, i: int): int
    requires 0 <= i < |s|
  {
    s[i] as int - '0' as int
  }

  /** The shape `DDDD-DD-DD` with decimal digits D. */
  predicate IsoShape(s: string)
  {
    |s| == 10 && s[4] == '-' && s[7] == '-'
    && forall i | 0 <= i < 10 && i != 4 && i != 7 :: Text.IsDigit(s[i])
  }

  /** Reading `loanDate + 'T00:00:00'` as a date: a four-digit year, a two-digit
      month and a two-digit day that together name a calendar date; anything
      else is an invalid date (`None`). */
  function ParseIsoDate(s: string): (r: Option<Date>)
    ensures r.Some? ==> Valid(r.value) && 0 <= r.value.year <= 9999
    ensures r.Some? ==> IsoShape(s)
  {
    if IsoShape(s) then
      var d := Date(1000 * DigitAt(s, 0) + 100 * DigitAt(s, 1) + 10 * DigitAt(s, 2) + DigitAt(s, 3),
                    10 * DigitAt(s, 5) + DigitAt(s, 6),
                    10 * DigitAt(s, 8) + DigitAt(s, 9));
      if Valid(d) then Some(d) else None
    else None
  }

  /** `String(n).padStart(2, '0')`. */
  function Pad2(n: int): (r: string)
    ensures 0 <= n < 10 ==> r == ['0', Text.DigitChar(n)]
    ensures 10 <= n < 100 ==> r == [Text.DigitChar(n / 10), Text.DigitChar(n % 10)]
  {
    var s := Text.IntToDecimal(n);
    if |s| >= 2 then s else ['0'] + s
  }

  /** `${year}-${month}-${day}` with month and day padded to two digits; the year is not padded. */
  function FormatDate(d: Date): (r: string)
  {
    Text.IntToDecimal(d.year) + "-" + Pad2(d.month) + "-" + Pad2(d.day)
  }

  /** A month or a day of a calendar date is written with two digits that read back as it. */
  lemma Pad2Digits(n: int)
    requires 1 <= n <= 31
    ensures |Pad2(n)| == 2 && Text.IsDigit(Pad2(n)[0]) && Text.IsDigit(Pad2(n)[1])
    ensures 10 * DigitAt(Pad2(n), 0) + DigitAt(Pad2(n), 1) == n
  {
  }

  /** A four-digit year is written with four digits that read back as it. */
  lemma YearDigits(y: int)
    requires 1000 <= y <= 9999
    ensures |Text.IntToDecimal(y)| == 4
    ensures forall i | 0 <= i < 4 :: Text.IsDigit(Text.IntToDecimal(y)[i])
    ensures var t := Text.IntToDecimal(y);
      1000 * DigitAt(t, 0) + 100 * DigitAt(t, 1) + 10 * DigitAt(t, 2) + DigitAt(t, 3) == y
  {
    Text.FourDigits(y);
    var t := Text.IntToDecimal(y);
    var a, b, c, e := y / 1000, y / 100 % 10, y / 10 % 10, y % 10;
    assert DigitAt(t, 0) == a && DigitAt(t, 1) == b && DigitAt(t, 2) == c && DigitAt(t, 3) == e;
    Recompose(y);
  }

  /** A number below 10000 is the sum of its four decimal digits times their place values. */
  lemma Recompose(y: int)
    requires 0 <= y
    ensures 1000 * (y / 1000) + 100 * (y / 100 % 10) + 10 * (y / 10 % 10) + y % 10 == y
  {
    var h := y / 100;
    var t := y / 10;
    assert y == 10 * t + y % 10;
    assert t == 10 * h + t % 10;
    assert h / 10 == y / 1000;
    assert h == 10 * (y / 1000) + h % 10;
  }

  /** The pieces of the formatted text sit at the positions the parser reads. */
  lemma FormatLayout(ys: string, ms: string, ds: string)
    requires |ys| == 4 && |ms| == 2 && |ds| == 2
    ensures var s := ys + "-" + ms + "-" + ds;
      |s| == 10 && s[..4] == ys && s[4] == '-' && s[5] == ms[0] && s[6] == ms[1]
      && s[7] == '-' && s[8] == ds[0] && s[9] == ds[1]
  {
    var s := ys + "-" + ms + "-" + ds;
    assert s[..4] == ys;
  }

  /** Formatting a calendar date and reading it back gives the same date exactly
      when its year has four digits; any other year does not read back at all. */
  lemma ParseFormat(d: Date)
    requires Valid(d)
    ensures ParseIsoDate(FormatDate(d)) == if 1000 <= d.year <= 9999 then Some(d) else None
  {
    if 1000 <= d.year <= 9999 {
      ParseFormatFourDigits(d);
    } else {
      ParseFormatOtherYear(d);
    }
  }

  lemma ParseFormatFourDigits(d: Date)
    requires Valid(d) && 1000 <= d.year <= 9999
    ensures ParseIsoDate(FormatDate(d)) == Some(d)
  {
    var s := FormatDate(d);
    var ys, ms, ds := Text.IntToDecimal(d.year), Pad2(d.month), Pad2(d.day);
    assert s == ys + "-" + ms + "-" + ds;
    Pad2Digits(d.month);
    Pad2Digits(d.day);
    YearDigits(d.year);
    FormatLayout(ys, ms, ds);
    assert forall i | 0 <= i < 4 :: s[i] == ys[i];
    assert IsoShape(s);
    assert DigitAt(s, 0) == DigitAt(ys, 0) && DigitAt(s, 1) == DigitAt(ys, 1);
    assert DigitAt(s, 2) == DigitAt(ys, 2) && DigitAt(s, 3) == DigitAt(ys, 3);
    assert DigitAt(s, 5) == DigitAt(ms, 0) && DigitAt(s, 6) == DigitAt(ms, 1);
    assert DigitAt(s, 8) == DigitAt(ds, 0) && DigitAt(s, 9) == DigitAt(ds, 1);
  }

  /** A year outside 1000..9999 is not written with four digits, so the text is
      not ten characters long. */
  lemma ParseFormatOtherYear(d: Date)
    requires Valid(d) && !(1000 <= d.year <= 9999)
    ensures ParseIsoDate(FormatDate(d)) == None
  {
    var s := FormatDate(d);
    var ys := Text.IntToDecimal(d.year);
    assert |s| == |ys| + 6 && s[0] == ys[0];
    if d.year >= 0 {
      Text.FourDigits(d.year);
      assert |ys| != 4;
    } else {
      Text.FourDigits(-d.year);
      assert ys[0] == '-';
      assert !Text.IsDigit(s[0]);
    }
  }

  lemma DivMod(x: int, k: int, q: int, r: int)
    requires k == 10 || k == 100 || k == 1000
    requires x == k * q + r && 0 <= r < k
    ensures x / k == q && x % k == r
  {
  }

  /** Two digits that read as a month or a day are how `Pad2` writes it. */
  lemma Pad2OfDigits(s: string, i: int)
    requires 0 <= i && i + 2 <= |s| && Text.IsDigit(s[i]) && Text.IsDigit(s[i + 1])
    requires 1 <= 10 * DigitAt(s, i) + DigitAt(s, i + 1)
    ensures Pad2(10 * DigitAt(s, i) + DigitAt(s, i + 1)) == s[i..i + 2]
  {
    var a, b := DigitAt(s, i), DigitAt(s, i + 1);
    var n := 10 * a + b;
    DivMod(n, 10, a, b);
    assert Text.DigitChar(a) == s[i] && Text.DigitChar(b) == s[i + 1];
    if n < 10 {
      assert Pad2(n) == ['0', Text.DigitChar(b)];
    } else {
      assert Pad2(n) == [Text.DigitChar(a), Text.DigitChar(b)];
    }
    assert s[i..i + 2] == [s[i], s[i + 1]];
  }

  /** Four digits with no leading zero are how `String(year)` writes the year they read as. */
  lemma YearOfDigits(s: string)
    requires 4 <= |s| && forall i | 0 <= i < 4 :: Text.IsDigit(s[i])
    requires s[0] != '0'
    ensures var y := 1000 * DigitAt(s, 0) + 100 * DigitAt(s, 1) + 10 * DigitAt(s, 2) + DigitAt(s, 3);
      1000 <= y <= 9999 && Text.IntToDecimal(y) == s[..4]
  {
    var a, b, c, e := DigitAt(s, 0), DigitAt(s, 1), DigitAt(s, 2), DigitAt(s, 3);
    var y := 1000 * a + 100 * b + 10 * c + e;
    DigitsOfNumber(a, b, c, e);
    Text.FourDigits(y);
    assert Text.DigitChar(a) == s[0] && Text.DigitChar(b) == s[1];
    assert Text.DigitChar(c) == s[2] && Text.DigitChar(e) == s[3];
    assert Text.IntToDecimal(y) == [s[0], s[1], s[2], s[3]];
  }

  /** The decimal digits of `1000a + 100b + 10c + e` are `a`, `b`, `c` and `e`. */
  lemma DigitsOfNumber(a: int, b: int, c: int, e: int)
    requires 1 <= a < 10 && 0 <= b < 10 && 0 <= c < 10 && 0 <= e < 10
    ensures var y := 1000 * a + 100 * b + 10 * c + e;
      1000 <= y <= 9999 && y / 1000 == a && y / 100 % 10 == b && y / 10 % 10 == c && y % 10 == e
  {
    var y := 1000 * a + 100 * b + 10 * c + e;
    DivMod(y, 1000, a, 100 * b + 10 * c + e);
    DivMod(y, 100, 10 * a + b, 10 * c + e);
    DivMod(10 * a + b, 10, a, b);
    DivMod(y, 10, 100 * a + 10 * b + c, e);
    DivMod(100 * a + 10 * b + c, 10, 10 * a + b, c);
  }

  /** The date that text reads as is made of its digits. */
  lemma ParsedFields(s: string)
    requires ParseIsoDate(s).Some?
    ensures IsoShape(s)
    ensures ParseIsoDate(s).value == Date(1000 * DigitAt(s, 0) + 100 * DigitAt(s, 1) + 10 * DigitAt(s, 2) + DigitAt(s, 3),
                                          10 * DigitAt(s, 5) + DigitAt(s, 6),
                                          10 * DigitAt(s, 8) + DigitAt(s, 9))
  {
  }

  /** Text that reads as a date is that date's formatted form, unless its year
      has a leading zero (which `String(year)` does not write). */
  lemma FormatParse(s: string)
    requires ParseIsoDate(s).Some?
    ensures (FormatDate(ParseIsoDate(s).value) == s) == (s[0] != '0')
  {
    if s[0] != '0' {
      FormatOfDigits(s);
    } else {
      FormatOfLeadingZero(s);
    }
  }

  lemma FormatOfDigits(s: string)
    requires ParseIsoDate(s).Some? && s[0] != '0'
    ensures FormatDate(ParseIsoDate(s).value) == s
  {
    var d := ParseIsoDate(s).value;
    ParsedFields(s);
    YearOfDigits(s);
    Pad2OfDigits(s, 5);
    Pad2OfDigits(s, 8);
    assert FormatDate(d) == s[..4] + "-" + s[5..7] + "-" + s[8..10];
    IsoPieces(s);
  }

  /** Text of the ISO shape is its three digit groups joined by dashes. */
  lemma IsoPieces(s: string)
    requires IsoShape(s)
    ensures s == s[..4] + "-" + s[5..7] + "-" + s[8..10]
  {
    var t := s[..4] + "-" + s[5..7] + "-" + s[8..10];
    assert forall i | 0 <= i < 10 :: t[i] == s[i];
  }

  lemma FormatOfLeadingZero(s: string)
    requires ParseIsoDate(s).Some? && s[0] == '0'
    ensures FormatDate(ParseIsoDate(s).value) != s
  {
    var d := ParseIsoDate(s).value;
    ParsedFields(s);
    assert 0 <= d.year <= 999;
    Text.FourDigits(d.year);
    assert |FormatDate(d)| == |Text.IntToDecimal(d.year)| + 6;
  }
}
