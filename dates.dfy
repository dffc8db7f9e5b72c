/**
 * Calendar dates as Python's datetime.date represents them: the proleptic Gregorian calendar
 * over years 1 to 9999, with toordinal() numbering 0001-01-01 as day 1. Due dates are kept as
 * ordinals (for arithmetic and ordering); the civil form and its YYYY-MM-DD text exist for
 * writing a date to a store's file with str() and reading it back with strptime('%Y-%m-%d').
 */
module Dates {
  import opened Errors
  import opened Digits

  const MaxYear := 9999
  /** date(9999, 12, 31).toordinal() */
  const MaxOrdinal := 3652059

  /** A date, as its ordinal day number. */
  type Date = n: int | 1 <= n <= MaxOrdinal witness 1

  datatype Civil = Civil(year: int, month: int, day: int)

  predicate IsLeap(y: int) { y % 4 == 0 && (y % 100 != 0 || y % 400 == 0) }

  function DaysInYear(y: int): int { if IsLeap(y) then 366 else 365 }

  function DaysInMonth(y: int, m: int): int
    requires 1 <= m <= 12
  {
    if m == 2 then (if IsLeap(y) then 29 else 28)
    else if m == 4 || m == 6 || m == 9 || m == 11 then 30
    else 31
  }

  predicate ValidCivil(c: Civil) {
    1 <= c.year <= MaxYear && 1 <= c.month <= 12 && 1 <= c.day <= DaysInMonth(c.year, c.month)
  }

  /** Days in the years before year y (Python's _days_before_year). */
  function DaysBeforeYear(y: int): int
    requires y >= 1
  {
    var k := y - 1;
    365 * k + k / 4 - k / 100 + k / 400
  }

  /** Days in the months of year y before month m (Python's _days_before_month). */
  function DaysBeforeMonth(y: int, m: int): int
    requires 1 <= m <= 12
  {
    var table := [0, 31, 59, 90, 120, 151, 181, 212, 243, 273, 304, 334];
    table[m - 1] + (if m > 2 && IsLeap(y) then 1 else 0)
  }

  function ToOrdinal(c: Civil): int
    requires 1 <= c.year && 1 <= c.month <= 12
  {
    DaysBeforeYear(c.year) + DaysBeforeMonth(c.year, c.month) + c.day
  }

  /** How floor division by a positive literal d steps from k to k + 1. */
  lemma DivStep(k: int, d: int)
    requires k >= 0 && (d == 4 || d == 100 || d == 400)
    ensures (k + 1) / d == k / d + (if (k + 1) % d == 0 then 1 else 0)
  {
    var q, r := k / d, k % d;
    assert k == q * d + r && 0 <= r < d;
    if r + 1 == d {
      assert k + 1 == (q + 1) * d;
    } else {
      assert k + 1 == q * d + (r + 1);
    }
  }

  /** A multiple of 400 is one of 100, and a multiple of 100 is one of 4. */
  lemma Multiples(y: int)
    ensures y % 400 == 0 ==> y % 100 == 0
    ensures y % 100 == 0 ==> y % 4 == 0
  {
    assert y == 400 * (y / 400) + y % 400;
    assert y == 100 * (y / 100) + y % 100;
    assert y == 4 * (y / 4) + y % 4;
  }

  lemma DaysBeforeNextYear(y: int)
    requires y >= 1
    ensures DaysBeforeYear(y + 1) == DaysBeforeYear(y) + DaysInYear(y)
  {
    var k := y - 1;
    DivStep(k, 4);
    DivStep(k, 100);
    DivStep(k, 400);
    Multiples(y);
  }

  lemma {:induction false} DaysBeforeYearMonotone(a: int, b: int)
    requires 1 <= a <= b
    ensures DaysBeforeYear(a) + (b - a) * 365 <= DaysBeforeYear(b)
    decreases b - a
  {
    if a < b {
      DaysBeforeYearMonotone(a, b - 1);
      DaysBeforeNextYear(b - 1);
    }
  }

  lemma DaysBeforeNextMonth(y: int, m: int)
    requires 1 <= m <= 12
    ensures DaysBeforeMonth(y, m) + DaysInMonth(y, m)
            == if m == 12 then DaysInYear(y) else DaysBeforeMonth(y, m + 1)
  {
  }

  lemma {:induction false} DaysBeforeMonthMonotone(y: int, a: int, b: int)
    requires 1 <= a <= b <= 12
    ensures DaysBeforeMonth(y, a) + (b - a) * 28 <= DaysBeforeMonth(y, b)
    decreases b - a
  {
    if a < b {
      DaysBeforeMonthMonotone(y, a, b - 1);
      DaysBeforeNextMonth(y, b - 1);
    }
  }

  /** The year, found by counting up from y, in which ordinal n falls. */
  function YearOf(n: int, y: int): (r: int)
    requires 1 <= y <= MaxYear && DaysBeforeYear(y) < n <= MaxOrdinal
    ensures y <= r <= MaxYear && DaysBeforeYear(r) < n <= DaysBeforeYear(r) + DaysInYear(r)
    decreases MaxYear - y
  {
    DaysBeforeNextYear(y);
    if n <= DaysBeforeYear(y + 1) then y else YearOf(n, y + 1)
  }

  /** The (month, day) of day-of-year doy in year y, found by counting up from month m. */
  function MonthOf(y: int, doy: int, m: int): (r: (int, int))
    requires 1 <= m <= 12 && DaysBeforeMonth(y, m) < doy <= DaysInYear(y)
    ensures m <= r.0 <= 12 && 1 <= r.1 <= DaysInMonth(y, r.0)
    ensures DaysBeforeMonth(y, r.0) + r.1 == doy
    decreases 12 - m
  {
    DaysBeforeNextMonth(y, m);
    if doy <= DaysBeforeMonth(y, m) + DaysInMonth(y, m) then (m, doy - DaysBeforeMonth(y, m))
    else MonthOf(y, doy, m + 1)
  }

  /** The civil date of day doy (counting from 1) of year y. */
  function InYear(y: int, doy: int): (c: Civil)
    requires 1 <= y <= MaxYear && 1 <= doy <= DaysInYear(y)
    ensures ValidCivil(c) && c.year == y && DaysBeforeMonth(y, c.month) + c.day == doy
  {
    var md := MonthOf(y, doy, 1);
    Civil(y, md.0, md.1)
  }

  /** date.fromordinal(n): the civil date of ordinal n. */
  function FromOrdinal(n: Date): (c: Civil)
    ensures ValidCivil(c)
  {
    var y := YearOf(n, 1);
    InYear(y, n - DaysBeforeYear(y))
  }

  /** fromordinal undoes toordinal: the civil date of n has ordinal n. */
  lemma ToFromOrdinal(n: Date)
    ensures ToOrdinal(FromOrdinal(n)) == n
  {
    var y := YearOf(n, 1);
    assert FromOrdinal(n) == InYear(y, n - DaysBeforeYear(y));
  }

  lemma ToOrdinalInRange(c: Civil)
    requires ValidCivil(c)
    ensures DaysBeforeYear(c.year) < ToOrdinal(c) <= DaysBeforeYear(c.year + 1)
    ensures 1 <= ToOrdinal(c) <= MaxOrdinal
  {
    var n := ToOrdinal(c);
    assert DaysBeforeYear(c.year) < n <= DaysBeforeYear(c.year + 1) by {
      MonthWithinYear(c.year, c.month);
      DaysBeforeNextYear(c.year);
    }
    assert 1 <= n by {
      DaysBeforeYearMonotone(1, c.year);
    }
    assert DaysBeforeYear(c.year + 1) <= MaxOrdinal by {
      DaysBeforeYearMonotone(c.year + 1, MaxYear + 1);
    }
  }

  /** A month starts and ends inside its year. */
  lemma MonthWithinYear(y: int, m: int)
    requires 1 <= m <= 12
    ensures 0 <= DaysBeforeMonth(y, m) && DaysBeforeMonth(y, m) + DaysInMonth(y, m) <= DaysInYear(y)
  {
  }

  lemma {:induction false} YearOfUnique(n: int, y0: int, y: int)
    requires 1 <= y0 <= y <= MaxYear
    requires DaysBeforeYear(y) < n <= DaysBeforeYear(y + 1) && n <= MaxOrdinal
    ensures DaysBeforeYear(y0) < n && YearOf(n, y0) == y
    decreases y - y0
  {
    DaysBeforeYearMonotone(y0, y);
    if y0 < y {
      DaysBeforeYearMonotone(y0 + 1, y);
      YearOfUnique(n, y0 + 1, y);
    }
  }

  lemma {:induction false} MonthOfUnique(y: int, doy: int, m0: int, m: int)
    requires 1 <= m0 <= m <= 12
    requires DaysBeforeMonth(y, m) < doy <= DaysBeforeMonth(y, m) + DaysInMonth(y, m)
    ensures DaysBeforeMonth(y, m0) < doy <= DaysInYear(y)
    ensures MonthOf(y, doy, m0) == (m, doy - DaysBeforeMonth(y, m))
    decreases m - m0
  {
    DaysBeforeMonthMonotone(y, m0, m);
    DaysBeforeNextMonth(y, m);
    DaysBeforeMonthMonotone(y, m, 12);
    DaysBeforeNextMonth(y, 12);
    DaysBeforeNextMonth(y, m0);
    if m0 < m {
      DaysBeforeMonthMonotone(y, m0 + 1, m);
      MonthOfUnique(y, doy, m0 + 1, m);
    }
  }

  /** A valid date is the one its day of the year names. */
  lemma InYearOf(c: Civil)
    requires ValidCivil(c)
    ensures 1 <= DaysBeforeMonth(c.year, c.month) + c.day <= DaysInYear(c.year)
    ensures InYear(c.year, DaysBeforeMonth(c.year, c.month) + c.day) == c
  {
    var doy := DaysBeforeMonth(c.year, c.month) + c.day;
    MonthWithinYear(c.year, c.month);
    MonthOfUnique(c.year, doy, 1, c.month);
  }

  /** Ordinals and valid civil dates correspond one to one. */
  lemma FromToOrdinal(c: Civil)
    requires ValidCivil(c)
    ensures 1 <= ToOrdinal(c) <= MaxOrdinal && FromOrdinal(ToOrdinal(c)) == c
  {
    ToOrdinalInRange(c);
    var n := ToOrdinal(c);
    assert YearOf(n, 1) == c.year by {
      YearOfUnique(n, 1, c.year);
    }
    InYearOf(c);
    assert n - DaysBeforeYear(c.year) == DaysBeforeMonth(c.year, c.month) + c.day;
  }

  /** str(date): the ISO 8601 calendar date YYYY-MM-DD with zero-padded fields. */
  function FormatCivil(c: Civil): (s: string)
    requires ValidCivil(c)
  {
    Pad(c.year, 4) + "-" + Pad(c.month, 2) + "-" + Pad(c.day, 2)
  }

  function Format(d: Date): (s: string)
    ensures |s| == 10 && s[4] == '-' && s[7] == '-'
  {
    FormatCivil(FromOrdinal(d))
  }

  /** Four digits, a dash, two digits, a dash and two digits: the text %Y-%m-%d accepts here. */
  predicate DateShaped(s: string) {
    |s| == 10 && s[4] == '-' && s[7] == '-'
    && AllDigits(s[..4]) && AllDigits(s[5..7]) && AllDigits(s[8..])
  }

  /** The year, month and day fields such text spells. */
  function CivilOfText(s: string): Civil
    requires DateShaped(s)
  {
    Civil(Value(s[..4]), Value(s[5..7]), Value(s[8..]))
  }

  /**
   * datetime.strptime(s, '%Y-%m-%d').date(), for text with a four-digit year and two-digit
   * month and day; text that is not a date in range raises ValueError.
   */
  function Parse(s: string): (r: Result<Date>)
    ensures r.Err? ==> r.error == ValueError
  {
    if DateShaped(s) then
      var c := CivilOfText(s);
      if ValidCivil(c) then ToOrdinalInRange(c); Ok(ToOrdinal(c)) else Err(ValueError)
    else Err(ValueError)
  }

  lemma FieldsOfFormat(c: Civil)
    requires ValidCivil(c)
    ensures var s := FormatCivil(c);
      |s| == 10 && s[4] == '-' && s[7] == '-'
      && s[..4] == Pad(c.year, 4) && s[5..7] == Pad(c.month, 2) && s[8..] == Pad(c.day, 2)
  {
  }

  /** Reading back what str() wrote gives the same date. */
  lemma ParseFormat(d: Date)
    ensures Parse(Format(d)) == Ok(d)
  {
    var c := FromOrdinal(d);
    ToFromOrdinal(d);
    FieldsOfFormat(c);
    ValueOfPad(c.year, 4);
    ValueOfPad(c.month, 2);
    ValueOfPad(c.day, 2);
    assert DateShaped(Format(d)) && CivilOfText(Format(d)) == c;
  }

  /** Writing out the fields of date-shaped text gives that text back. */
  lemma FormatOfText(s: string)
    requires DateShaped(s) && ValidCivil(CivilOfText(s))
    ensures FormatCivil(CivilOfText(s)) == s
  {
    PadOfValue(s[..4]);
    PadOfValue(s[5..7]);
    PadOfValue(s[8..]);
    assert s == s[..4] + "-" + s[5..7] + "-" + s[8..];
  }

  /** The only text that parses to a date is the text str() writes for it. */
  lemma FormatParse(s: string, d: Date)
    requires Parse(s) == Ok(d)
    ensures Format(d) == s
  {
    var c := CivilOfText(s);
    assert ValidCivil(c) && d == ToOrdinal(c);
    FromToOrdinal(c);
    FormatOfText(s);
  }
}
