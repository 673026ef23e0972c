/** The 8-digit `YYYYMMDD` text form of the rota dates (Python's `strptime` and
    `strftime` with '%Y%m%d') and its relation to day numbers in the proleptic
    Gregorian calendar. The rota compares and sorts these strings; `FormatOrder`
    shows that their code-point order is the order of the days. */
module DateText {
  import opened Wrappers
  import opened Strings
  import opened Calendar

  predicate IsLeap(y: int) {
    y % 4 == 0 && (y % 100 != 0 || y % 400 == 0)
  }

  function YearLength(y: int): int {
    if IsLeap(y) then 366 else 365
  }

  function DaysInMonth(y: int, m: int): (n: int)
    requires 1 <= m <= 12
    ensures 28 <= n <= 31
  {
    if m == 2 then (if IsLeap(y) then 29 else 28)
    else if m == 4 || m == 6 || m == 9 || m == 11 then 30
    else 31
  }

  /** Number of days in the years before year `y` (year 1 starts at day 0). */
  function DaysBeforeYear(y: int): int
    requires y >= 1
  {
    var p := y - 1;
    365 * p + p / 4 - p / 100 + p / 400
  }

  /** Number of days in year `y` before the first of month `m`. */
  function DaysBeforeMonth(y: int, m: int): int
    requires 1 <= m <= 12
  {
    (if m == 1 then 0 else if m == 2 then 31 else if m == 3 then 59
     else if m == 4 then 90 else if m == 5 then 120 else if m == 6 then 151
     else if m == 7 then 181 else if m == 8 then 212 else if m == 9 then 243
     else if m == 10 then 273 else if m == 11 then 304 else 334)
    + (if m > 2 && IsLeap(y) then 1 else 0)
  }

  datatype Civil = Civil(year: int, month: int, day: int)

  /** A calendar date Python's `datetime` can hold (years 1 to 9999 are the
      `InRange` days below). */
  predicate ValidCivil(c: Civil) {
    1 <= c.year && 1 <= c.month <= 12 && 1 <= c.day <= DaysInMonth(c.year, c.month)
  }

  function ToDay(c: Civil): Day
    requires ValidCivil(c)
  {
    DaysBeforeYear(c.year) + DaysBeforeMonth(c.year, c.month) + c.day - 1
  }

  lemma YearStep(y: int)
    requires y >= 1
    ensures DaysBeforeYear(y + 1) == DaysBeforeYear(y) + YearLength(y)
  {
    var p := y - 1;
    DivStep(p, 4);
    DivStep(p, 100);
    DivStep(p, 400);
    DivisibleChain(y);
  }

  /** A multiple of 400 is a multiple of 100, and a multiple of 100 one of 4. */
  lemma DivisibleChain(y: int)
    ensures y % 400 == 0 ==> y % 100 == 0
    ensures y % 100 == 0 ==> y % 4 == 0
  {
    if y % 400 == 0 {
      var q := y / 400;
      assert y == 100 * (4 * q);
      DivUnique(y, 100, 4 * q, 0);
    }
    if y % 100 == 0 {
      var q := y / 100;
      assert y == 4 * (25 * q);
      DivUnique(y, 4, 25 * q, 0);
    }
  }

  /** One more day in the count moves the quotient by `k` exactly at the
      multiples of `k`. */
  lemma DivStep(p: int, k: int)
    requires p >= 0 && k > 0
    ensures (p + 1) / k == p / k + (if (p + 1) % k == 0 then 1 else 0)
  {
    var q, r := p / k, p % k;
    assert p == k * q + r && 0 <= r < k;
    if r == k - 1 {
      assert p + 1 == k * (q + 1);
      DivUnique(p + 1, k, q + 1, 0);
    } else {
      assert p + 1 == k * q + (r + 1);
      DivUnique(p + 1, k, q, r + 1);
    }
  }

  lemma DivUnique(a: int, k: int, q: int, r: int)
    requires k > 0 && 0 <= r < k && a == k * q + r
    ensures a / k == q && a % k == r
  {
    var q', r' := a / k, a % k;
    assert a == k * q' + r' && 0 <= r' < k;
    assert k * (q - q') == r' - r;
    if q > q' {
      MulAtLeast(k, q - q');
    } else if q < q' {
      MulAtLeast(k, q' - q);
    }
  }

  lemma {:induction false} MulAtLeast(k: int, d: int)
    requires k > 0 && d >= 1
    ensures k * d >= k
    decreases d
  {
    if d > 1 {
      MulAtLeast(k, d - 1);
      assert k * d == k * (d - 1) + k;
    }
  }

  lemma MonthStep(y: int, m: int)
    requires 1 <= m <= 12
    ensures m < 12 ==> DaysBeforeMonth(y, m + 1) == DaysBeforeMonth(y, m) + DaysInMonth(y, m)
    ensures m == 12 ==> DaysBeforeMonth(y, m) + DaysInMonth(y, m) == YearLength(y)
  {
  }

  lemma {:induction false} YearsIncrease(y1: int, y2: int)
    requires 1 <= y1 < y2
    ensures DaysBeforeYear(y1 + 1) <= DaysBeforeYear(y2)
    ensures DaysBeforeYear(y1) < DaysBeforeYear(y2)
    decreases y2 - y1
  {
    YearStep(y1);
    if y1 + 1 < y2 {
      YearsIncrease(y1 + 1, y2);
    }
  }

  lemma {:induction false} MonthsIncrease(y: int, m1: int, m2: int)
    requires 1 <= m1 < m2 <= 12
    ensures DaysBeforeMonth(y, m1) + DaysInMonth(y, m1) <= DaysBeforeMonth(y, m2)
    decreases m2 - m1
  {
    MonthStep(y, m1);
    if m1 + 1 < m2 {
      MonthsIncrease(y, m1 + 1, m2);
    }
  }

  lemma MonthFitsYear(y: int, m: int)
    requires 1 <= m <= 12
    ensures DaysBeforeMonth(y, m) + DaysInMonth(y, m) <= YearLength(y)
  {
    if m < 12 {
      MonthsIncrease(y, m, 12);
    }
    MonthStep(y, 12);
  }

  /** The day number of a date lies inside its own year. */
  lemma ToDayInYear(c: Civil)
    requires ValidCivil(c)
    ensures DaysBeforeYear(c.year) <= ToDay(c) < DaysBeforeYear(c.year + 1)
  {
    YearStep(c.year);
    MonthFitsYear(c.year, c.month);
  }

  /** The year holding day `n`, searched upwards from year `y`. */
  function YearFrom(n: Day, y: int): (r: int)
    requires y >= 1 && DaysBeforeYear(y) <= n
    ensures r >= y && DaysBeforeYear(r) <= n < DaysBeforeYear(r + 1)
    decreases n - DaysBeforeYear(y)
  {
    YearStep(y);
    if n < DaysBeforeYear(y + 1) then y else YearFrom(n, y + 1)
  }

  /** The month holding day `doy` (0-based) of year `y`, searched upwards from month `m`. */
  function MonthFrom(y: int, doy: int, m: int): (r: int)
    requires 1 <= m <= 12 && DaysBeforeMonth(y, m) <= doy < YearLength(y)
    ensures m <= r <= 12 && DaysBeforeMonth(y, r) <= doy < DaysBeforeMonth(y, r) + DaysInMonth(y, r)
    decreases 12 - m
  {
    MonthStep(y, m);
    if m == 12 || doy < DaysBeforeMonth(y, m) + DaysInMonth(y, m) then m else MonthFrom(y, doy, m + 1)
  }

  /** The calendar date of a day number; it is the date `ToDay` maps back to `n`. */
  function FromDay(n: Day): (c: Civil)
    requires n >= 0
    ensures ValidCivil(c) && ToDay(c) == n
  {
    var y := YearFrom(n, 1);
    YearStep(y);
    var doy := n - DaysBeforeYear(y);
    var m := MonthFrom(y, doy, 1);
    Civil(y, m, doy - DaysBeforeMonth(y, m) + 1)
  }

  /** `FromDay` inverts `ToDay`: every valid date has exactly one day number. */
  lemma FromDayOfToDay(c: Civil)
    requires ValidCivil(c)
    ensures ToDay(c) >= 0 && FromDay(ToDay(c)) == c
  {
    var n := ToDay(c);
    ToDayInYear(c);
    YearsIncrease(1, c.year + 1);
    var d := FromDay(n);
    ToDayInYear(d);
    if d.year < c.year {
      YearsIncrease(d.year, c.year);
    } else if d.year > c.year {
      YearsIncrease(c.year, d.year);
    }
    assert d.year == c.year;
    if d.month < c.month {
      MonthsIncrease(c.year, d.month, c.month);
    } else if d.month > c.month {
      MonthsIncrease(c.year, c.month, d.month);
    }
  }

  /** Chronological order of dates. */
  predicate CivilLess(a: Civil, b: Civil) {
    a.year < b.year || (a.year == b.year && (a.month < b.month || (a.month == b.month && a.day < b.day)))
  }

  lemma ToDayMonotone(a: Civil, b: Civil)
    requires ValidCivil(a) && ValidCivil(b) && CivilLess(a, b)
    ensures ToDay(a) < ToDay(b)
  {
    ToDayInYear(a);
    ToDayInYear(b);
    if a.year < b.year {
      YearsIncrease(a.year, b.year);
    } else if a.month < b.month {
      MonthsIncrease(a.year, a.month, b.month);
    }
  }

  /** Day numbers of years 1 to 9999, the range of Python's `datetime.date`. */
  predicate InRange(n: Day) {
    0 <= n < DaysBeforeYear(10000)
  }

  lemma InRangeYear(n: Day)
    requires InRange(n)
    ensures FromDay(n).year < 10000
  {
    var c := FromDay(n);
    ToDayInYear(c);
    if c.year >= 10000 {
      if c.year > 10000 {
        YearsIncrease(10000, c.year);
      }
    }
  }

  lemma YearBound(y: int)
    requires 1 <= y < 10000
    ensures DaysBeforeYear(y + 1) <= DaysBeforeYear(10000)
  {
    if y + 1 < 10000 {
      YearsIncrease(y + 1, 10000);
    }
  }

  /** `strftime('%Y%m%d')`. Years past 9999 (beyond Python's range) keep only
      their last four digits. */
  function Format(n: Day): (s: string)
    requires n >= 0
    ensures |s| == 8 && AllDigits(s)
  {
    var c := FromDay(n);
    FixedDigits(c.year, 4) + FixedDigits(c.month, 2) + FixedDigits(c.day, 2)
  }

  /** `strptime(s, '%Y%m%d')` for the canonical 8-digit form: `None` for any
      other text or for a date that does not exist. */
  function Parse(s: string): (r: Option<Day>)
    ensures r.Some? ==> InRange(r.value)
  {
    if |s| == 8 && AllDigits(s) then
      assert AllDigits(s[..4]) && AllDigits(s[4..6]) && AllDigits(s[6..]);
      var c := Civil(ParseDecimal(s[..4]), ParseDecimal(s[4..6]), ParseDecimal(s[6..]));
      if ValidCivil(c) then
        ParseDecimalBound(s[..4]);
        ToDayInYear(c);
        YearsIncrease(1, c.year + 1);
        YearBound(c.year);
        Some(ToDay(c))
      else None
    else None
  }

  /** Formatting a day of Python's range and parsing it back gives the day. */
  lemma ParseFormat(n: Day)
    requires InRange(n)
    ensures Parse(Format(n)) == Some(n)
  {
    var c := FromDay(n);
    InRangeYear(n);
    var s := Format(n);
    assert s[..4] == FixedDigits(c.year, 4);
    assert s[4..6] == FixedDigits(c.month, 2);
    assert s[6..] == FixedDigits(c.day, 2);
    ParseFixedDigits(c.year, 4);
    ParseFixedDigits(c.month, 2);
    ParseFixedDigits(c.day, 2);
  }

  /** Text that parses is already in the canonical form `Format` produces. */
  lemma FormatParse(s: string)
    requires Parse(s).Some?
    ensures Format(Parse(s).value) == s
  {
    ParseSome(s);
    var c := Civil(ParseDecimal(s[..4]), ParseDecimal(s[4..6]), ParseDecimal(s[6..]));
    FromDayOfToDay(c);
    assert Format(ToDay(c)) == FixedDigits(c.year, 4) + FixedDigits(c.month, 2) + FixedDigits(c.day, 2);
    FixedDigitsOfParse(s[..4]);
    FixedDigitsOfParse(s[4..6]);
    FixedDigitsOfParse(s[6..]);
    DateFieldsCover(s);
  }

  /** An eight-character text is its year, month and day fields in a row. */
  lemma DateFieldsCover(s: string)
    requires |s| == 8
    ensures s == s[..4] + s[4..6] + s[6..]
  {
  }

  /** A text `Parse` accepts is eight digits naming a valid date. */
  lemma ParseSome(s: string)
    requires Parse(s).Some?
    ensures |s| == 8 && AllDigits(s) && AllDigits(s[..4]) && AllDigits(s[4..6]) && AllDigits(s[6..])
    ensures var c := Civil(ParseDecimal(s[..4]), ParseDecimal(s[4..6]), ParseDecimal(s[6..]));
      ValidCivil(c) && Parse(s).value == ToDay(c)
  {
  }

  /** Year, month and day fields of a date whose year has at most four digits. */
  predicate Fields(c: Civil) {
    ValidCivil(c) && c.year < 10000
  }

  /** Equal fixed-width fields come from equal numbers. */
  lemma FixedDigitsInjective(v1: nat, v2: nat, w: nat)
    requires v1 < Pow10(w) && v2 < Pow10(w) && FixedDigits(v1, w) == FixedDigits(v2, w)
    ensures v1 == v2
  {
    ParseFixedDigits(v1, w);
    ParseFixedDigits(v2, w);
  }

  /** The `YYYYMMDD` text orders dates chronologically. */
  lemma CivilTextOrder(ca: Civil, cb: Civil)
    requires Fields(ca) && Fields(cb)
    ensures Less(FixedDigits(ca.year, 4) + FixedDigits(ca.month, 2) + FixedDigits(ca.day, 2),
                 FixedDigits(cb.year, 4) + FixedDigits(cb.month, 2) + FixedDigits(cb.day, 2))
            <==> CivilLess(ca, cb)
  {
    assert Pow10(2) == 100;
    assert Pow10(4) == 10000;
    var ya, yb := FixedDigits(ca.year, 4), FixedDigits(cb.year, 4);
    var ma, mb := FixedDigits(ca.month, 2), FixedDigits(cb.month, 2);
    var da, db := FixedDigits(ca.day, 2), FixedDigits(cb.day, 2);
    assert ya + ma + da == ya + (ma + da);
    assert yb + mb + db == yb + (mb + db);
    LessConcat(ya, ma + da, yb, mb + db);
    LessConcat(ma, da, mb, db);
    FixedDigitsOrder(ca.year, cb.year, 4);
    FixedDigitsOrder(ca.month, cb.month, 2);
    FixedDigitsOrder(ca.day, cb.day, 2);
    if ya == yb {
      FixedDigitsInjective(ca.year, cb.year, 4);
    }
    if ma == mb {
      FixedDigitsInjective(ca.month, cb.month, 2);
    }
  }

  /** Chronological order of dates is the order of their day numbers. */
  lemma CivilLessIsDayOrder(a: Day, b: Day)
    requires a >= 0 && b >= 0
    ensures CivilLess(FromDay(a), FromDay(b)) <==> a < b
  {
    var ca, cb := FromDay(a), FromDay(b);
    if CivilLess(ca, cb) {
      ToDayMonotone(ca, cb);
    } else if CivilLess(cb, ca) {
      ToDayMonotone(cb, ca);
    }
  }

  /** Comparing two formatted dates as strings, as the source does with `<=`,
      `_max` and `sorted`, is comparing the days. */
  lemma FormatOrder(a: Day, b: Day)
    requires InRange(a) && InRange(b)
    ensures Less(Format(a), Format(b)) <==> a < b
  {
    InRangeYear(a);
    InRangeYear(b);
    CivilTextOrder(FromDay(a), FromDay(b));
    CivilLessIsDayOrder(a, b);
  }
}
