/** Business-day arithmetic of the rota engine (support.py `dow`, `next_weekday`,
    `prev_weekday`) on day numbers instead of library dates. */
module Calendar {

  /** Days counted from 0001-01-01 of the proleptic Gregorian calendar (Python's
      `date.toordinal() - 1`); day 0 is a Monday. */
  type Day = int

  datatype Weekday = Mon | Tue | Wed | Thu | Fri | Sat | Sun

  /** Python's `isoweekday()`: Monday is 1, Sunday is 7. */
  function IsoWeekday(d: Day): (w: int)
    ensures 1 <= w <= 7
  {
    d % 7 + 1
  }

  function DayOfWeek(d: Day): Weekday {
    match IsoWeekday(d)
    case 1 => Mon
    case 2 => Tue
    case 3 => Wed
    case 4 => Thu
    case 5 => Fri
    case 6 => Sat
    case _ => Sun
  }

  /** `dow(date)`: the abbreviated weekday name of `strftime('%a')` in the C locale. */
  function Dow(d: Day): string {
    match DayOfWeek(d)
    case Mon => "Mon"
    case Tue => "Tue"
    case Wed => "Wed"
    case Thu => "Thu"
    case Fri => "Fri"
    case Sat => "Sat"
    case Sun => "Sun"
  }

  /** Monday to Friday. */
  predicate IsWeekday(d: Day) {
    IsoWeekday(d) <= 5
  }

  lemma IsoWeekdayStep(d: Day)
    ensures IsoWeekday(d + 1) == if IsoWeekday(d) == 7 then 1 else IsoWeekday(d) + 1
  {
  }

  /** `next_weekday(date)`: the day after, rolled forward to Monday when it is a
      Saturday or a Sunday. It is the first weekday strictly after `d`. */
  function NextWeekday(d: Day): (r: Day)
    ensures d < r && IsWeekday(r)
    ensures forall e :: d < e < r ==> !IsWeekday(e)
  {
    var dd := d + 1;
    IsoWeekdayStep(dd);
    if IsoWeekday(dd) == 6 || IsoWeekday(dd) == 7 then dd + (8 - IsoWeekday(dd)) else dd
  }

  /** `prev_weekday(date)`: the day before, rolled back to Friday when it is a
      Saturday or a Sunday. It is the last weekday strictly before `d`. */
  function PrevWeekday(d: Day): (r: Day)
    ensures r < d && IsWeekday(r)
    ensures forall e :: r < e < d ==> !IsWeekday(e)
  {
    var dd := d - 1;
    IsoWeekdayStep(dd - 1);
    IsoWeekdayStep(dd - 2);
    if IsoWeekday(dd) == 6 || IsoWeekday(dd) == 7 then dd + (5 - IsoWeekday(dd)) else dd
  }

  /** On a weekday, stepping one business day back and then forward is the
      identity, and so is stepping forward and then back. */
  lemma WeekdayRoundTrip(d: Day)
    requires IsWeekday(d)
    ensures NextWeekday(PrevWeekday(d)) == d
    ensures PrevWeekday(NextWeekday(d)) == d
  {
  }

  /** Saturday and Sunday both roll forward to the following Monday and back to
      the preceding Friday. */
  lemma WeekendRolls(d: Day)
    requires DayOfWeek(d) == Sat || DayOfWeek(d) == Sun
    ensures DayOfWeek(NextWeekday(d)) == Mon
    ensures DayOfWeek(PrevWeekday(d)) == Fri
    ensures NextWeekday(d) - PrevWeekday(d) == 3
  {
  }
}
