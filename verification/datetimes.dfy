/** Creation timestamps: the six-component date-time that `parse_datetime`
    builds from the tuple returned by the RFC 2822 date parser, Python's
    `datetime` range checks, and the chronological order used by the range
    and min/max queries. */
module DateTimes {
  import opened Wrappers

  /** The nine-field tuple the date parser yields for a parsable string
      (year, month, day, hour, minute, second, weekday, day of year, DST flag). */
  datatype TimeTuple = TimeTuple(
    year: int, month: int, day: int,
    hour: int, minute: int, second: int,
    weekday: int, yearday: int, isDst: int)

  /** The date parser itself: `None` when the string is not a date. */
  type Parser = string -> Option<TimeTuple>

  /** A date-time with one-second resolution and no sub-second part. */
  datatype DateTime = DateTime(
    year: int, month: int, day: int,
    hour: int, minute: int, second: int)

  /** Python's `datetime.MINYEAR` and `datetime.MAXYEAR`. */
  const MinYear := 1
  const MaxYear := 9999

  /** Gregorian leap years, as Python's `calendar.isleap`. */
  predicate IsLeapYear(y: int) {
    y % 4 == 0 && (y % 100 != 0 || y % 400 == 0)
  }

  function DaysInMonth(y: int, m: int): (n: int)
    requires 1 <= m <= 12
    ensures 28 <= n <= 31
    ensures n == 28 <==> m == 2 && !IsLeapYear(y)
    ensures n == 29 <==> m == 2 && IsLeapYear(y)
    ensures n == 30 <==> m in {4, 6, 9, 11}
  {
    if m == 2 then (if IsLeapYear(y) then 29 else 28)
    else if m == 4 || m == 6 || m == 9 || m == 11 then 30
    else 31
  }

  /** The arguments Python's `datetime(...)` constructor accepts without
      raising `ValueError`. */
  predicate IsValid(d: DateTime)
    ensures IsValid(d) ==> 1 <= d.day <= 31
    ensures IsValid(d) && d.month == 2 ==> d.day <= 29
    ensures IsValid(d) && d.month == 2 && d.day == 29 ==> IsLeapYear(d.year)
  {
    && MinYear <= d.year <= MaxYear
    && 1 <= d.month <= 12
    && 1 <= d.day <= DaysInMonth(d.year, d.month)
    && 0 <= d.hour < 24
    && 0 <= d.minute < 60
    && 0 <= d.second < 60
  }

  /** Slicing the parser's tuple with `[:6]`. */
  function Truncate(t: TimeTuple): DateTime {
    DateTime(t.year, t.month, t.day, t.hour, t.minute, t.second)
  }

  /** Why a date string did not become a `datetime`: the parser returned
      `None` (subscripting it raises `TypeError`), or the six components are
      out of range (`ValueError`). */
  datatype DateFailure = Unparsable | OutOfRange

  /** `parse_datetime`: keep the first six components of the parsed tuple
      and build a date-time from them. The argument is `None` when the JSON
      holds `null`; the parser returns `None` for it, as for any non-date. */
  function ParseDatetime(parsedate: Parser, text: Option<string>): (r: Result<DateTime, DateFailure>)
    ensures r == Failure(Unparsable) <==> text.None? || parsedate(text.value).None?
    ensures r == Failure(OutOfRange) <==>
      text.Some? && parsedate(text.value).Some? && !IsValid(Truncate(parsedate(text.value).value))
    ensures r.Success? ==>
      var t := parsedate(text.value).value;
      && IsValid(r.value)
      && r.value.year == t.year && r.value.month == t.month && r.value.day == t.day
      && r.value.hour == t.hour && r.value.minute == t.minute && r.value.second == t.second
  {
    if text.None? then Failure(Unparsable)
    else match parsedate(text.value)
    case None => Failure(Unparsable)
    case Some(t) =>
      var d := Truncate(t);
      if IsValid(d) then Success(d) else Failure(OutOfRange)
  }

  /** Two parser tuples that differ only in the three trailing fields give
      the same date-time: those fields are discarded. */
  lemma ParseIgnoresTrailingFields(p: Parser, q: Parser, text: string)
    requires p(text).Some? && q(text).Some?
    requires Truncate(p(text).value) == Truncate(q(text).value)
    ensures ParseDatetime(p, Some(text)) == ParseDatetime(q, Some(text))
  {
  }

  /** Strict chronological order: Python's `<` on two date-times in the same
      zone, which compares the components lexicographically. */
  predicate Before(a: DateTime, b: DateTime)
    ensures Before(a, b) ==> a != b
    ensures a.year < b.year ==> Before(a, b)
    ensures Before(a, b) ==> a.year <= b.year
  {
    if a.year != b.year then a.year < b.year
    else if a.month != b.month then a.month < b.month
    else if a.day != b.day then a.day < b.day
    else if a.hour != b.hour then a.hour < b.hour
    else if a.minute != b.minute then a.minute < b.minute
    else a.second < b.second
  }

  /** Python's `<=` on date-times. */
  predicate NotAfter(a: DateTime, b: DateTime) {
    a == b || Before(a, b)
  }

  lemma BeforeIrreflexive(a: DateTime)
    ensures !Before(a, a)
  {
  }

  lemma BeforeTransitive(a: DateTime, b: DateTime, c: DateTime)
    requires Before(a, b) && Before(b, c)
    ensures Before(a, c)
  {
  }

  /** Any two date-times are ordered one way, the other, or are equal, and
      exactly one of the three holds. */
  lemma Trichotomy(a: DateTime, b: DateTime)
    ensures Before(a, b) || a == b || Before(b, a)
    ensures !(Before(a, b) && Before(b, a))
    ensures a == b ==> !Before(a, b)
  {
  }

  lemma NotAfterTransitive(a: DateTime, b: DateTime, c: DateTime)
    requires NotAfter(a, b) && NotAfter(b, c)
    ensures NotAfter(a, c)
  {
    if a != b && b != c {
      BeforeTransitive(a, b, c);
    }
  }

  lemma NotAfterAntisymmetric(a: DateTime, b: DateTime)
    requires NotAfter(a, b) && NotAfter(b, a)
    ensures a == b
  {
    Trichotomy(a, b);
  }

  lemma NotAfterIffNotBefore(a: DateTime, b: DateTime)
    ensures NotAfter(a, b) <==> !Before(b, a)
  {
    Trichotomy(a, b);
  }
}
