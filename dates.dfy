/** Calendar dates as Python's `datetime.date` presents them to the scheduler:
    a proleptic Gregorian (year, month, day), day arithmetic (`date +
    timedelta(days=n)`), ordering, and the ISO-8601 `YYYY-MM-DD` text form of
    `isoformat()` / `fromisoformat()`. */
module Dates {
  import opened Text

  datatype Date = Date(year: int, month: int, day: int)

  predicate IsLeap(y: int)
  {
    y % 4 == 0 && (y % 100 != 0 || y % 400 == 0)
  }

  function DaysInMonth(y: int, m: int): (n: int)
    requires 1 <= m <= 12
    ensures 28 <= n <= 31
  {
    if m == 2 then (if IsLeap(y) then 29 else 28)
    else if m == 4 || m == 6 || m == 9 || m == 11 then 30
    else 31
  }

  /** A real calendar day (any year: arithmetic is proleptic). */
  predicate WellFormed(d: Date)
  {
    1 <= d.month <= 12 && 1 <= d.day <= DaysInMonth(d.year, d.month)
  }

  /** A day `datetime.date` can represent (years 1 to 9999). */
  predicate InRange(d: Date)
  {
    WellFormed(d) && 1 <= d.year <= 9999
  }

  /** Chronological order, as Python compares dates. */
  predicate Before(a: Date, b: Date)
  {
    a.year < b.year
    || (a.year == b.year && a.month < b.month)
    || (a.year == b.year && a.month == b.month && a.day < b.day)
  }

  /** `a >= b` on dates. */
  predicate OnOrAfter(a: Date, b: Date)
  {
    !Before(a, b)
  }

  lemma BeforeTransitive(a: Date, b: Date, c: Date)
    requires Before(a, b) && Before(b, c)
    ensures Before(a, c)
  {
  }

  function Next(d: Date): (n: Date)
    requires WellFormed(d)
    ensures WellFormed(n) && Before(d, n)
  {
    if d.day < DaysInMonth(d.year, d.month) then Date(d.year, d.month, d.day + 1)
    else if d.month < 12 then Date(d.year, d.month + 1, 1)
    else Date(d.year + 1, 1, 1)
  }

  function Prev(d: Date): (p: Date)
    requires WellFormed(d)
    ensures WellFormed(p) && Before(p, d)
  {
    if d.day > 1 then Date(d.year, d.month, d.day - 1)
    else if d.month > 1 then Date(d.year, d.month - 1, DaysInMonth(d.year, d.month - 1))
    else Date(d.year - 1, 12, 31)
  }

  /** The day after the day before is the same day, and conversely: stepping
      one day is a bijection on calendar days. */
  lemma NextPrev(d: Date)
    requires WellFormed(d)
    ensures Prev(Next(d)) == d && Next(Prev(d)) == d
  {
  }

  /** `d + timedelta(days=n)`, for a positive or negative `n`. */
  function AddDays(d: Date, n: int): (r: Date)
    requires WellFormed(d)
    decreases if n < 0 then -n else n
    ensures WellFormed(r)
  {
    if n == 0 then d
    else if n > 0 then AddDays(Next(d), n - 1)
    else AddDays(Prev(d), n + 1)
  }

  /** Adding a positive number of days moves strictly later, a negative
      number strictly earlier, and zero not at all. */
  lemma {:induction false} AddDaysOrder(d: Date, n: int)
    requires WellFormed(d)
    ensures n > 0 ==> Before(d, AddDays(d, n))
    ensures n < 0 ==> Before(AddDays(d, n), d)
    ensures n == 0 ==> AddDays(d, n) == d
    decreases if n < 0 then -n else n
  {
    if n > 1 {
      AddDaysOrder(Next(d), n - 1);
      BeforeTransitive(d, Next(d), AddDays(d, n));
    } else if n < -1 {
      AddDaysOrder(Prev(d), n + 1);
      BeforeTransitive(AddDays(d, n), Prev(d), d);
    }
  }

  /** `date.isoformat()`. */
  function FormatIso(d: Date): (s: string)
    requires InRange(d)
    ensures |s| == 10 && s[4] == '-' && s[7] == '-'
  {
    PadDigits(d.year as nat, 4) + "-" + PadDigits(d.month as nat, 2) + "-" + PadDigits(d.day as nat, 2)
  }

  /** `date.fromisoformat(s)` as Python 3.10 defines it: exactly `YYYY-MM-DD`
      in ASCII digits naming a representable day; `None` where it raises
      `ValueError`. */
  function ParseIso(s: string): (r: Option<Date>)
    ensures r.Some? ==> InRange(r.value) && |s| == 10
  {
    if |s| == 10 && s[4] == '-' && s[7] == '-'
       && AllDigits(s[0..4]) && AllDigits(s[5..7]) && AllDigits(s[8..10])
    then
      var d := Date(DigitsValue(s[0..4]), DigitsValue(s[5..7]), DigitsValue(s[8..10]));
      if InRange(d) then Some(d) else None
    else None
  }

  /** Parsing the ISO form of a date gives the date back. */
  lemma IsoRoundTrip(d: Date)
    requires InRange(d)
    ensures ParseIso(FormatIso(d)) == Some(d)
  {
    var s := FormatIso(d);
    var y, m, dd := PadDigits(d.year as nat, 4), PadDigits(d.month as nat, 2), PadDigits(d.day as nat, 2);
    assert s[0..4] == y && s[5..7] == m && s[8..10] == dd;
    PadDigitsValue(d.year as nat, 4);
    PadDigitsValue(d.month as nat, 2);
    PadDigitsValue(d.day as nat, 2);
  }

  /** The ISO form is canonical: every string Python 3.10's `fromisoformat`
      accepts is the `isoformat()` of the date it denotes. */
  lemma IsoCanonical(s: string)
    requires ParseIso(s).Some?
    ensures FormatIso(ParseIso(s).value) == s
  {
    DigitsValuePad(s[0..4]);
    DigitsValuePad(s[5..7]);
    DigitsValuePad(s[8..10]);
    assert s == s[0..4] + "-" + s[5..7] + "-" + s[8..10];
  }
}
