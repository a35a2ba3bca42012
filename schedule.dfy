/** The SM-2 scheduling state of one card and the pure rules that move it:
    a review of quality 0..5 resets or extends the success streak, picks the
    next interval and adjusts the ease factor; a card is due once its interval
    has elapsed since the last review.

    The ease factor is held as a whole number of hundredths (250 is the ease
    2.5): the record is stored with two decimals, and every ease step
    `0.1 - (5-q)*(0.08 + (5-q)*0.02)` is itself a whole number of hundredths,
    `10 - (5-q)*(8 + (5-q)*2)`. The day "today" is a parameter. */
module Schedule {
  import opened Text
  import opened Dates

  /** The values held by a `RepetitionData` object. */
  datatype Record = Record(lastReview: Option<Date>, interval: int, ease: int, repetitions: int)

  /** A record with no review yet: interval 1, ease 2.50, streak 0. */
  const DefaultRecord := Record(None, 1, 250, 0)

  /** Lowest ease factor, 1.30. */
  const MinEase := 130

  /** The state every update keeps: a positive interval, the ease at or above
      its floor, a non-negative streak and a real last-review day. */
  predicate Valid(r: Record)
  {
    r.interval >= 1 && r.ease >= MinEase && r.repetitions >= 0
    && (r.lastReview.Some? ==> WellFormed(r.lastReview.value))
  }

  function Abs(x: int): nat { if x < 0 then -x else x }

  function Max(a: int, b: int): int { if a < b then b else a }

  /** Python's `round` of the exact quotient `n / d`: the nearest integer,
      ties to the even one. */
  function RoundHalfEven(n: int, d: int): (r: int)
    requires d > 0
    ensures 2 * Abs(n - r * d) <= d
    ensures 2 * Abs(n - r * d) == d ==> r % 2 == 0
  {
    var q, rem := n / d, n % d;
    assert n - q * d == rem;
    assert n - (q + 1) * d == rem - d;
    if 2 * rem < d then q
    else if 2 * rem > d then q + 1
    else if q % 2 == 0 then q
    else q + 1
  }

  /** Change of the ease factor, in hundredths, for a review of `quality`. */
  function EaseDelta(quality: int): int
  {
    10 - (5 - quality) * (8 + (5 - quality) * 2)
  }

  /** The record after a review of `quality` on day `today` (the effect of
      `update`): a quality below 3 resets the streak and the interval; a
      success extends the streak with intervals 1, 6, then the old interval
      times the old ease; the ease moves by `EaseDelta` but not below 1.30. */
  function Updated(r: Record, quality: int, today: Date): Record
  {
    var reps := if quality < 3 then 0 else r.repetitions + 1;
    var interval :=
      if quality < 3 then 1
      else if reps == 1 then 1
      else if reps == 2 then 6
      else RoundHalfEven(r.interval * r.ease, 100);
    Record(Some(today), interval, Max(MinEase, r.ease + EaseDelta(quality)), reps)
  }

  /** `next_review_date`: the last review plus the interval, if reviewed. */
  function NextReviewDate(r: Record): (n: Option<Date>)
    requires r.lastReview.Some? ==> WellFormed(r.lastReview.value)
    ensures n.None? <==> r.lastReview.None?
    ensures n.Some? ==> n.value == AddDays(r.lastReview.value, r.interval)
  {
    match r.lastReview
    case None => None
    case Some(last) => Some(AddDays(last, r.interval))
  }

  /** `is_due` with the clock passed in: never reviewed, or today is on or
      after the next review date. */
  function IsDue(r: Record, today: Date): (due: bool)
    requires r.lastReview.Some? ==> WellFormed(r.lastReview.value)
    ensures r.lastReview.None? ==> due
    ensures r.lastReview.Some? ==> (due <==> OnOrAfter(today, AddDays(r.lastReview.value, r.interval)))
  {
    match NextReviewDate(r)
    case None => true
    case Some(next) => OnOrAfter(today, next)
  }

  /** The quiz's mapping of the 1..5 rating a user types to an SM-2 quality:
      1 and 2 become the failures 0 and 1, 3..5 are kept. */
  function RatingToQuality(rating: int): int
  {
    if rating <= 2 then rating - 1 else rating
  }

  lemma RatingToQualityRange(rating: int)
    requires 1 <= rating <= 5
    ensures 0 <= RatingToQuality(rating) <= 5
    ensures RatingToQuality(rating) >= 3 <==> rating >= 3
  {
  }

  /** The two branches of `update`: a failure resets streak and interval, a
      success extends the streak and picks 1, 6 or the rounded product. */
  lemma UpdateBranches(r: Record, quality: int, today: Date)
    ensures var u := Updated(r, quality, today);
      u.lastReview == Some(today)
      && (quality < 3 ==> u.repetitions == 0 && u.interval == 1)
      && (quality >= 3 ==> u.repetitions == r.repetitions + 1)
      && (quality >= 3 && r.repetitions == 0 ==> u.interval == 1)
      && (quality >= 3 && r.repetitions == 1 ==> u.interval == 6)
      && (quality >= 3 && r.repetitions + 1 !in {1, 2} ==>
            2 * Abs(100 * u.interval - r.interval * r.ease) <= 100)
      && (quality >= 3 && r.repetitions + 1 !in {1, 2}
          && 2 * Abs(100 * u.interval - r.interval * r.ease) == 100 ==>
            u.interval % 2 == 0)
  {
  }

  /** The ease never drops below 1.30, quality 4 keeps it, quality 5 adds 0.10,
      and quality 0 removes 0.80 (down to the floor). */
  lemma EaseRules(r: Record, quality: int, today: Date)
    ensures var u := Updated(r, quality, today);
      u.ease >= MinEase
      && (quality == 4 && r.ease >= MinEase ==> u.ease == r.ease)
      && (quality == 5 && r.ease >= MinEase ==> u.ease == r.ease + 10)
      && (quality == 0 ==> u.ease == Max(MinEase, r.ease - 80))
      && (quality < 4 && r.ease > MinEase ==> u.ease < r.ease)
  {
  }

  /** A better recall never yields a lower ease factor. */
  lemma EaseMonotone(r: Record, q1: int, q2: int, today: Date)
    requires q1 <= q2 <= 5
    ensures Updated(r, q1, today).ease <= Updated(r, q2, today).ease
  {
    var x1, x2 := 5 - q1, 5 - q2;
    assert 0 <= x2 <= x1;
    assert x1 * x1 >= x2 * x2 by {
      assert x1 * x1 - x2 * x2 == (x1 - x2) * (x1 + x2);
    }
    assert EaseDelta(q1) <= EaseDelta(q2);
  }

  /** The rounded product of an interval and an ease of at least 1.30 is at
      least the interval, and strictly more once the interval is 2 or more. */
  lemma GrowthBound(interval: int, ease: int)
    requires interval >= 1 && ease >= MinEase
    ensures RoundHalfEven(interval * ease, 100) >= interval
    ensures interval >= 2 ==> RoundHalfEven(interval * ease, 100) > interval
  {
    var n := interval * ease;
    var r := RoundHalfEven(n, 100);
    assert n >= interval * MinEase;
    assert n - 100 * interval >= 30 * interval;
  }

  /** Every update keeps a valid record valid: interval at least 1, ease at
      least 1.30, streak non-negative. */
  lemma UpdatePreservesValid(r: Record, quality: int, today: Date)
    requires Valid(r) && WellFormed(today)
    ensures Valid(Updated(r, quality, today))
  {
    if quality >= 3 && r.repetitions + 1 > 2 {
      GrowthBound(r.interval, r.ease);
    }
  }

  /** On the third and later successes the interval never shrinks, and it grows
      once it is 2 days or more. */
  lemma SuccessIntervalGrows(r: Record, quality: int, today: Date)
    requires Valid(r) && quality >= 3 && r.repetitions >= 2
    ensures Updated(r, quality, today).interval >= r.interval
    ensures r.interval >= 2 ==> Updated(r, quality, today).interval > r.interval
  {
    GrowthBound(r.interval, r.ease);
  }

  /** A card just reviewed is not due the same day; it becomes due exactly on
      its next review date and stays due from then on. */
  lemma DueAfterUpdate(r: Record, quality: int, today: Date, later: Date)
    requires Valid(r) && WellFormed(today)
    ensures var u := Updated(r, quality, today);
      !IsDue(u, today)
      && IsDue(u, AddDays(today, u.interval))
      && (OnOrAfter(later, AddDays(today, u.interval)) ==> IsDue(u, later))
  {
    var u := Updated(r, quality, today);
    UpdatePreservesValid(r, quality, today);
    AddDaysOrder(today, u.interval);
  }

  /** Due-ness is monotone in time: once due, a card stays due. */
  lemma DueStaysDue(r: Record, t1: Date, t2: Date)
    requires Valid(r)
    requires IsDue(r, t1) && OnOrAfter(t2, t1)
    ensures IsDue(r, t2)
  {
    if r.lastReview.Some? {
      var next := AddDays(r.lastReview.value, r.interval);
      if Before(t2, next) {
        if Before(t2, t1) { } else if t2 == t1 { } else { BeforeTransitive(t1, t2, next); }
      }
    }
  }

  /** A fresh card reviewed three times with quality 4: intervals 1, 6 and
      then 6 * 2.50 = 15 days, the ease staying at 2.50; a first review of
      quality 5 raises the ease to 2.60 instead. */
  lemma FirstReviewExamples(d1: Date, d2: Date, d3: Date)
    ensures Updated(DefaultRecord, 4, d1) == Record(Some(d1), 1, 250, 1)
    ensures Updated(DefaultRecord, 5, d1) == Record(Some(d1), 1, 260, 1)
    ensures Updated(Updated(DefaultRecord, 4, d1), 4, d2) == Record(Some(d2), 6, 250, 2)
    ensures Updated(Updated(Updated(DefaultRecord, 4, d1), 4, d2), 4, d3) == Record(Some(d3), 15, 250, 3)
  {
    assert RoundHalfEven(1500, 100) == 15;
  }
}
