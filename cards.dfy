/** The card entities: `RepetitionData`, the mutable scheduling state a
    card owns (shared by every card of one id parsed from one file), and
    `FlashCard`, a card as parsed from a document. */
module Cards {
  import opened Text
  import opened Dates
  import opened Schedule
  import opened Codec

  class RepetitionData {
    var lastReview: Option<Date>
    var interval: int
    var ease: int
    var repetitions: int

    /** The record these fields hold. */
    function Value(): Record
      reads this
    {
      Record(lastReview, interval, ease, repetitions)
    }

    constructor (r: Record)
      ensures Value() == r
    {
      lastReview, interval, ease, repetitions := r.lastReview, r.interval, r.ease, r.repetitions;
    }

    /** `RepetitionData()`: never reviewed, interval 1, ease 2.50, streak 0. */
    constructor Default()
      ensures Value() == DefaultRecord
    {
      lastReview, interval, ease, repetitions := None, 1, 250, 0;
    }

    /** `RepetitionData.from_string(s)`: a fresh object holding the decoded
        record, or `None` where the source raises `ValueError`. */
    static method FromString(s: string) returns (r: Option<RepetitionData>)
      ensures r.None? <==> Decode(s).None?
      ensures r.Some? ==> fresh(r.value) && r.value.Value() == Decode(s).value
    {
      match Decode(s) {
        case None => r := None;
        case Some(rec) =>
          var o := new RepetitionData(rec);
          r := Some(o);
      }
    }

    /** `to_string()`. */
    function ToString(): string
      reads this
      requires lastReview.Some? ==> InRange(lastReview.value)
    {
      Encode(Value())
    }

    /** `next_review_date()`. */
    function NextReview(): Option<Date>
      reads this
      requires lastReview.Some? ==> WellFormed(lastReview.value)
    {
      NextReviewDate(Value())
    }

    /** `is_due()`, with today's date passed in. */
    function Due(today: Date): bool
      reads this
      requires lastReview.Some? ==> WellFormed(lastReview.value)
    {
      IsDue(Value(), today)
    }

    /** `update(quality)` on day `today`: the fields change in the order the
        source assigns them, and together they become `Updated` of the old
        record; a valid record stays valid. */
    method Update(quality: int, today: Date)
      modifies this
      ensures Value() == Updated(old(Value()), quality, today)
      ensures Valid(old(Value())) && WellFormed(today) ==> Valid(Value())
    {
      ghost var before := Value();
      lastReview := Some(today);
      if quality < 3 {
        repetitions := 0;
        interval := 1;
      } else {
        repetitions := repetitions + 1;
        if repetitions == 1 {
          interval := 1;
        } else if repetitions == 2 {
          interval := 6;
        } else {
          interval := RoundHalfEven(interval * ease, 100);
        }
      }
      ease := Max(MinEase, ease + EaseDelta(quality));
      if Valid(before) && WellFormed(today) {
        UpdatePreservesValid(before, quality, today);
      }
    }
  }

  /** A card: its id, stripped question and answer text, section, the file it
      was read from and the scheduling object it refers to. */
  datatype FlashCard = FlashCard(
    id: string, question: string, answer: string, section: string,
    sourceFile: string, rep: RepetitionData)

  /** `FlashCard.is_due()`, with today's date passed in. */
  function CardIsDue(c: FlashCard, today: Date): bool
    reads c.rep
    requires c.rep.lastReview.Some? ==> WellFormed(c.rep.lastReview.value)
  {
    IsDue(c.rep.Value(), today)
  }
}
