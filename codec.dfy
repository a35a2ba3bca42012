/** The one-line text form of a repetition record, as `to_string` writes it
    and `from_string` reads it: `<date or none>:<interval>:<ease, 2 decimals>:<streak>`. */
module Codec {
  import opened Text
  import opened Dates
  import opened Schedule

  /** Python's `str(n)` for an integer. */
  function FormatInt(n: int): (s: string)
    ensures |s| >= 1 && !IsSpace(s[0]) && !IsSpace(s[|s| - 1]) && ':' !in s
  {
    if n < 0 then "-" + NatToDigits(-n) else NatToDigits(n)
  }

  /** A sign-and-digits body: an optional `+` or `-` and the rest. */
  function SplitSign(t: string): (string, bool)
  {
    if t != [] && (t[0] == '-' || t[0] == '+') then (t[1..], t[0] == '-') else (t, false)
  }

  /** Python's `int(s)` on ASCII decimal text: surrounding whitespace, an
      optional sign, one or more digits; `None` where Python raises. */
  function ParseInt(s: string): Option<int>
  {
    var (body, negative) := SplitSign(Strip(s));
    if body != [] && AllDigits(body) then
      var v: int := DigitsValue(body);
      Some(if negative then -v else v)
    else None
  }

  /** An ease of `e` hundredths written as Python's `f"{e / 100:.2f}"`. */
  function FormatHundredths(e: int): (s: string)
    ensures |s| >= 4 && !IsSpace(s[0]) && !IsSpace(s[|s| - 1]) && ':' !in s
  {
    var a := Abs(e);
    (if e < 0 then "-" else "") + NatToDigits(a / 100) + "." + PadDigits(a % 100, 2)
  }

  /** The hundredths in a fraction of at most two digits (`"5"` is 50). */
  function FractionHundredths(f: string): nat
    requires |f| <= 2 && AllDigits(f)
  {
    if |f| == 0 then 0 else if |f| == 1 then 10 * DigitValue(f[0]) else DigitsValue(f)
  }

  /** Unsigned decimal text with at most two decimals, in hundredths. */
  function ParseUnsignedHundredths(body: string): Option<nat>
  {
    var (ip, fp) := match FindChar(body, 0, '.')
      case None => (body, [])
      case Some(k) => (body[..k], body[k + 1..]);
    if AllDigits(ip) && AllDigits(fp) && |fp| <= 2 && (ip != [] || fp != [])
    then Some(100 * DigitsValue(ip) + FractionHundredths(fp))
    else None
  }

  /** Python's `float(s)` for decimal text with at most two decimals, in
      hundredths: surrounding whitespace, an optional sign, digits, and an
      optional point with up to two digits after it; `None` where Python
      raises (and for the float forms this model does not read). */
  function ParseHundredths(s: string): Option<int>
  {
    var (body, negative) := SplitSign(Strip(s));
    match ParseUnsignedHundredths(body)
    case None => None
    case Some(v) => Some(if negative then -(v as int) else v as int)
  }

  /** `to_string`. */
  function Encode(r: Record): (s: string)
    requires r.lastReview.Some? ==> InRange(r.lastReview.value)
  {
    DateText(r.lastReview) + [':'] + FormatInt(r.interval) + [':'] + FormatHundredths(r.ease) + [':'] + FormatInt(r.repetitions)
  }

  /** `from_string`: three or more colon-separated fields are read as date (or
      `none`), interval, ease and, when present, streak (else 0); fewer fields
      give the default record. `None` where `from_string` raises `ValueError`
      (a bad date or a non-numeric field). */
  function Decode(s: string): (r: Option<Record>)
    ensures |Split(s, ':')| < 3 ==> r == Some(DefaultRecord)
  {
    var parts := Split(s, ':');
    if |parts| >= 3 then
      var date: Option<Option<Date>> :=
        if parts[0] == "none" then Some(None)
        else match ParseIso(parts[0])
          case None => None
          case Some(d) => Some(Some(d));
      var interval := ParseInt(parts[1]);
      var ease := ParseHundredths(parts[2]);
      var reps := if |parts| > 3 then ParseInt(parts[3]) else Some(0);
      if date.Some? && interval.Some? && ease.Some? && reps.Some? then
        Some(Record(date.value, interval.value, ease.value, reps.value))
      else None
    else Some(DefaultRecord)
  }

  lemma StripUnpadded(s: string)
    requires s != [] && !IsSpace(s[0]) && !IsSpace(s[|s| - 1])
    ensures Strip(s) == s
  {
  }

  lemma ParseFormatInt(n: int)
    ensures ParseInt(FormatInt(n)) == Some(n)
  {
    var s := FormatInt(n);
    StripUnpadded(s);
    NatToDigitsValue(if n < 0 then -n else n);
    if n < 0 {
      assert SplitSign(s) == (NatToDigits(-n), true);
    } else {
      assert SplitSign(s) == (NatToDigits(n), false);
    }
  }

  lemma ParseUnsignedJoin(ip: string, fp: string)
    requires ip != [] && AllDigits(ip) && |fp| == 2 && AllDigits(fp)
    ensures ParseUnsignedHundredths(ip + "." + fp) == Some(100 * DigitsValue(ip) + DigitsValue(fp))
  {
    var body := ip + "." + fp;
    assert FindChar(body, 0, '.') == Some(|ip|) by {
      assert forall k :: 0 <= k < |ip| ==> body[k] == ip[k];
      assert body[|ip|] == '.';
    }
    assert body[..|ip|] == ip;
    assert body[|ip| + 1..] == fp;
  }

  lemma ParseUnsignedParts(q: nat, r: nat)
    requires r < 100
    ensures ParseUnsignedHundredths(NatToDigits(q) + "." + PadDigits(r, 2)) == Some(100 * q + r)
  {
    ParseUnsignedJoin(NatToDigits(q), PadDigits(r, 2));
    NatToDigitsValue(q);
    assert Pow10(2) == 100 by {
      assert Pow10(1) == 10 * Pow10(0);
    }
    PadDigitsValue(r, 2);
  }

  lemma ParseUnsignedFormat(a: nat)
    ensures ParseUnsignedHundredths(NatToDigits(a / 100) + "." + PadDigits(a % 100, 2)) == Some(a)
  {
    ParseUnsignedParts(a / 100, a % 100);
  }

  lemma ParseFormatHundredths(e: int)
    ensures ParseHundredths(FormatHundredths(e)) == Some(e)
  {
    var a := Abs(e);
    var body := NatToDigits(a / 100) + "." + PadDigits(a % 100, 2);
    var s := FormatHundredths(e);
    StripUnpadded(s);
    assert s == (if e < 0 then "-" else "") + body;
    assert IsDigit(body[0]);
    if e < 0 {
      assert s[1..] == body;
    } else {
      assert s == body;
    }
    assert SplitSign(s) == (body, e < 0);
    ParseUnsignedFormat(a);
  }

  function DateText(d: Option<Date>): (s: string)
    requires d.Some? ==> InRange(d.value)
    ensures ':' !in s
  {
    match d
    case None => "none"
    case Some(x) =>
      var t := FormatIso(x);
      assert forall j :: 0 <= j < |t| ==> t[j] == '-' || IsDigit(t[j]);
      t
  }

  /** Decoding an encoded record gives it back: the round trip holds for every
      record (the ease is stored exactly, being already in hundredths). */
  lemma DecodeEncode(r: Record)
    requires r.lastReview.Some? ==> InRange(r.lastReview.value)
    ensures Decode(Encode(r)) == Some(r)
  {
    var a, b, c, d := DateText(r.lastReview), FormatInt(r.interval), FormatHundredths(r.ease), FormatInt(r.repetitions);
    SplitFour(a, b, c, d, ':');
    ParseFormatInt(r.interval);
    ParseFormatInt(r.repetitions);
    ParseFormatHundredths(r.ease);
    if r.lastReview.Some? {
      IsoRoundTrip(r.lastReview.value);
      assert |FormatIso(r.lastReview.value)| == 10;
    }
    DecodeFields(Encode(r), a, b, c, d, r);
  }

  /** A four-field token whose fields read back as the parts of `r` decodes to `r`. */
  lemma DecodeFields(s: string, a: string, b: string, c: string, d: string, r: Record)
    requires Split(s, ':') == [a, b, c, d]
    requires r.lastReview.None? ==> a == "none"
    requires r.lastReview.Some? ==> a != "none" && ParseIso(a) == Some(r.lastReview.value)
    requires ParseInt(b) == Some(r.interval) && ParseHundredths(c) == Some(r.ease)
    requires ParseInt(d) == Some(r.repetitions)
    ensures Decode(s) == Some(r)
  {
  }

  /** The legacy and sentinel forms: a three-field token has streak 0, the date
      `none` means never reviewed, any other date text is the ISO form of the
      decoded day, and fewer than three fields give the default record. */
  lemma DecodeForms(s: string)
    ensures var parts := Split(s, ':');
      && (|parts| < 3 ==> Decode(s) == Some(DefaultRecord))
      && (|parts| == 3 && Decode(s).Some? ==> Decode(s).value.repetitions == 0)
      && (|parts| >= 3 && Decode(s).Some? ==>
            (Decode(s).value.lastReview.None? <==> parts[0] == "none"))
      && (|parts| >= 3 && Decode(s).Some? && Decode(s).value.lastReview.Some? ==>
            FormatIso(Decode(s).value.lastReview.value) == parts[0])
  {
    var parts := Split(s, ':');
    if |parts| >= 3 && Decode(s).Some? && parts[0] != "none" {
      IsoCanonical(parts[0]);
    }
  }
}
