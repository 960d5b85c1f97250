/** `format_duration`: a video length in seconds rendered as `HH:MM:SS` or
    `MM:SS`, or a fixed placeholder when the length is unknown. */
module Duration {
  import opened Wrappers
  import opened Text
  import opened Decimal

  /** The placeholder shown when the duration is zero or missing
      ("unspecified" in the bot's Arabic interface). */
  const Unspecified: string := "غير محدد"

  /** Hours, minutes and seconds of a duration. Minutes and seconds are
      always below 60; hours is whatever is left and, following Python's
      floor division, negative for a negative duration. */
  datatype Clock = Clock(hours: int, minutes: nat, seconds: nat)

  /** Python's `s // 3600`, `(s % 3600) // 60` and `s % 60`. For the positive
      divisors used here Python's floor division coincides with Dafny's
      Euclidean division. */
  function Decompose(s: int): (c: Clock)
    ensures c.hours * 3600 + c.minutes * 60 + c.seconds == s
    ensures c.minutes < 60 && c.seconds < 60
    ensures c.hours > 0 <==> s >= 3600
  {
    var rem := s % 3600;
    SecondsOfRemainder(s);
    Clock(s / 3600, rem / 60, s % 60)
  }

  /** Euclidean division by 60 is unique: a quotient and a remainder in range
      are the ones `/` and `%` compute. */
  lemma DivMod60Unique(s: int, q: int, r: int)
    requires s == q * 60 + r && 0 <= r < 60
    ensures s / 60 == q && s % 60 == r
  {
  }

  /** The seconds of the remainder modulo an hour are the seconds of the
      whole duration. */
  lemma SecondsOfRemainder(s: int)
    ensures (s % 3600) % 60 == s % 60
  {
    var rem := s % 3600;
    assert s == (s / 3600) * 3600 + rem;
    assert rem == (rem / 60) * 60 + rem % 60;
    DivMod60Unique(s, (s / 3600) * 60 + rem / 60, rem % 60);
  }

  /** Python's truthiness of the `duration` value: `None` and `0` are false. */
  predicate IsKnown(d: Option<int>) {
    d.Some? && d.value != 0
  }

  /** The `f"{hours:02d}:{minutes:02d}:{seconds:02d}"` and
      `f"{minutes:02d}:{seconds:02d}"` renderings, the first chosen when
      there is at least one hour. */
  function RenderClock(c: Clock): (r: string)
    ensures |r| > 0 && IsDigit(r[0])
  {
    if c.hours > 0 then Pad2(c.hours) + [':'] + Pad2(c.minutes) + [':'] + Pad2(c.seconds)
    else Pad2(c.minutes) + [':'] + Pad2(c.seconds)
  }

  /** `format_duration(seconds)`. */
  function FormatDuration(d: Option<int>): (r: string)
    ensures !IsKnown(d) <==> r == Unspecified
  {
    if !IsKnown(d) then Unspecified
    else
      var r := RenderClock(Decompose(d.value));
      assert r[0] != Unspecified[0];
      r
  }

  /** Reads back a rendered clock: two or three colon-separated decimal fields,
      the first being hours when there are three. Anything else reads as
      nothing. */
  function ParseClock(text: string): (r: Option<int>)
  {
    var fields := Split(text, ':');
    if |fields| == 2 then
      match (ParseNat(fields[0]), ParseNat(fields[1]))
      case (Some(m), Some(s)) => Some(m * 60 + s)
      case _ => None
    else if |fields| == 3 then
      match (ParseNat(fields[0]), ParseNat(fields[1]), ParseNat(fields[2]))
      case (Some(h), Some(m), Some(s)) => Some(h * 3600 + m * 60 + s)
      case _ => None
    else None
  }

  /** The placeholder contains no digit, so it is never mistaken for a time. */
  lemma UnspecifiedHasNoDigits()
    ensures forall i :: 0 <= i < |Unspecified| ==> !IsDigit(Unspecified[i])
    ensures ParseClock(Unspecified) == None
  {
    assert ':' !in Unspecified;
    SplitWithoutSeparator(Unspecified, ':');
  }

  /** The pieces a known duration's rendering splits into at `:`. */
  function ClockFields(c: Clock): seq<string>
  {
    if c.hours > 0 then [Pad2(c.hours), Pad2(c.minutes), Pad2(c.seconds)]
    else [Pad2(c.minutes), Pad2(c.seconds)]
  }

  /** Two colon-free fields joined by one colon split back into those fields. */
  lemma SplitTwoFields(a: string, b: string)
    requires ':' !in a && ':' !in b
    ensures Split(a + [':'] + b, ':') == [a, b]
  {
    SplitAtSeparator(a, ':', b);
    SplitWithoutSeparator(a, ':');
    SplitWithoutSeparator(b, ':');
  }

  /** Three colon-free fields joined by colons split back into those fields. */
  lemma SplitThreeFields(a: string, b: string, c: string)
    requires ':' !in a && ':' !in b && ':' !in c
    ensures Split(a + [':'] + b + [':'] + c, ':') == [a, b, c]
  {
    var tail := b + [':'] + c;
    assert a + [':'] + b + [':'] + c == a + [':'] + tail;
    SplitAtSeparator(a, ':', tail);
    SplitWithoutSeparator(a, ':');
    SplitTwoFields(b, c);
  }

  /** A field of digits holds no colon. */
  lemma DigitsHaveNoColon(s: string)
    requires AllDigits(s)
    ensures ':' !in s
  {
  }

  lemma SplitRenderClock(c: Clock)
    ensures Split(RenderClock(c), ':') == ClockFields(c)
  {
    DigitsHaveNoColon(Pad2(c.minutes));
    DigitsHaveNoColon(Pad2(c.seconds));
    if c.hours > 0 {
      DigitsHaveNoColon(Pad2(c.hours));
      SplitThreeFields(Pad2(c.hours), Pad2(c.minutes), Pad2(c.seconds));
    } else {
      SplitTwoFields(Pad2(c.minutes), Pad2(c.seconds));
    }
  }

  lemma SplitFormatDuration(s: int)
    requires s != 0
    ensures Split(FormatDuration(Some(s)), ':') == ClockFields(Decompose(s))
  {
    SplitRenderClock(Decompose(s));
  }

  /** The fields of a known duration's rendering: three when the duration
      reaches an hour, two otherwise, each at least two digits long. The
      last two fields are the minutes and the seconds, both below 60. */
  lemma {:induction false} FormatDurationFields(s: int)
    requires s != 0
    ensures var fields := Split(FormatDuration(Some(s)), ':');
            && |fields| == (if s >= 3600 then 3 else 2)
            && (forall i :: 0 <= i < |fields| ==> |fields[i]| >= 2 && AllDigits(fields[i]))
            && DigitsValue(fields[|fields| - 1]) == Decompose(s).seconds < 60
            && DigitsValue(fields[|fields| - 2]) == Decompose(s).minutes < 60
  {
    SplitFormatDuration(s);
  }

  /** Round trip: reading back the rendering of a positive duration gives the
      duration itself. */
  lemma {:induction false} ParseFormatDuration(s: int)
    requires s > 0
    ensures ParseClock(FormatDuration(Some(s))) == Some(s)
  {
    SplitFormatDuration(s);
    var c := Decompose(s);
    ParseNatPad2(c.minutes);
    ParseNatPad2(c.seconds);
    if c.hours > 0 {
      ParseNatPad2(c.hours);
    }
  }

  /** A negative duration is rendered as `MM:SS` of its remainder modulo an
      hour: Python's floor division makes the hours negative, so the hours
      field is dropped. */
  lemma {:induction false} ParseFormatNegativeDuration(s: int)
    requires s < 0
    ensures ParseClock(FormatDuration(Some(s))) == Some(s % 3600)
  {
    SplitFormatDuration(s);
    var c := Decompose(s);
    ParseNatPad2(c.minutes);
    ParseNatPad2(c.seconds);
    assert c.minutes * 60 + c.seconds == s % 3600 by {
      assert s == (s / 3600) * 3600 + s % 3600;
    }
  }
}
