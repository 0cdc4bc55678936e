/** The `Timestamp` value of subtitlegen: hours, minutes, seconds and milliseconds, its
    conversions to and from a millisecond count, the legacy `MM:SS:ll` parser, `+`,
    and the SubRip rendering `HH:MM:SS,mmm`. */
module Timestamps {
  import opened Failures
  import opened Decimal

  const MsPerSecond := 1000
  const MsPerMinute := 60 * 1000
  const MsPerHour := 60 * 60 * 1000
  /** 59:59:59,999, the largest count `from_ms` accepts. */
  const MaxMs := 215999999

  /** Fields are Python integers; nothing in the type bounds them. */
  datatype Timestamp = Timestamp(hours: int, minutes: int, seconds: int, milliseconds: int)

  /** The shape of every Timestamp the parser or `from_ms` produces: minutes, seconds and
      milliseconds in range, hours at most 59 (and negative only for a negative count). */
  predicate Normal(t: Timestamp) {
    && t.hours <= 59
    && 0 <= t.minutes < 60
    && 0 <= t.seconds < 60
    && 0 <= t.milliseconds < 1000
  }

  /** `to_ms`: the linear sum of the fields. */
  function ToMs(t: Timestamp): int {
    t.milliseconds + 1000 * t.seconds + 1000 * 60 * t.minutes + 1000 * 60 * 60 * t.hours
  }

  /** `from_ms`: floor division by an hour, a minute and a second in turn. Only counts above
      MaxMs are refused; a negative count gives negative hours. */
  function FromMs(ms: int): (r: Result<Timestamp>)
    ensures r.Ok? <==> ms <= MaxMs
    ensures r.Err? ==> r.error == OutOfRange
    ensures r.Ok? ==> Normal(r.value) && ToMs(r.value) == ms
    ensures r.Ok? ==> (0 <= r.value.hours <==> 0 <= ms)
  {
    if ms > MaxMs then Err(OutOfRange)
    else
      var belowHour := ms % MsPerHour;
      var belowMinute := belowHour % MsPerMinute;
      Ok(Timestamp(ms / MsPerHour, belowHour / MsPerMinute, belowMinute / MsPerSecond, belowMinute % MsPerSecond))
  }

  /** `from_ms` as the source runs it: a default Timestamp whose fields are assigned one by
      one while the remaining count is reduced. */
  method FromMsSteps(milliseconds: int) returns (r: Result<Timestamp>)
    ensures r == FromMs(milliseconds)
  {
    var ts := Timestamp(0, 0, 0, 0);
    var current := milliseconds;
    if current > MaxMs {
      return Err(OutOfRange);
    }
    ts := ts.(hours := current / MsPerHour);
    current := current - ts.hours * MsPerHour;
    ts := ts.(minutes := current / MsPerMinute);
    current := current - ts.minutes * MsPerMinute;
    ts := ts.(seconds := current / MsPerSecond);
    current := current - ts.seconds * MsPerSecond;
    ts := ts.(milliseconds := current);
    return Ok(ts);
  }

  /** The decomposition of a count into normal fields is unique, so `from_ms` undoes `to_ms`. */
  lemma FromMsToMs(t: Timestamp)
    requires Normal(t)
    ensures FromMs(ToMs(t)) == Ok(t)
  {
    var ms := ToMs(t);
    var belowHour := t.milliseconds + 1000 * t.seconds + 60000 * t.minutes;
    assert 0 <= belowHour < MsPerHour;
    assert ms == MsPerHour * t.hours + belowHour;
    assert ms / MsPerHour == t.hours;
    assert ms % MsPerHour == belowHour;
    var belowMinute := t.milliseconds + 1000 * t.seconds;
    assert belowHour % MsPerMinute == belowMinute;
    assert belowHour / MsPerMinute == t.minutes;
    assert belowMinute / MsPerSecond == t.seconds;
    assert belowMinute % MsPerSecond == t.milliseconds;
  }

  /** Normal timestamps are told apart by their millisecond counts. */
  lemma ToMsInjective(t: Timestamp, u: Timestamp)
    requires Normal(t) && Normal(u) && ToMs(t) == ToMs(u)
    ensures t == u
  {
  }

  /** The range of `to_ms` over normal timestamps is exactly what `from_ms` accepts. */
  lemma NormalToMsBound(t: Timestamp)
    requires Normal(t)
    ensures ToMs(t) <= MaxMs
    ensures 0 <= ToMs(t) <==> 0 <= t.hours
  {
  }

  // ---------------------------------------------------------------- parsing

  predicate IsLeadDigit(c: char) {
    '0' <= c <= '5'
  }

  /** `[0-5][0-9]` at position k. */
  predicate FieldAt(s: string, k: nat)
    requires k + 2 <= |s|
  {
    IsLeadDigit(s[k]) && IsDigit(s[k + 1])
  }

  /** `re.match('([0-5][0-9]):([0-5][0-9]):([0-5][0-9])', s)`: anchored at the start,
      nothing required after the eighth character. */
  predicate MatchesPattern(s: string) {
    && |s| >= 8
    && FieldAt(s, 0) && s[2] == ':'
    && FieldAt(s, 3) && s[5] == ':'
    && FieldAt(s, 6)
  }

  /** `int()` of a matched two-digit group. */
  function FieldValue(s: string, k: nat): (v: int)
    requires k + 2 <= |s| && FieldAt(s, k)
    ensures 0 <= v < 60
    ensures v == 10 * DigitValue(s[k]) + DigitValue(s[k + 1])
  {
    TwoDigitValue(s[k..k + 2]);
    Value(s[k..k + 2])
  }

  /** The `Timestamp(value)` constructor: the three groups become minutes, seconds and
      milliseconds, and hours are 0. */
  function Parse(text: string): (r: Result<Timestamp>)
    ensures r.Ok? <==> MatchesPattern(text)
    ensures r.Err? ==> r.error == Unparsable
    ensures r.Ok? ==> Normal(r.value) && r.value.hours == 0 && r.value.milliseconds < 60
    ensures r.Ok? ==> ToMs(r.value) == Value(text[6..8]) + 1000 * Value(text[3..5]) + 60000 * Value(text[0..2])
  {
    if MatchesPattern(text) then
      Ok(Timestamp(0, FieldValue(text, 0), FieldValue(text, 3), FieldValue(text, 6)))
    else
      Err(Unparsable)
  }

  /** The default argument of the constructor denotes zero. */
  lemma DefaultIsZero()
    ensures Parse("00:00:00") == Ok(Timestamp(0, 0, 0, 0))
  {
  }

  /** Only the first eight characters are read: anything may follow them. */
  lemma ParseIgnoresRest(head: string, rest: string)
    requires |head| == 8
    ensures Parse(head + rest) == Parse(head)
  {
  }

  /** A parsed timestamp is unchanged by a round trip through its millisecond count,
      `from_ms(to_ms(...))`. */
  lemma ParsedIsNormalized(text: string)
    requires Parse(text).Ok?
    ensures FromMs(ToMs(Parse(text).value)) == Parse(text)
  {
    FromMsToMs(Parse(text).value);
  }

  /** The CSV token the parser was written for, `MM:SS:ll`, rendered from the
      minutes, seconds and milliseconds of a timestamp. */
  function LegacyText(t: Timestamp): string {
    Padded(t.minutes, 2) + ":" + Padded(t.seconds, 2) + ":" + Padded(t.milliseconds, 2)
  }

  /** A two-digit rendering of a number below 60 is a `[0-5][0-9]` field worth that number. */
  lemma PaddedField(x: int)
    requires 0 <= x < 60
    ensures |Padded(x, 2)| == 2 && FieldAt(Padded(x, 2), 0)
    ensures Value(Padded(x, 2)) == x
  {
    PaddedReadsBack(x, 2);
    TwoDigitValue(Padded(x, 2));
  }

  /** Every `[0-5][0-9]` field is the two-digit rendering of its value. */
  lemma FieldIsPadded(s: string, k: nat)
    requires k + 2 <= |s| && FieldAt(s, k)
    ensures s[k..k + 2] == Padded(FieldValue(s, k), 2)
  {
    var v := FieldValue(s, k);
    var p := Padded(v, 2);
    PaddedField(v);
    TwoDigitValue(p);
    assert DigitValue(p[0]) == DigitValue(s[k]) && DigitValue(p[1]) == DigitValue(s[k + 1]) by {
      assert 0 <= DigitValue(p[1]) < 10 && 0 <= DigitValue(s[k + 1]) < 10;
    }
  }

  /** The legacy token of a parsed timestamp, followed by anything, parses back to it. */
  lemma ParseLegacyText(t: Timestamp, rest: string)
    requires t.hours == 0 && 0 <= t.minutes < 60 && 0 <= t.seconds < 60 && 0 <= t.milliseconds < 60
    ensures Parse(LegacyText(t) + rest) == Ok(t)
  {
    var mm, ss, ll := Padded(t.minutes, 2), Padded(t.seconds, 2), Padded(t.milliseconds, 2);
    PaddedField(t.minutes);
    PaddedField(t.seconds);
    PaddedField(t.milliseconds);
    var s := LegacyText(t) + rest;
    assert s[0..2] == mm && s[3..5] == ss && s[6..8] == ll && s[2] == ':' && s[5] == ':' by {
      assert s == mm + ":" + ss + ":" + ll + rest;
    }
    assert MatchesPattern(s) by {
      assert s[0] == mm[0] && s[1] == mm[1];
      assert s[3] == ss[0] && s[4] == ss[1];
      assert s[6] == ll[0] && s[7] == ll[1];
    }
  }

  /** Conversely, text parses only when it begins with the legacy token of its result. */
  lemma ParseOnlyLegacyText(text: string)
    requires Parse(text).Ok?
    ensures |text| >= 8 && text[..8] == LegacyText(Parse(text).value)
  {
    FieldIsPadded(text, 0);
    FieldIsPadded(text, 3);
    FieldIsPadded(text, 6);
    assert text[..8] == text[0..2] + [':'] + text[3..5] + [':'] + text[6..8];
  }

  // ---------------------------------------------------------------- addition

  /** The right operand of `+`, by its Python type (a bool is an int there). */
  datatype Operand = IntOperand(i: int) | TimestampOperand(t: Timestamp) | OtherOperand

  /** The millisecond count an accepted operand contributes. */
  function OperandMs(a: Operand): int {
    match a
    case IntOperand(i) => i
    case TimestampOperand(u) => ToMs(u)
    case OtherOperand => 0
  }

  /** `__add__`: integers are milliseconds, timestamps count by `to_ms`; the sum goes back
      through `from_ms`. */
  function Add(t: Timestamp, other: Operand): (r: Result<Timestamp>)
    ensures r.Ok? <==> !other.OtherOperand? && ToMs(t) + OperandMs(other) <= MaxMs
    ensures r.Ok? ==> Normal(r.value) && ToMs(r.value) == ToMs(t) + OperandMs(other)
    ensures r.Err? ==> r.error == if other.OtherOperand? then BadOperand else OutOfRange
  {
    match other
    case IntOperand(i) => FromMs(ToMs(t) + i)
    case TimestampOperand(u) => FromMs(ToMs(t) + ToMs(u))
    case OtherOperand => Err(BadOperand)
  }

  /** Adding zero milliseconds leaves a normal timestamp as it is. */
  lemma AddZero(t: Timestamp)
    requires Normal(t)
    ensures Add(t, IntOperand(0)) == Ok(t)
  {
    FromMsToMs(t);
  }

  /** Adding timestamps is commutative, and adding a timestamp is adding its count. */
  lemma AddTimestampIsAddCount(t: Timestamp, u: Timestamp)
    ensures Add(t, TimestampOperand(u)) == Add(u, TimestampOperand(t))
    ensures Add(t, TimestampOperand(u)) == Add(t, IntOperand(ToMs(u)))
  {
  }

  /** Two additions in a row are one addition of the sum, whenever the first succeeds. */
  lemma AddTwice(t: Timestamp, a: int, b: int)
    requires Add(t, IntOperand(a)).Ok?
    ensures Add(Add(t, IntOperand(a)).value, IntOperand(b)) == Add(t, IntOperand(a + b))
  {
  }

  /** `ONE_MILLISECOND`. */
  const OneMillisecond: Timestamp := Timestamp(0, 0, 0, 1)

  lemma OneMillisecondIsFromMs()
    ensures FromMs(1) == Ok(OneMillisecond)
  {
    assert ToMs(OneMillisecond) == 1;
    FromMsToMs(OneMillisecond);
  }

  // ---------------------------------------------------------------- rendering

  /** `__str__`: `'{:02d}:{:02d}:{:02d},{:03d}'` of the four fields. */
  function Format(t: Timestamp): string {
    Padded(t.hours, 2) + ":" + Padded(t.minutes, 2) + ":" + Padded(t.seconds, 2) + "," + Padded(t.milliseconds, 3)
  }

  /** A normal timestamp with non-negative hours renders in 12 characters
      `HH:MM:SS,mmm` whose digit groups read back as its fields. */
  lemma FormatReadsBack(t: Timestamp)
    requires Normal(t) && 0 <= t.hours
    ensures var s := Format(t);
      && |s| == 12 && s[2] == ':' && s[5] == ':' && s[8] == ','
      && AllDigits(s[0..2]) && AllDigits(s[3..5]) && AllDigits(s[6..8]) && AllDigits(s[9..12])
      && Value(s[0..2]) == t.hours && Value(s[3..5]) == t.minutes
      && Value(s[6..8]) == t.seconds && Value(s[9..12]) == t.milliseconds
  {
    PaddedReadsBack(t.hours, 2);
    PaddedReadsBack(t.minutes, 2);
    PaddedReadsBack(t.seconds, 2);
    PaddedReadsBack(t.milliseconds, 3);
    var s := Format(t);
    assert s[0..2] == Padded(t.hours, 2);
    assert s[3..5] == Padded(t.minutes, 2);
    assert s[6..8] == Padded(t.seconds, 2);
    assert s[9..12] == Padded(t.milliseconds, 3);
  }

  /** So the rendering tells such timestamps apart. */
  lemma FormatInjective(t: Timestamp, u: Timestamp)
    requires Normal(t) && 0 <= t.hours && Normal(u) && 0 <= u.hours
    requires Format(t) == Format(u)
    ensures t == u
  {
    FormatReadsBack(t);
    FormatReadsBack(u);
  }

  /** Parsing a rendering does not give the timestamp back: the parser reads the hours,
      minutes and seconds groups as minutes, seconds and milliseconds. */
  lemma ParseFormatShifts(t: Timestamp)
    requires Normal(t) && 0 <= t.hours
    ensures Parse(Format(t)) == Ok(Timestamp(0, t.hours, t.minutes, t.seconds))
  {
    FormatReadsBack(t);
    var s := Format(t);
    assert s[..8] == LegacyText(Timestamp(0, t.hours, t.minutes, t.seconds));
    ParseLegacyText(Timestamp(0, t.hours, t.minutes, t.seconds), s[8..]);
    assert s == s[..8] + s[8..];
  }

  /** The only normal timestamp that survives rendering and parsing is zero. */
  lemma ParseFormatFixesOnlyZero(t: Timestamp)
    requires Normal(t) && 0 <= t.hours
    ensures Parse(Format(t)) == Ok(t) <==> t == Timestamp(0, 0, 0, 0)
  {
    ParseFormatShifts(t);
  }

  /** The example of the module documentation: CSV token `34:39:00` is `00:34:39,000`. */
  lemma DocumentationExample()
    ensures Parse("34:39:00").Ok?
    ensures Format(Parse("34:39:00").value) == "00:34:39,000"
  {
    var t := Timestamp(0, 34, 39, 0);
    assert Padded(34, 2) == "34" && Padded(39, 2) == "39" by {
      assert Digits(34) == "34";
      assert Digits(39) == "39";
    }
    assert Padded(0, 2) == "00" && Padded(0, 3) == "000" by {
      assert Digits(0) == "0";
    }
    assert Parse("34:39:00") == Ok(t) by {
      assert "34:39:00" == LegacyText(t) + [];
      ParseLegacyText(t, []);
    }
    assert Format(t) == "00:34:39,000";
  }
}
