/** The dates of the older generation of commit elements: seconds since
    the epoch and a timezone, written `<seconds> ±HHMM`. */
module BackupDate {
  import opened Bytes
  import opened Nom
  import Decimal
  import Zone = Timezone

  datatype Elapsed = Elapsed(seconds: int)
  datatype Timezone = Timezone(minutes: int)
  datatype Date = Date(elapsed: Elapsed, tz: Timezone)

  /** `i64` seconds and a timezone whose text is made of `i64` parts. */
  predicate ValidDate(d: Date) {
    -(Decimal.I64_MAX as int) - 1 <= d.elapsed.seconds <= Decimal.I64_MAX && Zone.Fits(d.tz.minutes)
  }

  function SerialiseElapsed(e: Elapsed): (r: seq<byte>)
    ensures |r| >= 1 && (e.seconds >= 0 <==> AllDigits(r))
  {
    Decimal.RenderInt(e.seconds)
  }

  /** Elapsed reads an unsigned digit run that fits an `i64`. */
  function ParseElapsed(i: seq<byte>): (r: Parsed<Elapsed>)
    ensures r.Done? ==> 0 <= r.value.seconds <= Decimal.I64_MAX && |r.rest| < |i|
    ensures r.Incomplete? <==> |i| == 0
    ensures |i| >= 1 && !IsDigit(i[0]) ==> r.Error?
  {
    var (rest, v) :- Number(i, Decimal.I64_MAX);
    Done(rest, Elapsed(v))
  }

  /** A non-negative elapsed time reads back. */
  lemma ParseSerialiseElapsed(e: Elapsed, rest: seq<byte>)
    requires 0 <= e.seconds <= Decimal.I64_MAX
    requires |rest| == 0 || !IsDigit(rest[0])
    ensures ParseElapsed(SerialiseElapsed(e) + rest) == Done(rest, e)
  {
    NumberRender(e.seconds, Decimal.I64_MAX, rest);
  }

  /** A negative elapsed time is written with a minus sign, which the
      parser refuses. */
  lemma NegativeElapsedUnread(e: Elapsed, rest: seq<byte>)
    requires e.seconds < 0
    ensures ParseElapsed(SerialiseElapsed(e) + rest).Error?
  {
    assert (SerialiseElapsed(e) + rest)[0] == Decimal.MINUS;
  }

  /** `serialise` of a timezone: the sign, one `0` when the hours are
      below ten, then the `HHMM` clock number in plain decimal, so that UTC
      is the three bytes `+00`. */
  function SerialiseTimezone(tz: Timezone): (r: seq<byte>)
    requires Zone.Fits(tz.minutes)
    ensures |r| >= 3 && r[0] == Zone.SignByte(tz.minutes) && AllDigits(r[1..])
    ensures Decimal.Value(r[1..]) == Zone.Clock(Zone.Abs(tz.minutes))
  {
    Zone.TextAsWritten(tz.minutes)
  }

  function ParseTimezone(i: seq<byte>): (r: Parsed<Timezone>)
    ensures r.Done? ==> |r.rest| < |i|
    ensures r.Incomplete? <==> |i| == 0 || (|i| == 1 && (i[0] == Decimal.MINUS || i[0] == Decimal.PLUS))
  {
    var (rest, m) :- Zone.Parse(i);
    Done(rest, Timezone(m))
  }

  /** `parse(serialise(tz)) == tz`: minutes below 60 stay below 100, and
      the missing zeros do not change the number read. */
  lemma ParseSerialiseTimezone(tz: Timezone, rest: seq<byte>)
    requires Zone.Fits(tz.minutes)
    requires |rest| == 0 || !IsDigit(rest[0])
    ensures ParseTimezone(SerialiseTimezone(tz) + rest) == Done(rest, tz)
  {
    Zone.ParseTextAsWritten(tz.minutes, rest);
  }

  /** `<elapsed> <tz>` with exactly one space. */
  function Serialise(d: Date): (r: seq<byte>)
    requires ValidDate(d)
    ensures var n := |SerialiseElapsed(d.elapsed)|;
      n + 4 <= |r| && r[n] == SPACE && r[n + 1] == Zone.SignByte(d.tz.minutes) &&
      AllDigits(r[n + 2..]) && Decimal.Value(r[n + 2..]) == Zone.Clock(Zone.Abs(d.tz.minutes))
  {
    var e := SerialiseElapsed(d.elapsed);
    var t := SerialiseTimezone(d.tz);
    assert (e + [SPACE] + t)[|e| + 1..] == t;
    assert (e + [SPACE] + t)[|e| + 2..] == t[1..];
    e + [SPACE] + t
  }

  /** `provide_size`, the length of the Display text, which is the
      serialised text. */
  function ProvideSize(d: Date): (n: nat)
    requires ValidDate(d)
    ensures n == |SerialiseElapsed(d.elapsed)| + 1 + |SerialiseTimezone(d.tz)|
  {
    |Serialise(d)|
  }

  /** `nom_parse_date`: elapsed, one space, timezone. */
  function Parse(i: seq<byte>): (r: Parsed<Date>)
    ensures r.Done? ==> r.value.elapsed.seconds >= 0 && |r.rest| < |i|
    ensures |i| >= 1 && !IsDigit(i[0]) ==> r.Error?
  {
    var (i1, elapsed) :- ParseElapsed(i);
    var (i2, _) :- Shift(Tag(i1, [SPACE]), |i| - |i1|);
    var (i3, tz) :- Shift(ParseTimezone(i2), |i| - |i2|);
    Done(i3, Date(elapsed, tz))
  }

  /** A date with a non-negative elapsed time reads back. */
  lemma ParseSerialise(d: Date, rest: seq<byte>)
    requires ValidDate(d) && d.elapsed.seconds >= 0
    requires |rest| == 0 || !IsDigit(rest[0])
    ensures Parse(Serialise(d) + rest) == Done(rest, d)
  {
    var e := SerialiseElapsed(d.elapsed);
    var t := SerialiseTimezone(d.tz);
    var i2 := t + rest;
    var i1 := [SPACE] + i2;
    assert Serialise(d) + rest == e + i1 by {
      Regroup3(e, [SPACE], t, rest);
      assert [SPACE] + t + rest == i1;
    }
    ParseSerialiseElapsed(d.elapsed, i1);
    TagPrefix([SPACE], i2);
    ParseSerialiseTimezone(d.tz, rest);
    ParseSteps(e + i1, i1, i2, rest, d);
  }

  /** The date parser is the elapsed time, the space, then the zone. */
  lemma ParseSteps(i: seq<byte>, i1: seq<byte>, i2: seq<byte>, rest: seq<byte>, d: Date)
    requires ParseElapsed(i) == Done(i1, d.elapsed)
    requires Tag(i1, [SPACE]) == Done(i2, [SPACE])
    requires ParseTimezone(i2) == Done(rest, d.tz)
    ensures Parse(i) == Done(rest, d)
  {
    assert Shift(Tag(i1, [SPACE]), |i| - |i1|) == Done(i2, [SPACE]);
    assert Shift(ParseTimezone(i2), |i| - |i2|) == Done(rest, d.tz);
  }
}
