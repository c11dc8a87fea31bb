/** The dates of the newer generation of commit elements: a timezone in
    minutes and seconds since the epoch, written `<seconds> ±HHMM`. The
    Display text, `<seconds>s <minutes>`, is a different, debugging
    form. */
module ElementsDate {
  import opened Bytes
  import opened Nom
  import Decimal
  import Zone = Timezone

  /** The constructor takes the timezone first, as `Date::new` does. */
  datatype Date = Date(tz: int, elapsed: int)

  predicate ValidDate(d: Date) {
    -(Decimal.I64_MAX as int) - 1 <= d.elapsed <= Decimal.I64_MAX && Zone.Fits(d.tz)
  }

  /** `serialise`: the elapsed seconds, a space, the sign, one `0` when
      the hours are below ten, then the `HHMM` clock number in plain
      decimal. */
  function Serialise(d: Date): (r: seq<byte>)
    requires ValidDate(d)
    ensures var n := |Decimal.RenderInt(d.elapsed)|;
      n + 4 <= |r| && r[n] == SPACE && r[n + 1] == Zone.SignByte(d.tz) &&
      AllDigits(r[n + 2..]) && Decimal.Value(r[n + 2..]) == Zone.Clock(Zone.Abs(d.tz))
    ensures d.elapsed >= 0 ==> IsDigit(r[0])
  {
    var e := Decimal.RenderInt(d.elapsed);
    var t := Zone.TextAsWritten(d.tz);
    assert (e + [SPACE] + t)[|e| + 1..] == t;
    assert (e + [SPACE] + t)[|e| + 2..] == t[1..];
    e + [SPACE] + t
  }

  /** Offsets below one hour lose their leading zeros: the epoch at UTC is
      written `0 +00`, five bytes, where git writes and hashes `0 +0000`. */
  lemma SerialiseDropsZeros()
    ensures ValidDate(Date(0, 0))
    ensures Serialise(Date(0, 0)) == [48, SPACE, Decimal.PLUS, 48, 48]
    ensures SerialiseGit(Date(0, 0)) == [48, SPACE, Decimal.PLUS, 48, 48, 48, 48]
  {
    Zone.TextAsWrittenSmall(0);
    Zone.TextUtc();
    var e := Decimal.RenderInt(0);
    assert e == [48];
    assert Serialise(Date(0, 0)) == e + [SPACE] + Zone.TextAsWritten(0);
    assert SerialiseGit(Date(0, 0)) == e + [SPACE] + Zone.Text(0);
  }

  /** The text git writes: `<elapsed> ±HHMM`, hours and minutes each
      padded to two digits. */
  function SerialiseGit(d: Date): (r: seq<byte>)
    requires ValidDate(d)
    ensures |r| >= 7
    ensures Zone.Abs(d.tz) < 100 * Zone.MINUTES_PER_HOUR ==> |r| == |Decimal.RenderInt(d.elapsed)| + 6
  {
    Decimal.RenderInt(d.elapsed) + [SPACE] + Zone.Text(d.tz)
  }

  /** The git text of a date with a non-negative elapsed time reads back
      too. */
  lemma ParseSerialiseGit(d: Date, rest: seq<byte>)
    requires ValidDate(d) && d.elapsed >= 0
    requires |rest| == 0 || !IsDigit(rest[0])
    ensures Parse(SerialiseGit(d) + rest) == Done(rest, d)
  {
    Zone.ParseText(d.tz, rest);
    ParseParts(d, Zone.Text(d.tz), rest);
  }

  /** `Display`: `<elapsed>s <tz>`, both numbers in plain decimal. */
  function Display(d: Date): (r: seq<byte>)
    ensures var n := |Decimal.RenderInt(d.elapsed)|;
      n + 3 <= |r| && r[n] == 115 && r[n + 1] == SPACE &&
      (d.tz >= 0 ==> AllDigits(r[n + 2..]) && Decimal.Value(r[n + 2..]) == d.tz)
  {
    var e := Decimal.RenderInt(d.elapsed);
    var z := Decimal.RenderInt(d.tz);
    assert (e + [115, SPACE] + z)[|e| + 2..] == z;
    e + [115, SPACE] + z
  }

  /** The Display text is never the serialised text: it marks the
      seconds with `s` where `serialise` writes the space. */
  lemma DisplayIsNotSerialise(d: Date)
    requires ValidDate(d)
    ensures Display(d) != Serialise(d)
  {
    var n := |Decimal.RenderInt(d.elapsed)|;
    assert Display(d)[n] != Serialise(d)[n];
  }

  /** `provide_size` as written: the length of the Display text. */
  function ProvideSizeAsWritten(d: Date): (n: nat)
    ensures n == |Decimal.RenderInt(d.elapsed)| + 2 + |Decimal.RenderInt(d.tz)|
  {
    |Display(d)|
  }

  /** A one-hour offset at the epoch: the size announced is 5 ("0s 60")
      while 7 bytes ("0 +0100") are written. */
  lemma ProvideSizeMiscounts()
    ensures ValidDate(Date(60, 0))
    ensures ProvideSizeAsWritten(Date(60, 0)) == 5
    ensures |Serialise(Date(60, 0))| == 7
  {
    assert Decimal.Render(0) == [48];
    assert Decimal.Render(6) == [54];
    assert Decimal.Render(60) == Decimal.Render(6) + [48];
    assert Zone.Clock(60) == 100;
  }

  /** `provide_size` counting what `serialise` writes, as every other
      element does. */
  function ProvideSize(d: Date): (n: nat)
    requires ValidDate(d)
    ensures n == |Decimal.RenderInt(d.elapsed)| + 1 + |Zone.TextAsWritten(d.tz)|
    ensures n == |Serialise(d)|
  {
    |Decimal.RenderInt(d.elapsed)| + 1 + |Zone.TextAsWritten(d.tz)|
  }

  /** `nom_parse_date`: a digit run, one space, a sign and a digit run;
      the date is built timezone first. */
  function Parse(i: seq<byte>): (r: Parsed<Date>)
    ensures r.Done? ==> 0 <= r.value.elapsed <= Decimal.I64_MAX && |r.rest| < |i|
    ensures |i| >= 1 && !IsDigit(i[0]) ==> r.Error?
  {
    var (i1, time) :- Number(i, Decimal.I64_MAX);
    var (i2, _) :- Shift(Tag(i1, [SPACE]), |i| - |i1|);
    var (i3, tz) :- Shift(Zone.Parse(i2), |i| - |i2|);
    Done(i3, Date(tz, time))
  }

  /** A date with a non-negative elapsed time reads back. */
  lemma ParseSerialise(d: Date, rest: seq<byte>)
    requires ValidDate(d) && d.elapsed >= 0
    requires |rest| == 0 || !IsDigit(rest[0])
    ensures Parse(Serialise(d) + rest) == Done(rest, d)
  {
    Zone.ParseTextAsWritten(d.tz, rest);
    ParseParts(d, Zone.TextAsWritten(d.tz), rest);
  }

  /** A non-negative elapsed time, a space and any text the zone reader
      takes read as the date. */
  lemma ParseParts(d: Date, t: seq<byte>, rest: seq<byte>)
    requires 0 <= d.elapsed <= Decimal.I64_MAX
    requires Zone.Parse(t + rest) == Done(rest, d.tz)
    ensures Parse(Decimal.RenderInt(d.elapsed) + [SPACE] + t + rest) == Done(rest, d)
  {
    var e := Decimal.RenderInt(d.elapsed);
    var i2 := t + rest;
    var i1 := [SPACE] + i2;
    var i := e + i1;
    assert e + [SPACE] + t + rest == i by {
      Regroup3(e, [SPACE], t, rest);
    }
    NumberRender(d.elapsed, Decimal.I64_MAX, i1);
    TagPrefix([SPACE], i2);
    assert Shift(Tag(i1, [SPACE]), |i| - |i1|) == Done(i2, [SPACE]);
    assert Shift(Zone.Parse(i2), |i| - |i2|) == Done(rest, d.tz);
  }
}
