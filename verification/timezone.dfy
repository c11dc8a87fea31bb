/** Timezone offsets as git writes them after a timestamp: a sign and the
    offset as hours and minutes, `+HHMM` or `-HHMM`. The model keeps the
    offset as signed minutes, as every generation of the object code
    does. */
module Timezone {
  import opened Bytes
  import opened Nom
  import Decimal

  const MINUTES_PER_HOUR: nat := 60

  function Abs(tz: int): nat { if tz < 0 then -tz else tz }

  /** The `HHMM` number of an offset of `minutes`: hours times a hundred
      plus the remaining minutes. */
  function Clock(minutes: nat): (x: nat)
    ensures x % 100 < MINUTES_PER_HOUR && x / 100 == minutes / MINUTES_PER_HOUR
    ensures x >= minutes
  {
    (minutes / 60) * 100 + minutes % 60
  }

  /** The parser's reading of a `HHMM` number: hundreds are hours. */
  function Minutes(x: nat): nat {
    (x / 100) * 60 + x % 100
  }

  /** Reading a clock number gives back the minutes. */
  lemma MinutesClock(minutes: nat)
    ensures Minutes(Clock(minutes)) == minutes
  {
  }

  /** A clock number whose last two digits are below 60 is the clock of
      the minutes it reads as. */
  lemma ClockMinutes(x: nat)
    requires x % 100 < MINUTES_PER_HOUR
    ensures Clock(Minutes(x)) == x
  {
    var h := x / 100;
    var m := x % 100;
    assert Minutes(x) == h * 60 + m;
    assert (h * 60 + m) / 60 == h && (h * 60 + m) % 60 == m;
  }

  /** An offset whose negation and clock number are `i64` values. */
  predicate Fits(tz: int) {
    Clock(Abs(tz)) <= Decimal.I64_MAX
  }

  function SignByte(tz: int): byte {
    if tz < 0 then Decimal.MINUS else Decimal.PLUS
  }

  /** The text written as the source does it: the sign, a "0" when the
      hours are below ten, then the clock number in decimal. It is never
      shorter than three bytes and is git's five bytes from ten hours
      up to a hundred. */
  function TextAsWritten(tz: int): (r: seq<byte>)
    ensures |r| >= 3 && r[0] == SignByte(tz) && AllDigits(r[1..])
    ensures Abs(tz) >= 10 * MINUTES_PER_HOUR ==> |r| >= 5
    ensures Decimal.Value(r[1..]) == Clock(Abs(tz))
  {
    var r := Abs(tz);
    var h := r / 60;
    var pad: seq<byte> := if h < 10 then [48] else [];
    var digits := pad + Decimal.Render(Clock(r));
    assert Decimal.Value(digits) == Clock(r) by {
      if h < 10 {
        Decimal.ValueLeadingZero(Decimal.Render(Clock(r)));
      } else {
        assert digits == Decimal.Render(Clock(r));
      }
    }
    assert ([SignByte(tz)] + digits)[1..] == digits;
    [SignByte(tz)] + digits
  }

  /** Offsets below one hour lose their leading zeros: UTC is written
      "+00", not the "+0000" git writes and hashes. */
  lemma TextAsWrittenDropsZeros()
    ensures TextAsWritten(0) == [Decimal.PLUS, 48, 48]
    ensures TextAsWritten(5) == [Decimal.PLUS, 48, 53]
    ensures Text(0) == [Decimal.PLUS, 48, 48, 48, 48]
  {
    TextAsWrittenSmall(0);
    TextAsWrittenSmall(5);
    TextUtc();
  }

  /** git's text of UTC. */
  lemma TextUtc()
    ensures Text(0) == [Decimal.PLUS, 48, 48, 48, 48]
  {
    var z: nat := 0;
    assert z / 60 == 0 && z % 60 == 0;
    var d := Digits2(0);
    assert d == [48, 48];
    assert Hours(0) == d;
    assert SignByte(0) == Decimal.PLUS;
    assert Text(0) == [Decimal.PLUS] + d + d;
  }

  /** Below ten minutes east the text is the sign, one zero and one digit. */
  lemma TextAsWrittenSmall(tz: int)
    requires 0 <= tz < 10
    ensures TextAsWritten(tz) == [Decimal.PLUS, 48, 48 + tz]
  {
    assert Clock(tz) == tz;
    assert Decimal.Render(tz) == [48 + tz];
  }

  /** Two decimal digits, the first possibly zero. */
  function Digits2(n: nat): (r: seq<byte>)
    requires n < 100
    ensures |r| == 2 && AllDigits(r) && Decimal.Value(r) == n
  {
    var r: seq<byte> := [48 + n / 10, 48 + n % 10];
    assert r[..1] == [48 + n / 10] && r[..1][..0] == [];
    assert Decimal.Value(r[..1]) == n / 10;
    r
  }

  /** At least two decimal digits: the hours, zero-padded. */
  function Hours(h: nat): (r: seq<byte>)
    ensures |r| >= 2 && AllDigits(r) && Decimal.Value(r) == h
    ensures h < 100 ==> |r| == 2
  {
    if h < 100 then Digits2(h) else Decimal.Render(h)
  }

  /** `±HHMM`: the sign, the hours padded to two digits and the minutes
      padded to two digits. */
  function Text(tz: int): (r: seq<byte>)
    ensures |r| >= 5 && r[0] == SignByte(tz) && AllDigits(r[1..])
    ensures Abs(tz) < 100 * MINUTES_PER_HOUR ==> |r| == 5
  {
    var r := Abs(tz);
    [SignByte(tz)] + Hours(r / 60) + Digits2(r % 60)
  }

  /** Two more digits multiply the value read so far by a hundred. */
  lemma ValueTwoMore(a: seq<byte>, b: seq<byte>)
    requires AllDigits(a) && |b| == 2 && AllDigits(b)
    ensures AllDigits(a + b) && Decimal.Value(a + b) == Decimal.Value(a) * 100 + Decimal.Value(b)
  {
    var ab := a + b;
    var a1 := a + [b[0]];
    assert ab[..|ab| - 1] == a1 && ab[|ab| - 1] == b[1];
    assert a1[..|a1| - 1] == a && a1[|a1| - 1] == b[0];
    assert b[..1] == [b[0]] && b[..1][..0] == [];
    assert Decimal.Value(b[..1]) == Decimal.Value(b[..1][..0]) * 10 + (b[0] - 48);
    var va := Decimal.Value(a);
    assert Decimal.Value(a1) == va * 10 + (b[0] - 48);
    assert Decimal.Value(b) == (b[0] - 48) * 10 + (b[1] - 48);
    assert AllDigits(ab);
    assert Decimal.Value(ab) == Decimal.Value(a1) * 10 + (b[1] - 48);
  }

  /** The digits of the text read as the clock number of the offset. */
  lemma TextDigits(tz: int)
    ensures Decimal.Value(Text(tz)[1..]) == Clock(Abs(tz))
  {
    var r := Abs(tz);
    assert Text(tz)[1..] == Hours(r / 60) + Digits2(r % 60);
    ValueTwoMore(Hours(r / 60), Digits2(r % 60));
  }

  /** The sign of `nom_parse_timezone`: `+`, `-`, or none (read as `+`).
      An empty input asks for one byte. */
  function ParseSign(i: seq<byte>): (r: Parsed<int>)
    ensures r.Done? ==> (r.value == 1 || r.value == -1)
    ensures r.Done? && |i| >= 1 && i[0] == Decimal.MINUS ==> r == Done(i[1..], -1)
    ensures r.Done? && |i| >= 1 && i[0] == Decimal.PLUS ==> r == Done(i[1..], 1)
    ensures |i| >= 1 && i[0] != Decimal.MINUS && i[0] != Decimal.PLUS ==> r == Done(i, 1)
    ensures r.Incomplete? <==> |i| == 0
    ensures !r.Error? && !r.Abort?
  {
    match Tag(i, [Decimal.PLUS])
    case Done(rest, _) => Done(rest, 1)
    case Incomplete(n) => Incomplete(n)
    case _ =>
      match Tag(i, [Decimal.MINUS])
      case Done(rest, _) => Done(rest, -1)
      case Incomplete(n) => Incomplete(n)
      case _ => Done(i, 1)
  }

  /** `nom_parse_timezone`: a sign and an `i64` digit run `x`, read as
      `sign * ((x / 100) * 60 + x % 100)`. */
  function Parse(i: seq<byte>): (r: Parsed<int>)
    ensures r.Done? ==> |r.rest| < |i|
    ensures r.Done? && |i| >= 1 && i[0] == Decimal.MINUS ==> r.value <= 0
    ensures r.Done? && i[0] != Decimal.MINUS ==> r.value >= 0
    ensures r.Incomplete? <==> |i| == 0 || (|i| == 1 && (i[0] == Decimal.MINUS || i[0] == Decimal.PLUS))
    ensures !r.Abort?
  {
    var (i1, sign) :- ParseSign(i);
    var (i2, x) :- Shift(Number(i1, Decimal.I64_MAX), |i| - |i1|);
    Done(i2, sign * Minutes(x))
  }

  /** The sign byte reads as the sign of the offset. */
  lemma ParseSignOf(tz: int, tail: seq<byte>)
    ensures ParseSign([SignByte(tz)] + tail) == Done(tail, if tz < 0 then -1 else 1)
  {
    var i := [SignByte(tz)] + tail;
    assert i[0] == SignByte(tz) && i[1..] == tail;
  }

  /** The sign and the digits of a clock number `c` read as the offset. */
  lemma ParseSigned(tz: int, digits: seq<byte>, rest: seq<byte>)
    requires Fits(tz)
    requires |digits| >= 1 && AllDigits(digits) && Decimal.Value(digits) == Clock(Abs(tz))
    requires |rest| == 0 || !IsDigit(rest[0])
    ensures Parse([SignByte(tz)] + digits + rest) == Done(rest, tz)
  {
    var i := [SignByte(tz)] + digits + rest;
    var sign := if tz < 0 then -1 else 1;
    var c := Clock(Abs(tz));
    assert i == [SignByte(tz)] + (digits + rest);
    ParseSignOf(tz, digits + rest);
    NumberRun(digits, rest, Decimal.I64_MAX);
    assert Shift(Number(digits + rest, Decimal.I64_MAX), |i| - |digits + rest|) == Done(rest, c);
    MinutesClock(Abs(tz));
    assert sign * Minutes(c) == tz;
  }

  /** The written offset reads back, whatever follows that is not a
      digit. */
  lemma ParseText(tz: int, rest: seq<byte>)
    requires Fits(tz)
    requires |rest| == 0 || !IsDigit(rest[0])
    ensures Parse(Text(tz) + rest) == Done(rest, tz)
  {
    var t := Text(tz);
    assert t == [SignByte(tz)] + t[1..];
    TextDigits(tz);
    ParseSigned(tz, t[1..], rest);
  }

  /** The text as the source writes it reads back too: the missing zeros
      do not change the clock number. */
  lemma ParseTextAsWritten(tz: int, rest: seq<byte>)
    requires Fits(tz)
    requires |rest| == 0 || !IsDigit(rest[0])
    ensures Parse(TextAsWritten(tz) + rest) == Done(rest, tz)
  {
    var t := TextAsWritten(tz);
    assert t == [SignByte(tz)] + t[1..];
    ParseSigned(tz, t[1..], rest);
  }
}
