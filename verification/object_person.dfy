/** People of the protocol generation: `name <email> ` followed by a
    date written by the date's own encoder. The date format belongs to a
    time library outside the model, so the date is any type `D` with an
    encoder, a size and a decoder passed in as a codec. */
module ObjectPerson {
  import opened Bytes
  import opened Nom
  import Utf8

  const OPEN: seq<byte> := [SPACE, 60]
  const CLOSE: seq<byte> := [62, SPACE]

  datatype Person<D> = Person(name: seq<byte>, email: seq<byte>, date: D)

  /** The date's `encode`, `required_size` and `decode`. */
  datatype DateCodec<!D> = DateCodec(encode: D -> seq<byte>, size: D -> nat, decode: seq<byte> -> Parsed<D>)

  /** The date's own round trip, assumed of the codec for one date and
      what follows it. */
  predicate DateRoundTrips<D(==)>(codec: DateCodec<D>, d: D, rest: seq<byte>) {
    codec.decode(codec.encode(d) + rest) == Done(rest, d)
  }

  /** `encode_name_email`: `name <email> `. */
  function NameEmail<D>(p: Person<D>): (r: seq<byte>)
    ensures |r| == |p.name| + |p.email| + 4
  {
    p.name + OPEN + p.email + CLOSE
  }

  /** `encode`: the bytes written and the count returned, the two
      lengths added. */
  function Encode<D>(codec: DateCodec<D>, p: Person<D>): (r: (seq<byte>, nat))
    ensures |r.0| == r.1
    ensures |r.0| >= |NameEmail(p)| && r.0[..|NameEmail(p)|] == NameEmail(p)
  {
    var ne := NameEmail(p);
    var d := codec.encode(p.date);
    (ne + d, |ne| + |d|)
  }

  /** `required_size`: equals the count `encode` returns whenever the
      date's size is the length of its encoding. */
  function RequiredSize<D>(codec: DateCodec<D>, p: Person<D>): (n: nat)
    ensures codec.size(p.date) == |codec.encode(p.date)| ==> n == Encode(codec, p).1
  {
    |NameEmail(p)| + codec.size(p.date)
  }

  /** `nom_parse_person`: the name up to the first " <", the email up to
      the next "> ", both UTF-8, then `Date::decode`. */
  function Decode<D>(codec: DateCodec<D>, i: seq<byte>): (r: Parsed<Person<D>>)
    ensures r.Done? ==> Utf8.Valid(r.value.name) && Avoids(r.value.name, OPEN)
    ensures r.Done? ==> Utf8.Valid(r.value.email) && Avoids(r.value.email, CLOSE)
  {
    var (i1, name) :- TakeUntilAndConsume(i, OPEN);
    if !Utf8.Valid(name) then Error
    else
      var (i2, email) :- Shift(TakeUntilAndConsume(i1, CLOSE), |i| - |i1|);
      if !Utf8.Valid(email) then Error
      else
        var (i3, date) :- Shift(codec.decode(i2), |i| - |i2|);
        Done(i3, Person(name, email, date))
  }

  /** decode(encode(p)) == p, given that the date round-trips. */
  lemma DecodeEncode<D>(codec: DateCodec<D>, p: Person<D>, rest: seq<byte>)
    requires Utf8.Valid(p.name) && Avoids(p.name, OPEN)
    requires Utf8.Valid(p.email) && Avoids(p.email, CLOSE)
    requires DateRoundTrips(codec, p.date, rest)
    ensures Decode(codec, Encode(codec, p).0 + rest) == Done(rest, p)
  {
    var d := codec.encode(p.date);
    var tail := p.email + CLOSE + (d + rest);
    assert Encode(codec, p).0 + rest == p.name + OPEN + tail;
    TakeUntilAndConsumeSep(p.name, OPEN, tail);
    TakeUntilAndConsumeSep(p.email, CLOSE, d + rest);
  }
}
