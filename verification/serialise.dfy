/** The stream serialisation helpers of the protocol generation: fixed
    width big-endian readers, a literal-text reader, the `Decoder` result
    with its `or` fallback, and the byte-vector and string instances of
    `Serialisable`. A reader is the sequence of bytes it has left; a
    writer is the sequence of bytes written so far. */
module Serialise {
  import opened Bytes
  import opened Wrappers
  import BigEndian
  import Utf8

  /** What can go wrong reading: the stream ends early (`read_exact`),
      the bytes are not UTF-8 (`read_to_string`), or the code panics
      (`unimplemented!`). */
  datatype ReadError = UnexpectedEof | InvalidData | Panic

  /** `read::u8`. */
  function ReadU8(s: seq<byte>): (r: Result<(nat, seq<byte>), ReadError>)
    ensures r.Ok? <==> |s| >= 1
    ensures r.Ok? ==> r.value.0 == BigEndian.Value(s[..1]) && r.value.1 == s[1..]
    ensures r.Err? ==> r.error == UnexpectedEof
  {
    if |s| < 1 then Err(UnexpectedEof)
    else
      assert s[..1][..0] == [];
      Ok((s[0], s[1..]))
  }

  /** `read::u16`: two bytes, the first shifted over the second. */
  function ReadU16(s: seq<byte>): (r: Result<(nat, seq<byte>), ReadError>)
    ensures r.Ok? <==> |s| >= 2
    ensures r.Ok? ==> r.value.0 == BigEndian.Value(s[..2]) && r.value.1 == s[2..]
    ensures r.Err? ==> r.error == UnexpectedEof
  {
    var (hi, s1) :- ReadU8(s);
    var (lo, s2) :- ReadU8(s1);
    Joined(s, 1, 1);
    Ok((hi * 0x100 + lo, s2))
  }

  /** `read::u32`: two `u16`, the first shifted over the second. */
  function ReadU32(s: seq<byte>): (r: Result<(nat, seq<byte>), ReadError>)
    ensures r.Ok? <==> |s| >= 4
    ensures r.Ok? ==> r.value.0 == BigEndian.Value(s[..4]) && r.value.1 == s[4..]
    ensures r.Err? ==> r.error == UnexpectedEof
  {
    var (hi, s1) :- ReadU16(s);
    var (lo, s2) :- ReadU16(s1);
    Joined(s, 2, 2);
    Ok((hi * 0x1_0000 + lo, s2))
  }

  /** `read::u64`: two `u32`, the first shifted over the second. */
  function ReadU64(s: seq<byte>): (r: Result<(nat, seq<byte>), ReadError>)
    ensures r.Ok? <==> |s| >= 8
    ensures r.Ok? ==> r.value.0 == BigEndian.Value(s[..8]) && r.value.1 == s[8..]
    ensures r.Err? ==> r.error == UnexpectedEof
  {
    var (hi, s1) :- ReadU32(s);
    var (lo, s2) :- ReadU32(s1);
    Joined(s, 4, 4);
    Ok((hi * 0x1_0000_0000 + lo, s2))
  }

  /** Reading `m` bytes then `n` more is reading `m + n` bytes. */
  lemma Joined(s: seq<byte>, m: nat, n: nat)
    requires m + n <= |s|
    ensures BigEndian.Value(s[..m + n]) == BigEndian.Value(s[..m]) * BigEndian.Pow256(n) + BigEndian.Value(s[m..][..n])
    ensures s[m..][n..] == s[m + n..]
  {
    assert s[..m + n] == s[..m] + s[m..][..n];
    BigEndian.ValueAppend(s[..m], s[m..][..n]);
    assert BigEndian.Pow256(1) == 0x100;
    assert BigEndian.Pow256(2) == 0x1_0000;
    assert BigEndian.Pow256(4) == 0x1_0000_0000;
  }

  /** `v as iN` for a `w`-byte unsigned `v`: the two's complement reading
      of the same bits. */
  function Signed(v: nat, w: nat): (r: int)
    requires 1 <= w && v < BigEndian.Pow256(w)
    ensures -(BigEndian.Pow256(w) / 2) <= r < BigEndian.Pow256(w) / 2
    ensures (v - r) % BigEndian.Pow256(w) == 0
    ensures 0 <= r <==> v < BigEndian.Pow256(w) / 2
  {
    var m := BigEndian.Pow256(w);
    var half := 128 * BigEndian.Pow256(w - 1);
    assert m == 2 * half;
    assert m / 2 == half;
    if v < half then
      assert (v - v) % m == 0;
      v
    else
      assert v - (v - m) == m;
      assert m % m == 0;
      v - m
  }

  /** `read::i8`, `i16`, `i32` and `i64`: the unsigned reader of the same
      width, reinterpreted. */
  function ReadSigned(s: seq<byte>, w: nat): (r: Result<(int, seq<byte>), ReadError>)
    requires w == 1 || w == 2 || w == 4 || w == 8
    ensures r.Ok? <==> |s| >= w
    ensures r.Ok? ==> r.value.0 == Signed(BigEndian.Value(s[..w]), w) && r.value.1 == s[w..]
  {
    var (v, rest) :- if w == 1 then ReadU8(s) else if w == 2 then ReadU16(s)
                     else if w == 4 then ReadU32(s) else ReadU64(s);
    Ok((Signed(v, w), rest))
  }

  /** `read::string`: takes `|m|` bytes (fewer at the end of the stream),
      which must be UTF-8, and returns the rest when they spell `m`; any
      other text is a panic. */
  function ReadString(s: seq<byte>, m: seq<byte>): (r: Result<seq<byte>, ReadError>)
    requires Utf8.Valid(m)
    ensures r.Ok? <==> |m| <= |s| && s[..|m|] == m
    ensures r.Ok? ==> s == m + r.value
    ensures r.Err? && r.error == InvalidData ==> !Utf8.Valid(s[..if |m| <= |s| then |m| else |s|])
  {
    var n := if |m| <= |s| then |m| else |s|;
    var taken := s[..n];
    if !Utf8.Valid(taken) then Err(InvalidData)
    else if taken == m then
      assert s == taken + s[n..];
      Ok(s[n..])
    else Err(Panic)
  }

  /** A literal is read back, whatever follows it. */
  lemma ReadStringOf(m: seq<byte>, rest: seq<byte>)
    requires Utf8.Valid(m)
    ensures ReadString(m + rest, m) == Ok(rest)
  {
    var s := m + rest;
    assert s[..|m|] == m;
    assert s[|m|..] == rest;
  }

  /** The literals of a text are read back one after the other. */
  lemma ReadStrings(a: seq<byte>, b: seq<byte>, rest: seq<byte>)
    requires Utf8.Valid(a) && Utf8.Valid(b)
    ensures ReadString(a + b + rest, a) == Ok(b + rest)
    ensures ReadString(b + rest, b) == Ok(rest)
  {
    assert a + b + rest == a + (b + rest);
    ReadStringOf(a, b + rest);
    ReadStringOf(b, rest);
  }

  datatype SerialiseError = IoError(ReadError) | NomError

  /** `Decoder`: a value with the reader that remains, or an error with
      the reader as it was left. */
  datatype Decoder<B, I> = Decoded(reader: B, value: I) | Invalid(reader: B, err: SerialiseError)

  /** `Decoder::or`: a decoded value is kept; otherwise `alt` runs on the
      reader the failure left. */
  function Or<B, I>(d: Decoder<B, I>, alt: B -> Decoder<B, I>): (r: Decoder<B, I>)
    ensures d.Decoded? ==> r == d
    ensures d.Invalid? ==> r == alt(d.reader)
  {
    match d
    case Decoded(b, v) => Decoded(b, v)
    case Invalid(b, _) => alt(b)
  }

  /** Fallbacks chain: trying `a1` then `a2` is trying `a1` with `a2` as
      its own fallback. */
  lemma OrAssociative<B, I>(d: Decoder<B, I>, a1: B -> Decoder<B, I>, a2: B -> Decoder<B, I>)
    ensures Or(Or(d, a1), a2) == Or(d, b => Or(a1(b), a2))
  {
  }

  /** `Vec<u8>::serialise`: appends the bytes to the writer. */
  function SerialiseBytes(x: seq<byte>, w: seq<byte>): (r: seq<byte>)
    ensures |r| == |w| + |x| && r[..|w|] == w && r[|w|..] == x
  {
    w + x
  }

  /** `Vec<u8>::deserialise`: everything left in the reader. */
  function DeserialiseBytes(s: seq<byte>): (r: Decoder<seq<byte>, seq<byte>>)
    ensures r.Decoded? && r.reader == [] && r.value == s
  {
    Decoded([], s)
  }

  /** `String::serialise`: appends the text's bytes to the writer. */
  function SerialiseString(x: seq<byte>, w: seq<byte>): (r: seq<byte>)
    requires Utf8.Valid(x)
    ensures |r| == |w| + |x| && r[..|w|] == w && r[|w|..] == x
  {
    w + x
  }

  /** `String::deserialise`: everything left in the reader, which must be
      UTF-8. */
  function DeserialiseString(s: seq<byte>): (r: Decoder<seq<byte>, seq<byte>>)
    ensures r.Decoded? <==> Utf8.Valid(s)
    ensures r.Decoded? ==> r.reader == [] && r.value == s
    ensures r.Invalid? ==> r.err == IoError(InvalidData)
  {
    if Utf8.Valid(s) then Decoded([], s) else Invalid([], IoError(InvalidData))
  }

  /** Both instances give back what they wrote into an empty writer,
      the empty value included. */
  lemma SerialiseRoundTrip(x: seq<byte>)
    ensures DeserialiseBytes(SerialiseBytes(x, [])) == Decoded([], x)
    ensures Utf8.Valid(x) ==> DeserialiseString(SerialiseString(x, [])) == Decoded([], x)
  {
    assert [] + x == x;
  }
}
