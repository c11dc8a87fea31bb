/** The `Objectable` trait: reading a whole object from bytes, with the
    parser's outcome turned into the library's error type. */
module Objectable {
  import opened Bytes
  import opened Wrappers
  import opened Nom
  import opened Errors

  /** `parse_bytes`: a parsed value whatever input is left over; an
      Error as an unknown parsing error; a request for more input as
      "not enough", with the size when the parser knows it. A panic in
      the parser never reaches this mapping. */
  function ParseBytes<T>(r: Parsed<T>): (res: Result<T, GitError>)
    requires !r.Abort?
    ensures res.Ok? <==> r.Done?
    ensures res.Ok? ==> res.value == r.value
    ensures res.Err? ==> res.error.ParsingErrorUnknown? || res.error.ParsingErrorNotEnough?
    ensures res == Err(ParsingErrorUnknown) <==> r.Error?
    ensures r.Incomplete? && r.needed.Size? ==> res == Err(ParsingErrorNotEnough(Some(r.needed.n)))
    ensures r.Incomplete? && r.needed.Unknown? ==> res == Err(ParsingErrorNotEnough(None))
  {
    match r
    case Done(_, c) => Ok(c)
    case Error => Err(ParsingErrorUnknown)
    case Incomplete(Unknown) => Err(ParsingErrorNotEnough(None))
    case Incomplete(Size(s)) => Err(ParsingErrorNotEnough(Some(s)))
  }

  /** The left-over input does not show in the result. */
  lemma ParseBytesIgnoresRest<T>(a: seq<byte>, b: seq<byte>, v: T)
    ensures ParseBytes(Done(a, v)) == ParseBytes(Done(b, v)) == Ok(v)
  {
  }

  /** No failure is lost: two failures reported alike are the same
      failure. */
  lemma ParseBytesFailuresDistinct<T>(r1: Parsed<T>, r2: Parsed<T>)
    requires !r1.Abort? && !r2.Abort? && !r1.Done? && !r2.Done?
    requires ParseBytes(r1) == ParseBytes(r2)
    ensures r1 == r2
  {
    match r1
    case Error =>
    case Incomplete(n) =>
      match n
      case Unknown =>
      case Size(_) =>
  }
}
