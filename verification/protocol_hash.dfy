/** The `Hasher` protocol and its SHA-1 instance: a digest of a fixed
    size, built from raw bytes or hex, and written or read as raw bytes
    or as hex. The digest computation itself is a parameter. */
module ProtocolHash {
  import opened Bytes
  import opened Wrappers
  import opened Nom
  import Hex

  /** `SHA1::digest_size()` and `digest_hex_size()`. */
  const DIGEST_SIZE: nat := 20
  const DIGEST_HEX_SIZE: nat := DIGEST_SIZE * 2

  datatype Sha1 = Sha1(bytes: seq<byte>)

  predicate Valid(h: Sha1) { |h.bytes| == DIGEST_SIZE }

  /** `from_bytes`: only a vector of exactly the digest size. */
  function FromBytes(b: seq<byte>): (r: Option<Sha1>)
    ensures r.Some? <==> |b| == DIGEST_SIZE
    ensures r.Some? ==> r.value.bytes == b && Valid(r.value)
  {
    if |b| == DIGEST_SIZE then Some(Sha1(b)) else None
  }

  /** `from_hex`: hex text (blanks allowed) of exactly a digest. */
  function FromHex(s: seq<byte>): (r: Option<Sha1>)
    ensures r.Some? <==> Hex.FromHex(s).Ok? && |Hex.FromHex(s).value| == DIGEST_SIZE
    ensures r.Some? ==> r.value.bytes == Hex.FromHex(s).value
  {
    match Hex.FromHex(s)
    case Ok(b) => FromBytes(b)
    case Err(_) => None
  }

  /** `to_hexadecimal`. */
  function ToHexadecimal(h: Sha1): (r: seq<byte>)
    ensures |r| == 2 * |h.bytes| && Hex.IsLowerHex(r)
  {
    Hex.ToHex(h.bytes)
  }

  lemma FromHexToHexadecimal(h: Sha1)
    requires Valid(h)
    ensures FromHex(ToHexadecimal(h)) == Some(h)
  {
    Hex.FromHexToHex(h.bytes);
  }

  /** `Hasher::hash`: the stream is read in pieces until a read returns
      nothing, every piece is fed to the digest, and the digest's first
      twenty bytes are the result. `pieces` lists what successive reads
      return; running out of them counts as the end of the stream. */
  method Hash(digest: seq<byte> -> seq<byte>, pieces: seq<seq<byte>>) returns (h: Sha1, fed: seq<byte>)
    requires forall data :: |digest(data)| >= DIGEST_SIZE
    ensures Valid(h) && h.bytes == digest(fed)[..DIGEST_SIZE]
    ensures exists n | 0 <= n <= |pieces| ::
      (fed == Flatten(pieces[..n]) && (n == |pieces| || |pieces[n]| == 0) &&
       (forall k | 0 <= k < n :: |pieces[k]| > 0))
  {
    fed := [];
    var i := 0;
    while i < |pieces| && |pieces[i]| > 0
      invariant 0 <= i <= |pieces|
      invariant fed == Flatten(pieces[..i])
      invariant forall k | 0 <= k < i :: |pieces[k]| > 0
    {
      FlattenSnoc(pieces[..i], pieces[i]);
      assert pieces[..i + 1] == pieces[..i] + [pieces[i]];
      fed := fed + pieces[i];
      i := i + 1;
    }
    h := Sha1(digest(fed)[..DIGEST_SIZE]);
  }

  /** `decode_bytes`: the first twenty bytes; a shorter input makes the
      slice panic. */
  function DecodeBytes(i: seq<byte>): (r: Parsed<Sha1>)
    ensures r.Abort? <==> |i| < DIGEST_SIZE
    ensures r.Done? ==> Valid(r.value) && i == r.value.bytes + r.rest
  {
    if |i| < DIGEST_SIZE then Abort
    else match FromBytes(i[..DIGEST_SIZE])
      case Some(h) => Done(i[DIGEST_SIZE..], h)
      case None => Incomplete(Size(DIGEST_SIZE))
  }

  /** `encode_bytes`: the raw digest, and the count returned. */
  function EncodeBytes(h: Sha1): (r: (seq<byte>, nat))
    ensures Valid(h) ==> |r.0| == r.1
  {
    (h.bytes, DIGEST_SIZE)
  }

  lemma DecodeEncodeBytes(h: Sha1, rest: seq<byte>)
    requires Valid(h)
    ensures DecodeBytes(EncodeBytes(h).0 + rest) == Done(rest, h)
  {
    var i := h.bytes + rest;
    assert i[..DIGEST_SIZE] == h.bytes && i[DIGEST_SIZE..] == rest;
  }

  /** `decode_hex`: the longest run of hex digits must be the hex form of
      a digest; otherwise more input is asked for. */
  function DecodeHex(i: seq<byte>): (r: Parsed<Sha1>)
    ensures r.Done? ==> Valid(r.value) && |r.rest| < |i|
    ensures r.Done? ==> exists run :: i == run + r.rest && Hex.FromHex(run) == Ok(r.value.bytes)
    ensures r.Error? <==> |i| >= 1 && !IsHexDigit(i[0])
    ensures !r.Abort?
  {
    var (rest, run) :- TakeWhile1(i, IsHexDigit);
    match FromHex(run)
    case Some(h) => Done(rest, h)
    case None => Incomplete(Size(DIGEST_HEX_SIZE))
  }

  /** `encode_hex` as written: forty hex digits, but the count returned is
      the raw digest size. */
  function EncodeHexAsWritten(h: Sha1): (r: (seq<byte>, nat))
    ensures r.0 == ToHexadecimal(h)
  {
    (ToHexadecimal(h), DIGEST_SIZE)
  }

  /** The count `encode_hex` returns is not what it wrote. */
  lemma EncodeHexMiscounts(h: Sha1)
    requires Valid(h)
    ensures |EncodeHexAsWritten(h).0| != EncodeHexAsWritten(h).1
  {
  }

  /** `encode_hex` returning `digest_hex_size()`, the count of bytes it
      writes. */
  function EncodeHex(h: Sha1): (r: (seq<byte>, nat))
    ensures r.0 == ToHexadecimal(h)
    ensures Valid(h) ==> |r.0| == r.1
  {
    (ToHexadecimal(h), DIGEST_HEX_SIZE)
  }

  /** Hex-encoded digests read back, whatever follows that is not a hex
      digit: `test_encoder_decoder` for the hex encoding. */
  lemma DecodeEncodeHex(h: Sha1, rest: seq<byte>)
    requires Valid(h)
    requires |rest| == 0 || !IsHexDigit(rest[0])
    ensures DecodeHex(EncodeHex(h).0 + rest) == Done(rest, h)
  {
    var run := ToHexadecimal(h);
    forall k | 0 <= k < |run|
      ensures IsHexDigit(run[k])
    {
      assert Hex.IsLowerHexDigit(run[k]);
    }
    TakeWhile1Run(run, rest, IsHexDigit);
    FromHexToHexadecimal(h);
  }
}
