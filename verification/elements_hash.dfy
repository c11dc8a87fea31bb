/** `HashRef`: the identifier of a git object, the digest of its
    encoding, held as raw bytes and written as lower-case hex. Objects
    live under `objects/<first byte in hex>/<other bytes in hex>`. */
module ElementsHash {
  import opened Bytes
  import opened Wrappers
  import opened Nom
  import Hex
  import Paths
  import opened Errors

  /** `SHA1::DIGEST_SIZE` and `SHA1::PREFIX_SIZE`. */
  const DIGEST_SIZE: nat := 20
  const PREFIX_SIZE: nat := 1

  /** Width of the hex form. */
  const HEX_SIZE: nat := DIGEST_SIZE * 2

  datatype HashRef = HashRef(hash: seq<byte>)

  predicate Valid(h: HashRef) { |h.hash| == DIGEST_SIZE }

  /** The directory part of the object's location (panics on an empty hash). */
  function Prefix(h: HashRef): (r: seq<byte>)
    requires |h.hash| >= PREFIX_SIZE
    ensures |r| == PREFIX_SIZE
    ensures r + Loose(h) == h.hash
  {
    h.hash[..PREFIX_SIZE]
  }

  /** The file part of the object's location. */
  function Loose(h: HashRef): (r: seq<byte>)
    requires |h.hash| >= PREFIX_SIZE
    ensures |r| == |h.hash| - PREFIX_SIZE
  {
    h.hash[PREFIX_SIZE..]
  }

  /** `path`: the hex prefix joined with the hex rest. */
  function Path(h: HashRef): (r: seq<Paths.Component>)
    requires |h.hash| >= PREFIX_SIZE
    ensures |h.hash| > PREFIX_SIZE ==> |r| == 2
    ensures |r| >= 1 && r[0] == Paths.Normal(Hex.ToHex(Prefix(h)))
    ensures forall k | 0 <= k < |r| :: r[k].Normal? && |r[k].name| >= 1
    ensures Hex.ToHex(Prefix(h)) + (if |r| == 2 then r[1].name else []) == Display(h)
  {
    HexSplit(Prefix(h), Loose(h));
    var loose := Hex.ToHex(Loose(h));
    [Paths.Normal(Hex.ToHex(Prefix(h)))] + (if |loose| == 0 then [] else [Paths.Normal(loose)])
  }

  lemma {:induction false} HexSplit(a: seq<byte>, b: seq<byte>)
    ensures Hex.ToHex(a + b) == Hex.ToHex(a) + Hex.ToHex(b)
    decreases |b|
  {
    if |b| == 0 {
      assert a + b == a;
    } else {
      var init := b[..|b| - 1];
      HexSplit(a, init);
      assert (a + b)[..|a + b| - 1] == a + init;
    }
  }

  /** `Display`, and `serialise` of the `Writable` view. */
  function Display(h: HashRef): (r: seq<byte>)
    ensures |r| == 2 * |h.hash| && Hex.IsLowerHex(r)
  {
    Hex.ToHex(h.hash)
  }

  /** `provide_size`: the width of the hex form of a full digest. */
  function ProvideSize(): (n: nat)
    ensures forall h: HashRef | Valid(h) :: |Display(h)| == n
  {
    HEX_SIZE
  }

  /** What a hash read without the length check may hold: at most a
      digest's worth of bytes, since forty hex bytes decode to twenty. */
  predicate Bounded(h: HashRef) { |h.hash| <= DIGEST_SIZE }

  /** `nom_parse` as written: forty bytes, taken as text without a UTF-8
      check, decoded as hex, whatever number of bytes that yields (blanks
      are skipped by the decoder). A rejected byte inside a multi-byte
      character makes the decoder panic. */
  function NomParseAsWritten(b: seq<byte>): (r: Parsed<HashRef>)
    ensures |b| < HEX_SIZE <==> r == Incomplete(Size(HEX_SIZE))
    ensures r.Done? <==> |b| >= HEX_SIZE && Hex.FromHex(b[..HEX_SIZE]).Ok?
    ensures r.Done? ==> r.rest == b[HEX_SIZE..] && Hex.FromHex(b[..HEX_SIZE]) == Ok(r.value.hash)
    ensures r.Done? ==> Bounded(r.value)
    ensures r.Abort? <==> |b| >= HEX_SIZE && Hex.ReportPanics(b[..HEX_SIZE])
  {
    if |b| < HEX_SIZE then Incomplete(Size(HEX_SIZE))
    else match Hex.FromHex(b[..HEX_SIZE])
      case Ok(v) => Done(b[HEX_SIZE..], HashRef(v))
      case Err(_) => if Hex.ReportPanics(b[..HEX_SIZE]) then Abort else Error
  }

  /** A zero, the continuation byte 0x80 and thirty-eight more zeros: the
      decoder rejects the byte at index 1 and panics slicing there. */
  lemma NomParseAsWrittenPanics()
    ensures var b := [48, 0x80] + seq(HEX_SIZE - 2, _ => 48);
      NomParseAsWritten(b).Abort? && NomParse(b) == Error
  {
    var b: seq<byte> := [48, 0x80] + seq(HEX_SIZE - 2, _ => 48);
    assert b[..HEX_SIZE] == b;
    assert !IsHexDigit(b[1]) && !Hex.IsHexBlank(b[1]);
    assert Hex.FirstBad(b).Some? && Hex.FirstBad(b).value == 1 by {
      assert IsHexDigit(b[0]);
    }
  }

  /** The hex text of a full digest reads back as that hash, leaving what
      follows. */
  lemma NomParseAsWrittenDisplay(h: HashRef, rest: seq<byte>)
    requires Valid(h)
    ensures NomParseAsWritten(Display(h) + rest) == Done(rest, h)
  {
    var b := Display(h) + rest;
    assert b[..HEX_SIZE] == Display(h) && b[HEX_SIZE..] == rest;
    Hex.FromHexToHex(h.hash);
  }

  /** Forty blanks are accepted and give a hash with no bytes at all. */
  lemma NomParseAcceptsBlanks()
    ensures var blanks := seq(HEX_SIZE, _ => SPACE);
      NomParseAsWritten(blanks) == Done([], HashRef([])) && !Valid(HashRef([]))
  {
    var blanks := seq(HEX_SIZE, _ => SPACE);
    assert Hex.FirstBad(blanks).None?;
    BlankNibbles(blanks);
    assert blanks[..HEX_SIZE] == blanks;
  }

  lemma {:induction false} BlankNibbles(s: seq<byte>)
    requires forall k | 0 <= k < |s| :: s[k] == SPACE
    ensures Hex.Nibbles(s) == []
    decreases |s|
  {
    if |s| > 0 {
      BlankNibbles(s[..|s| - 1]);
    }
  }

  /** `nom_parse` with the length check `from_str` and `try_from` make:
      only a full digest is accepted, and a byte that is not hex is an
      error, never a panic. */
  function NomParse(b: seq<byte>): (r: Parsed<HashRef>)
    ensures |b| < HEX_SIZE <==> r == Incomplete(Size(HEX_SIZE))
    ensures r.Done? ==> r.rest == b[HEX_SIZE..] && Valid(r.value)
    ensures r.Done? <==> |b| >= HEX_SIZE && Hex.FromHex(b[..HEX_SIZE]).Ok? &&
                         |Hex.FromHex(b[..HEX_SIZE]).value| == DIGEST_SIZE
    ensures !r.Abort?
  {
    if |b| < HEX_SIZE then Incomplete(Size(HEX_SIZE))
    else match Hex.FromHex(b[..HEX_SIZE])
      case Ok(v) =>
        if |v| == DIGEST_SIZE then Done(b[HEX_SIZE..], HashRef(v)) else Error
      case Err(_) => Error
  }

  /** Serialising then parsing gives the hash back, leaving what follows. */
  lemma NomParseDisplay(h: HashRef, rest: seq<byte>)
    requires Valid(h)
    ensures NomParse(Display(h) + rest) == Done(rest, h)
  {
    var b := Display(h) + rest;
    assert b[..HEX_SIZE] == Display(h) && b[HEX_SIZE..] == rest;
    Hex.FromHexToHex(h.hash);
  }

  /** What is accepted is the hex text of the hash, up to letter case. */
  lemma NomParseCanonical(b: seq<byte>)
    requires |b| >= HEX_SIZE && Hex.IsLowerHex(b[..HEX_SIZE])
    requires NomParse(b).Done?
    ensures Display(NomParse(b).value) == b[..HEX_SIZE]
  {
    Hex.ToHexFromHex(b[..HEX_SIZE]);
  }

  /** `from_str`: a hex decoding error is reported with its message, a
      decoded value of the wrong length as `InvalidHashSize`. */
  function FromStr(s: seq<byte>): (r: Result<HashRef, GitError>)
    ensures r.Ok? <==> Hex.FromHex(s).Ok? && |Hex.FromHex(s).value| == DIGEST_SIZE
    ensures r.Ok? ==> Valid(r.value) && Hex.FromHex(s) == Ok(r.value.hash)
    ensures Hex.FromHex(s).Err? ==> r == Err(GitError.Unknown(Hex.ErrorMessage(Hex.FromHex(s).error)))
    ensures Hex.FromHex(s).Ok? && !r.Ok? ==>
      r == Err(InvalidHashSize(DIGEST_SIZE, |Hex.FromHex(s).value|))
  {
    match Hex.FromHex(s)
    case Err(e) => Err(GitError.Unknown(Hex.ErrorMessage(e)))
    case Ok(v) =>
      if |v| != DIGEST_SIZE then Err(InvalidHashSize(DIGEST_SIZE, |v|)) else Ok(HashRef(v))
  }

  /** The hex text of a hash reads back as that hash. */
  lemma FromStrDisplay(h: HashRef)
    requires Valid(h)
    ensures FromStr(Display(h)) == Ok(h)
  {
    Hex.FromHexToHex(h.hash);
  }

  /** `try_from`: raw bytes of exactly the digest size. */
  function TryFrom(t: seq<byte>): (r: Result<HashRef, GitError>)
    ensures r.Ok? <==> |t| == DIGEST_SIZE
    ensures r.Ok? ==> r.value.hash == t
    ensures r.Err? ==> r.error == InvalidHashSize(DIGEST_SIZE, |t|)
  {
    if |t| != DIGEST_SIZE then Err(InvalidHashSize(DIGEST_SIZE, |t|)) else Ok(HashRef(t))
  }
}
