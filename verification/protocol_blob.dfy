/** The blob object of the protocol generation: raw data behind a
    `blob <size>\0` header, and the typed hash that names a blob. */
module ProtocolBlob {
  import opened Bytes
  import opened Wrappers
  import opened Nom
  import Decimal
  import ObjectHead
  import ProtocolHash

  /** `BlobRef`: a hash known to name a blob; everything is delegated to
      the hash. */
  datatype BlobRef = BlobRef(hash: ProtocolHash.Sha1)

  /** `BlobRef::from_bytes`: succeeds exactly when the hash's does. */
  function BlobRefFromBytes(v: seq<byte>): (r: Option<BlobRef>)
    ensures r.Some? <==> ProtocolHash.FromBytes(v).Some?
    ensures r.Some? ==> r.value.hash == ProtocolHash.FromBytes(v).value && |v| == ProtocolHash.DIGEST_SIZE
  {
    var h :- ProtocolHash.FromBytes(v);
    Some(BlobRef(h))
  }

  datatype Blob = Blob(data: seq<byte>)

  const BLOB_KEYWORD: seq<byte> := ObjectHead.BLOB

  /** `Blob::required_size`: the data alone, without the header. */
  function RequiredSize(b: Blob): (n: nat)
    ensures n + |ObjectHead.Render(BLOB_KEYWORD, |b.data|)| == |Encode(b).0|
  {
    |b.data|
  }

  /** `Blob::encode`: `blob <len>\0` then the data, with the count of
      bytes written. */
  function Encode(b: Blob): (r: (seq<byte>, nat))
    ensures |r.0| == r.1
    ensures r.0 == ObjectHead.Render(BLOB_KEYWORD, |b.data|) + b.data
  {
    var header := ObjectHead.Render(BLOB_KEYWORD, |b.data|);
    (header + b.data, |header| + |b.data|)
  }

  /** `Blob::decode`: the header, then exactly the declared number of
      bytes; fewer is a request for the missing ones. */
  function Decode(i: seq<byte>): (r: Parsed<Blob>)
    ensures ObjectHead.Parse(i, BLOB_KEYWORD).Done? ==>
              var h := ObjectHead.Parse(i, BLOB_KEYWORD);
              (|h.rest| < h.value ==> r == Incomplete(Size(h.value - |h.rest|))) &&
              (|h.rest| >= h.value ==> r.Done? && h.rest == r.value.data + r.rest && |r.value.data| == h.value)
    ensures !ObjectHead.Parse(i, BLOB_KEYWORD).Done? ==> r == ObjectHead.Parse(i, BLOB_KEYWORD).PropagateFailure()
  {
    var (rest, size) :- ObjectHead.Parse(i, BLOB_KEYWORD);
    if |rest| < size then Incomplete(Size(size - |rest|))
    else Done(rest[size..], Blob(rest[..size]))
  }

  /** Decoding what was encoded gives back the same blob, and whatever
      followed is left over. */
  lemma DecodeEncode(b: Blob, rest: seq<byte>)
    requires |b.data| <= Decimal.USIZE_MAX
    ensures Decode(Encode(b).0 + rest) == Done(rest, b)
  {
    var header := ObjectHead.Render(BLOB_KEYWORD, |b.data|);
    assert Encode(b).0 + rest == header + (b.data + rest);
    ObjectHead.ParseRender(BLOB_KEYWORD, |b.data|, b.data + rest);
    assert (b.data + rest)[..|b.data|] == b.data;
    assert (b.data + rest)[|b.data|..] == rest;
  }
}
