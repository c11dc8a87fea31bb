/** The `Hashable` trait of the first generation: an object hands its
    loose-object encoding to the hasher in numbered chunks, and its
    identifier is the hasher's result over everything written. SHA-1
    itself is a parameter; the hasher keeps the bytes written to it. */
module Hashing {
  import opened Bytes
  import ElementsHash
  import ObjectHead
  import Decimal

  /** `hash` writes no more than this many chunks. */
  const CHUNK_LIMIT: nat := 100

  /** What `finish` returns: a buffer of `DIGEST_SIZE` bytes. */
  type Digest = d: seq<byte> | |d| == ElementsHash.DIGEST_SIZE witness seq(20, k => 0)

  /** The `SHA1` hasher, as the bytes written to it so far. */
  datatype Sha1 = Sha1(written: seq<byte>)

  /** `PartialEq for SHA1`: two hashers always compare equal. */
  predicate Equal(a: Sha1, b: Sha1): (r: bool)
    ensures r
  {
    true
  }

  /** Hashers fed different bytes still compare equal. */
  lemma EqualIgnoresWritten(a: Sha1, b: Sha1)
    requires a.written != b.written
    ensures Equal(a, b) && Equal(b, a)
  {
  }

  /** What `hash` writes for an object whose chunks are `chunk`: chunks 0,
      1, ... in order, ending before the first empty chunk or once
      `CHUNK_LIMIT` of them were written. */
  predicate WrittenOf(chunk: nat -> seq<byte>, w: seq<seq<byte>>) {
    |w| <= CHUNK_LIMIT
    && (forall k | 0 <= k < |w| :: w[k] == chunk(k) && |w[k]| > 0)
    && (|w| == CHUNK_LIMIT || |chunk(|w|)| == 0)
  }

  /** An object's chunks determine what is written. */
  lemma WrittenUnique(chunk: nat -> seq<byte>, w1: seq<seq<byte>>, w2: seq<seq<byte>>)
    requires WrittenOf(chunk, w1) && WrittenOf(chunk, w2)
    ensures w1 == w2
  {
  }

  /** `Hashable::hash`: writes the chunks in order and returns the
      digest of everything written. */
  method Hash(chunk: nat -> seq<byte>, sha1: seq<byte> -> Digest) returns (written: seq<seq<byte>>, digest: Digest)
    ensures WrittenOf(chunk, written)
    ensures digest == sha1(Flatten(written))
  {
    var hs := Sha1([]);
    var i: nat := 0;
    written := [];
    while true
      invariant i == |written| <= CHUNK_LIMIT
      invariant forall k | 0 <= k < i :: written[k] == chunk(k) && |written[k]| > 0
      invariant hs.written == Flatten(written)
      decreases CHUNK_LIMIT - i
    {
      var data := chunk(i);
      if |data| == 0 || i >= CHUNK_LIMIT {
        break;
      }
      i := i + 1;
      FlattenSnoc(written, data);
      written := written + [data];
      hs := Sha1(hs.written + data);
    }
    digest := sha1(hs.written);
  }

  // ---------------------------------------------------------------------
  // Blobs

  /** `Blob`: the data and its length in decimal, as `new` keeps them.
      The first generation and the `object` module generation define this
      blob and its chunks identically. */
  datatype Blob = Blob(data: seq<byte>, size: seq<byte>)

  /** `Blob::new` and `From<&[u8]>`: the length is written out once. */
  function NewBlob(d: seq<byte>): (b: Blob)
    ensures b.data == d
    ensures AllDigits(b.size) && Decimal.Value(b.size) == |d|
  {
    Blob(d, Decimal.Render(|d|))
  }

  /** `get_chunk`: "blob ", the length, a NUL, the data, then nothing. */
  function BlobChunk(b: Blob, count: nat): seq<byte> {
    match count
    case 0 => ObjectHead.BLOB
    case 1 => b.size
    case 2 => [NUL]
    case 3 => b.data
    case _ => []
  }

  /** A blob as the source of numbered chunks. */
  function BlobChunks(b: Blob): nat -> seq<byte> {
    c => BlobChunk(b, c)
  }

  /** The chunks a blob hands over before the first empty one. */
  function BlobWrites(b: Blob): seq<seq<byte>> {
    if |b.data| == 0 then [ObjectHead.BLOB, b.size, [NUL]]
    else [ObjectHead.BLOB, b.size, [NUL], b.data]
  }

  lemma BlobWritesOf(d: seq<byte>)
    ensures WrittenOf(BlobChunks(NewBlob(d)), BlobWrites(NewBlob(d)))
  {
    var b := NewBlob(d);
    assert |b.size| >= 1;
  }

  /** What is written for a blob is git's loose-object header followed
      by the data; empty data adds no chunk. */
  lemma BlobHashInput(d: seq<byte>, w: seq<seq<byte>>)
    requires WrittenOf(BlobChunks(NewBlob(d)), w)
    ensures Flatten(w) == ObjectHead.Render(ObjectHead.BLOB, |d|) + d
    ensures |w| == if |d| == 0 then 3 else 4
  {
    var b := NewBlob(d);
    BlobWritesOf(d);
    WrittenUnique(BlobChunks(b), w, BlobWrites(b));
    var head := [ObjectHead.BLOB, b.size, [NUL]];
    assert Flatten(head) == ObjectHead.BLOB + b.size + [NUL] by {
      FlattenFrom(head, 0);
      FlattenFrom(head, 1);
      FlattenFrom(head, 2);
      assert head[0..] == head && |head[3..]| == 0;
    }
    if |d| > 0 {
      assert BlobWrites(b) == head + [d];
      FlattenSnoc(head, d);
    }
  }
}
