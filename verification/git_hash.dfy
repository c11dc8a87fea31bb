/** The hashing of the `git` generation: chunks are optional, every
    chunk handed over is written (an empty one too), and the digest is
    kept as a `Ref` split into a directory prefix and a loose rest. */
module GitHash {
  import opened Bytes
  import opened Wrappers
  import Hashing

  /** `SHA1::DIGEST_SIZE` and `SHA1::PREFIX_SIZE`. */
  const DIGEST_SIZE: nat := 20
  const PREFIX_SIZE: nat := 1

  /** The index of the last chunk `hash` writes. */
  const LAST_CHUNK: nat := 100

  /** The prefix fits inside the digest. */
  lemma PrefixWithinDigest()
    ensures 0 < PREFIX_SIZE <= DIGEST_SIZE
  {
  }

  datatype Ref = Ref(hash: seq<byte>)

  /** `new_with` and `From<&Vec<u8>>`: the bytes given, unchanged. */
  function NewWith(data: seq<byte>): Ref {
    Ref(data)
  }

  /** `From<&[u8; 20]>`: an empty digest extended by the twenty bytes,
      which is what `new_with` keeps. */
  function FromArray(data: seq<byte>): (r: Ref)
    requires |data| == DIGEST_SIZE
    ensures r == NewWith(data)
    ensures |r.hash| == DIGEST_SIZE
  {
    Ref([] + data)
  }

  /** `prefix`: the first `PREFIX_SIZE` bytes (the slice panics on a
      shorter digest). */
  function Prefix(r: Ref): (p: seq<byte>)
    requires |r.hash| >= PREFIX_SIZE
    ensures |p| == PREFIX_SIZE
    ensures p + Loose(r) == r.hash
  {
    r.hash[..PREFIX_SIZE]
  }

  /** `loose`: the digest after the prefix. */
  function Loose(r: Ref): (l: seq<byte>)
    requires |r.hash| >= PREFIX_SIZE
    ensures |l| == |r.hash| - PREFIX_SIZE
  {
    r.hash[PREFIX_SIZE..]
  }

  /** What `hash` writes for an object whose chunks are `chunk`: chunks
      0, 1, ... in order while there are any, and at most chunks 0 to
      `LAST_CHUNK`. */
  predicate WrittenOf(chunk: nat -> Option<seq<byte>>, w: seq<seq<byte>>) {
    |w| <= LAST_CHUNK + 1
    && (forall k | 0 <= k < |w| :: chunk(k) == Some(w[k]))
    && (|w| == LAST_CHUNK + 1 || chunk(|w|).None?)
  }

  /** An object's chunks determine what is written. */
  lemma WrittenUnique(chunk: nat -> Option<seq<byte>>, w1: seq<seq<byte>>, w2: seq<seq<byte>>)
    requires WrittenOf(chunk, w1) && WrittenOf(chunk, w2)
    ensures w1 == w2
  {
  }

  /** `Hashable::hash`: writes each chunk there is, stopping after chunk
      `LAST_CHUNK`, and keeps the digest of everything written. */
  method Hash(chunk: nat -> Option<seq<byte>>, sha1: seq<byte> -> Hashing.Digest) returns (written: seq<seq<byte>>, r: Ref)
    ensures WrittenOf(chunk, written)
    ensures r == NewWith(sha1(Flatten(written))) && |r.hash| == DIGEST_SIZE
  {
    var hs: seq<byte> := [];
    var i: nat := 0;
    written := [];
    while chunk(i).Some?
      invariant i == |written| <= LAST_CHUNK
      invariant forall k | 0 <= k < i :: chunk(k) == Some(written[k])
      invariant hs == Flatten(written)
      decreases LAST_CHUNK - i
    {
      var data := chunk(i).value;
      FlattenSnoc(written, data);
      written := written + [data];
      hs := hs + data;
      if i == LAST_CHUNK {
        break;
      }
      i := i + 1;
    }
    r := NewWith(sha1(hs));
  }
}
