/** The blob of the `git` generation: its whole loose-object encoding is
    a single chunk. */
module GitObject {
  import opened Bytes
  import opened Wrappers
  import ObjectHead
  import GitHash

  datatype Blob = Blob(data: seq<byte>)

  /** `get_chunk`: chunk 0 is `blob <len>\0` and the data; there is no
      other chunk. */
  function Chunk(b: Blob, count: nat): (r: Option<seq<byte>>)
    ensures r.Some? <==> count == 0
    ensures r.Some? ==> |r.value| == |ObjectHead.BLOB| + |ObjectHead.Render([], |b.data|)| + |b.data|
  {
    if count > 0 then None else Some(ObjectHead.Render(ObjectHead.BLOB, |b.data|) + b.data)
  }

  /** A blob as the source of numbered chunks. */
  function Chunks(b: Blob): nat -> Option<seq<byte>> {
    (c: nat) => Chunk(b, c)
  }

  /** Exactly one chunk reaches the hasher, and it is git's loose-object
      header followed by the data. */
  lemma HashInput(b: Blob, w: seq<seq<byte>>)
    requires GitHash.WrittenOf(Chunks(b), w)
    ensures |w| == 1
    ensures Flatten(w) == ObjectHead.Render(ObjectHead.BLOB, |b.data|) + b.data
  {
    var one := [Chunk(b, 0).value];
    assert GitHash.WrittenOf(Chunks(b), one);
    GitHash.WrittenUnique(Chunks(b), w, one);
    assert Flatten(one) == one[0] + Flatten(one[1..]);
  }
}
