/** Version 2 pack index files ("pack-*.idx"), after git's pack-format
    technical documentation: a magic number and version, a 256-entry
    cumulative fan-out table, then per object a digest, a CRC and a 32-bit
    offset, offsets with their top bit set being replaced by the next entry
    of a table of 64-bit offsets, and finally the pack and index
    checksums. Every number is big-endian. */
module PackIndex {
  import opened Bytes
  import opened Wrappers
  import opened Nom
  import BigEndian
  import ProtocolHash

  const FANOUT_COUNT: nat := 256
  /** Magic, version and fan-out table. */
  const INDEX_HEADER_SIZE: nat := 4 + 4 + 256 * 4
  const INDEX_HASH_OFFSET: nat := INDEX_HEADER_SIZE
  const U32_LIMIT: nat := 0x1_0000_0000
  const U64_LIMIT: nat := 0x1_0000_0000_0000_0000
  /** The top bit of a 32-bit offset: the entry is an escape to the
      64-bit table. */
  const LARGE_OFFSET_BIT: nat := 0x8000_0000

  datatype Header = Header(magic: nat, version: nat, fanouts: seq<nat>)

  /** The header of the source's types: three `u32` fields, the fan-out
      table being an array of 256. */
  predicate ValidHeader(h: Header) {
    h.magic < U32_LIMIT && h.version < U32_LIMIT && |h.fanouts| == FANOUT_COUNT &&
    forall k | 0 <= k < |h.fanouts| :: h.fanouts[k] < U32_LIMIT
  }

  /** `size`: the last fan-out entry counts every object. */
  function Size(h: Header): (n: nat)
    requires |h.fanouts| == FANOUT_COUNT
    ensures n == h.fanouts[FANOUT_COUNT - 1]
  {
    h.fanouts[255]
  }

  /** `numbers_with_prefix`: objects whose digest starts with byte `n`,
      the difference of two neighbouring fan-out entries. Where the table
      decreases at `n` the `u32` subtraction overflows, which panics in a
      debug build: `None`. */
  function NumbersWithPrefix(h: Header, n: byte): (r: Option<nat>)
    requires |h.fanouts| == FANOUT_COUNT
    ensures r.None? <==> n > 0 && h.fanouts[n] < h.fanouts[n - 1]
    ensures n == 0 ==> r == Some(h.fanouts[0])
    ensures n > 0 && r.Some? ==> h.fanouts[n - 1] + r.value == h.fanouts[n]
  {
    if n == 0 then Some(h.fanouts[0])
    else if h.fanouts[n] < h.fanouts[n - 1] then None
    else Some(h.fanouts[n] - h.fanouts[n - 1])
  }

  /** `numbers_with_prefix` in a release build, where the `u32`
      subtraction wraps: the count where the table does not decrease,
      and otherwise the difference plus 2^32. */
  function NumbersWithPrefixWrapping(h: Header, n: byte): (r: nat)
    requires ValidHeader(h)
    ensures r < U32_LIMIT
    ensures NumbersWithPrefix(h, n).Some? ==> r == NumbersWithPrefix(h, n).value
    ensures NumbersWithPrefix(h, n).None? ==> r + h.fanouts[n - 1] == h.fanouts[n] + U32_LIMIT
  {
    if n == 0 then h.fanouts[0] else (h.fanouts[n] - h.fanouts[n - 1]) % U32_LIMIT
  }

  predicate NonDecreasing(h: Header) {
    forall k | 1 <= k < |h.fanouts| :: h.fanouts[k - 1] <= h.fanouts[k]
  }

  /** The objects whose first digest byte is below `n`. */
  function CountBelow(h: Header, n: nat): nat
    requires |h.fanouts| == FANOUT_COUNT && NonDecreasing(h) && n <= FANOUT_COUNT
  {
    if n == 0 then 0 else CountBelow(h, n - 1) + NumbersWithPrefix(h, n - 1).value
  }

  /** The fan-out table is cumulative: the counts of the first `n + 1`
      prefixes add up to entry `n`. */
  lemma {:induction false} CountBelowIsFanout(h: Header, n: nat)
    requires |h.fanouts| == FANOUT_COUNT && NonDecreasing(h) && n < FANOUT_COUNT
    ensures CountBelow(h, n + 1) == h.fanouts[n]
  {
    if n > 0 {
      CountBelowIsFanout(h, n - 1);
    }
  }

  /** The counts of all 256 prefixes add up to `size`. */
  lemma PrefixCountsSum(h: Header)
    requires |h.fanouts| == FANOUT_COUNT && NonDecreasing(h)
    ensures CountBelow(h, FANOUT_COUNT) == Size(h)
  {
    CountBelowIsFanout(h, FANOUT_COUNT - 1);
  }

  /** `offsets`: where the digest, CRC and offset tables start. */
  function Offsets(h: Header, digestSize: nat): (r: (nat, nat, nat))
    requires |h.fanouts| == FANOUT_COUNT
    ensures r.0 == INDEX_HEADER_SIZE
    ensures r.1 - r.0 == Size(h) * digestSize && r.2 - r.1 == 4 * Size(h)
  {
    var sz := Size(h);
    var crcOffset := INDEX_HASH_OFFSET + sz * digestSize;
    (INDEX_HASH_OFFSET, crcOffset, crcOffset + 4 * sz)
  }

  // ---------------------------------------------------------------------
  // Equality and order

  datatype Ordering = Less | Equal | Greater

  function CmpNat(a: nat, b: nat): Ordering {
    if a < b then Less else if a == b then Equal else Greater
  }

  /** Lexicographic order of slices, a proper prefix coming first. */
  function CmpSeq(a: seq<nat>, b: seq<nat>): (r: Ordering)
    ensures r == Equal <==> a == b
  {
    if |a| == 0 && |b| == 0 then Equal
    else if |a| == 0 then Less
    else if |b| == 0 then Greater
    else
      var c := CmpNat(a[0], b[0]);
      if c != Equal then c
      else
        var r := CmpSeq(a[1..], b[1..]);
        assert a == [a[0]] + a[1..] && b == [b[0]] + b[1..];
        r
  }

  /** `Ord for Header`: magic, then version, then the fan-out table. */
  function HeaderCmp(a: Header, b: Header): (r: Ordering)
    ensures r == Equal <==> a == b
  {
    var m := CmpNat(a.magic, b.magic);
    if m != Equal then m
    else
      var v := CmpNat(a.version, b.version);
      if v != Equal then v else CmpSeq(a.fanouts, b.fanouts)
  }

  /** `PartialEq for Header` as written: the magic is compared with
      itself. */
  function HeaderEqAsWritten(a: Header, b: Header): (r: bool)
    ensures r <==> a.version == b.version && a.fanouts == b.fanouts
  {
    a.version == b.version && a.magic == a.magic && a.fanouts == b.fanouts
  }

  /** Two headers that differ only in their magic are equal for `==` but
      not for `cmp`. */
  lemma HeaderEqIgnoresMagic()
    ensures var a := Header(0, 2, seq(256, k => 0));
            var b := Header(0xff744f63, 2, seq(256, k => 0));
            HeaderEqAsWritten(a, b) && HeaderCmp(a, b) != Equal
  {
  }

  /** `PartialEq for Header`, comparing the right-hand magic: it agrees
      with structural equality and with `cmp`. */
  function HeaderEq(a: Header, b: Header): (r: bool)
    ensures r <==> a == b
    ensures r <==> HeaderCmp(a, b) == Equal
  {
    a.version == b.version && a.magic == b.magic && a.fanouts == b.fanouts
  }

  // ---------------------------------------------------------------------
  // Parsing

  /** `u32!(Big)`. */
  function U32(i: seq<byte>): (r: Parsed<nat>)
    ensures r.Done? <==> |i| >= 4
    ensures r.Done? ==> r.value == BigEndian.Value(i[..4]) && r.rest == i[4..] && r.value < U32_LIMIT
    ensures r.Incomplete? ==> r.needed == Nom.Size(4)
    ensures !r.Error? && !r.Abort?
  {
    if |i| < 4 then Incomplete(Nom.Size(4)) else Done(i[4..], BigEndian.Value(i[..4]))
  }

  /** `u64!(Big)`. */
  function U64(i: seq<byte>): (r: Parsed<nat>)
    ensures r.Done? <==> |i| >= 8
    ensures r.Done? ==> r.value == BigEndian.Value(i[..8]) && r.rest == i[8..] && r.value < U64_LIMIT
    ensures r.Incomplete? ==> r.needed == Nom.Size(8)
    ensures !r.Error? && !r.Abort?
  {
    if |i| < 8 then Incomplete(Nom.Size(8)) else Done(i[8..], BigEndian.Value(i[..8]))
  }

  /** `count!(u32!(Big), n)` and `count_fixed!`: a request for more input
      is counted from the start of the table. */
  function CountU32(i: seq<byte>, n: nat): (r: Parsed<seq<nat>>)
    ensures r.Done? <==> |i| >= 4 * n
    ensures r.Done? ==> |r.value| == n && r.rest == i[4 * n..]
    ensures r.Done? ==> forall k | 0 <= k < n :: r.value[k] < U32_LIMIT
    ensures r.Incomplete? ==> r.needed == Nom.Size(4 * (|i| / 4) + 4)
    ensures !r.Error? && !r.Abort?
    decreases n
  {
    if n == 0 then Done(i, [])
    else
      var (i1, v) :- U32(i);
      QuarterStep(|i|);
      var (i2, vs) :- Shift(CountU32(i1, n - 1), 4);
      assert i2 == i[4 * n..];
      Done(i2, [v] + vs)
  }

  lemma QuarterStep(m: nat)
    requires m >= 4
    ensures (m - 4) / 4 == m / 4 - 1
  {
  }

  /** `count!(H::decode_bytes, n)`: a short digest panics. */
  function CountDigests(i: seq<byte>, n: nat): (r: Parsed<seq<ProtocolHash.Sha1>>)
    ensures r.Done? <==> |i| >= ProtocolHash.DIGEST_SIZE * n
    ensures r.Abort? <==> |i| < ProtocolHash.DIGEST_SIZE * n
    ensures r.Done? ==> |r.value| == n && r.rest == i[ProtocolHash.DIGEST_SIZE * n..]
    ensures r.Done? ==> forall k | 0 <= k < n :: ProtocolHash.Valid(r.value[k])
    decreases n
  {
    if n == 0 then Done(i, [])
    else
      var (i1, h) :- ProtocolHash.DecodeBytes(i);
      var (i2, hs) :- Shift(CountDigests(i1, n - 1), |i| - |i1|);
      Done(i2, [h] + hs)
  }

  /** `nom_parse_index_header`. */
  function ParseHeader(i: seq<byte>): (r: Parsed<Header>)
    ensures r.Done? <==> |i| >= INDEX_HEADER_SIZE
    ensures r.Done? ==> ValidHeader(r.value) && r.rest == i[INDEX_HEADER_SIZE..]
    ensures !r.Error? && !r.Abort?
  {
    var (i1, magic) :- U32(i);
    var (i2, version) :- Shift(U32(i1), 4);
    var (i3, fanouts) :- Shift(CountU32(i2, FANOUT_COUNT), 8);
    Done(i3, Header(magic, version, fanouts))
  }

  /** The large-offset loop of `parse_index`: each offset with its top bit
      set is replaced, in table order, by the next 64-bit entry. */
  function ResolveLarge(offsets: seq<nat>, i: seq<byte>): (r: Parsed<seq<nat>>)
    ensures r.Done? ==> |r.value| == |offsets| && |r.rest| <= |i|
    ensures r.Incomplete? ==> r.needed == Nom.Size(8)
    ensures !r.Error? && !r.Abort?
  {
    if |offsets| == 0 then Done(i, [])
    else if offsets[0] >= LARGE_OFFSET_BIT then
      var (i1, big) :- U64(i);
      var (i2, more) :- ResolveLarge(offsets[1..], i1);
      Done(i2, [big] + more)
    else
      var (i2, more) :- ResolveLarge(offsets[1..], i);
      Done(i2, [offsets[0]] + more)
  }

  /** Offsets without the top bit are kept as they are. */
  lemma {:induction false} ResolveLargeKeepsSmall(offsets: seq<nat>, i: seq<byte>)
    ensures ResolveLarge(offsets, i).Done? ==>
              forall k | 0 <= k < |offsets| && offsets[k] < LARGE_OFFSET_BIT :: ResolveLarge(offsets, i).value[k] == offsets[k]
  {
    if |offsets| > 0 {
      if offsets[0] >= LARGE_OFFSET_BIT {
        if |i| >= 8 {
          ResolveLargeKeepsSmall(offsets[1..], i[8..]);
        }
      } else {
        ResolveLargeKeepsSmall(offsets[1..], i);
      }
    }
  }

  datatype Index = Index(header: Header, hashes: seq<ProtocolHash.Sha1>, crcs: seq<nat>,
                         offsets: seq<nat>, pack: ProtocolHash.Sha1, index: ProtocolHash.Sha1)

  /** `parse_index`. */
  function ParseIndex(i: seq<byte>): (r: Parsed<Index>)
    ensures r.Done? ==> ValidHeader(r.value.header)
    ensures r.Done? ==> |r.value.hashes| == |r.value.crcs| == |r.value.offsets| == Size(r.value.header)
    ensures r.Done? ==> ProtocolHash.Valid(r.value.pack) && ProtocolHash.Valid(r.value.index)
  {
    var (i1, header) :- ParseHeader(i);
    ParseBody(i1, header)
  }

  /** Everything of `parse_index` after the header. */
  function ParseBody(i: seq<byte>, header: Header): (r: Parsed<Index>)
    requires ValidHeader(header)
    ensures r.Done? ==> r.value.header == header
    ensures r.Done? ==> |r.value.hashes| == |r.value.crcs| == |r.value.offsets| == Size(header)
    ensures r.Done? ==> ProtocolHash.Valid(r.value.pack) && ProtocolHash.Valid(r.value.index)
  {
    var (i2, tables) :- ParseTables(i, Size(header));
    var (i3, trailer) :- ParseTrailer(i2, tables.2);
    Done(i3, Index(header, tables.0, tables.1, trailer.0, trailer.1, trailer.2))
  }

  /** The digest, CRC and 32-bit offset tables of `parse_index`, `n`
      entries each. */
  function ParseTables(i: seq<byte>, n: nat): (r: Parsed<(seq<ProtocolHash.Sha1>, seq<nat>, seq<nat>)>)
    ensures r.Done? ==> |r.value.0| == |r.value.1| == |r.value.2| == n
    ensures r.Done? ==> forall k | 0 <= k < n :: ProtocolHash.Valid(r.value.0[k])
  {
    var (i1, hashes) :- CountDigests(i, n);
    var (i2, crcs) :- CountU32(i1, n);
    var (i3, offs) :- CountU32(i2, n);
    Done(i3, (hashes, crcs, offs))
  }

  /** The end of `parse_index`: large offsets, then the pack and index
      checksums. */
  function ParseTrailer(i: seq<byte>, offs: seq<nat>): (r: Parsed<(seq<nat>, ProtocolHash.Sha1, ProtocolHash.Sha1)>)
    ensures r.Done? ==> |r.value.0| == |offs| && ProtocolHash.Valid(r.value.1) && ProtocolHash.Valid(r.value.2)
  {
    var (i1, offsets) :- ResolveLarge(offs, i);
    var (i2, pack) :- ProtocolHash.DecodeBytes(i1);
    var (i3, index) :- ProtocolHash.DecodeBytes(i2);
    Done(i3, (offsets, pack, index))
  }

  // ---------------------------------------------------------------------
  // Writing, as the layout the parser reads

  function U32s(xs: seq<nat>): (r: seq<byte>)
    requires forall k | 0 <= k < |xs| :: xs[k] < U32_LIMIT
    ensures |r| == 4 * |xs|
  {
    if |xs| == 0 then [] else BigEndian.Encode(xs[0], 4) + U32s(xs[1..])
  }

  function Digests(hs: seq<ProtocolHash.Sha1>): (r: seq<byte>)
    requires forall k | 0 <= k < |hs| :: ProtocolHash.Valid(hs[k])
    ensures |r| == ProtocolHash.DIGEST_SIZE * |hs|
  {
    if |hs| == 0 then []
    else
      var tail := Digests(hs[1..]);
      assert ProtocolHash.Valid(hs[0]);
      assert ProtocolHash.DIGEST_SIZE * |hs| == ProtocolHash.DIGEST_SIZE + ProtocolHash.DIGEST_SIZE * |hs[1..]|;
      hs[0].bytes + tail
  }

  function EncodeHeader(h: Header): (r: seq<byte>)
    requires ValidHeader(h)
    ensures |r| == INDEX_HEADER_SIZE
  {
    BigEndian.Encode(h.magic, 4) + BigEndian.Encode(h.version, 4) + U32s(h.fanouts)
  }

  /** The 32-bit offset table: small offsets as themselves, large ones as
      the top bit over their position in the 64-bit table. */
  function SmallOffsets(offsets: seq<nat>, next: nat): (r: seq<nat>)
    requires next + |offsets| < LARGE_OFFSET_BIT
    ensures |r| == |offsets|
    ensures forall k | 0 <= k < |r| :: r[k] < U32_LIMIT
  {
    if |offsets| == 0 then []
    else if offsets[0] < LARGE_OFFSET_BIT then [offsets[0]] + SmallOffsets(offsets[1..], next)
    else [LARGE_OFFSET_BIT + next] + SmallOffsets(offsets[1..], next + 1)
  }

  /** A small offset is written as itself and a large one as an escape,
      so the reader tells them apart. */
  lemma {:induction false} SmallOffsetsKeep(offsets: seq<nat>, next: nat)
    requires next + |offsets| < LARGE_OFFSET_BIT
    ensures forall k | 0 <= k < |offsets| ::
              (offsets[k] < LARGE_OFFSET_BIT ==> SmallOffsets(offsets, next)[k] == offsets[k]) &&
              (offsets[k] >= LARGE_OFFSET_BIT ==> SmallOffsets(offsets, next)[k] >= LARGE_OFFSET_BIT)
    decreases |offsets|
  {
    if |offsets| > 0 {
      var tailNext := if offsets[0] < LARGE_OFFSET_BIT then next else next + 1;
      SmallOffsetsKeep(offsets[1..], tailNext);
      assert SmallOffsets(offsets, next)[1..] == SmallOffsets(offsets[1..], tailNext);
    }
  }

  /** The 64-bit offset table. */
  function LargeOffsets(offsets: seq<nat>): (r: seq<byte>)
    requires forall k | 0 <= k < |offsets| :: offsets[k] < U64_LIMIT
  {
    if |offsets| == 0 then []
    else if offsets[0] < LARGE_OFFSET_BIT then LargeOffsets(offsets[1..])
    else BigEndian.Encode(offsets[0], 8) + LargeOffsets(offsets[1..])
  }

  /** An index the layout can hold: table lengths agree with the fan-out
      table, every field fits its width, and there are fewer than 2^31
      objects. */
  predicate WellFormedIndex(x: Index) {
    ValidHeader(x.header) &&
    |x.hashes| == |x.crcs| == |x.offsets| == Size(x.header) < LARGE_OFFSET_BIT &&
    (forall k | 0 <= k < |x.hashes| :: ProtocolHash.Valid(x.hashes[k])) &&
    (forall k | 0 <= k < |x.crcs| :: x.crcs[k] < U32_LIMIT) &&
    (forall k | 0 <= k < |x.offsets| :: x.offsets[k] < U64_LIMIT) &&
    ProtocolHash.Valid(x.pack) && ProtocolHash.Valid(x.index)
  }

  function EncodeIndex(x: Index): (r: seq<byte>)
    requires WellFormedIndex(x)
  {
    EncodeHeader(x.header) + EncodeTables(x) + EncodeTrailer(x)
  }

  /** The digest, CRC and 32-bit offset tables. */
  function EncodeTables(x: Index): (r: seq<byte>)
    requires WellFormedIndex(x)
  {
    Digests(x.hashes) + U32s(x.crcs) + U32s(SmallOffsets(x.offsets, 0))
  }

  /** The 64-bit offsets and the two checksums. */
  function EncodeTrailer(x: Index): (r: seq<byte>)
    requires WellFormedIndex(x)
  {
    LargeOffsets(x.offsets) + x.pack.bytes + x.index.bytes
  }

  /** `offsets` names where the written tables start: the digests right
      after the header, then the CRCs, then the 32-bit offsets. */
  lemma OffsetsLayout(x: Index)
    requires WellFormedIndex(x)
    ensures Offsets(x.header, ProtocolHash.DIGEST_SIZE).0 == |EncodeHeader(x.header)|
    ensures Offsets(x.header, ProtocolHash.DIGEST_SIZE).1 == |EncodeHeader(x.header)| + |Digests(x.hashes)|
    ensures Offsets(x.header, ProtocolHash.DIGEST_SIZE).2 == |EncodeHeader(x.header)| + |Digests(x.hashes)| + |U32s(x.crcs)|
  {
  }

  lemma {:induction false} CountU32Of(xs: seq<nat>, rest: seq<byte>)
    requires forall k | 0 <= k < |xs| :: xs[k] < U32_LIMIT
    ensures CountU32(U32s(xs) + rest, |xs|) == Done(rest, xs)
    decreases |xs|
  {
    if |xs| > 0 {
      var e := BigEndian.Encode(xs[0], 4);
      var tail := U32s(xs[1..]) + rest;
      Assoc(e, U32s(xs[1..]), rest);
      U32Of(xs[0], tail);
      CountU32Of(xs[1..], rest);
      assert [xs[0]] + xs[1..] == xs;
    }
  }

  lemma U32Of(x: nat, rest: seq<byte>)
    requires x < U32_LIMIT
    ensures U32(BigEndian.Encode(x, 4) + rest) == Done(rest, x)
  {
    var i := BigEndian.Encode(x, 4) + rest;
    assert i[..4] == BigEndian.Encode(x, 4) && i[4..] == rest;
  }

  lemma U64Of(x: nat, rest: seq<byte>)
    requires x < U64_LIMIT
    ensures U64(BigEndian.Encode(x, 8) + rest) == Done(rest, x)
  {
    var i := BigEndian.Encode(x, 8) + rest;
    assert i[..8] == BigEndian.Encode(x, 8) && i[8..] == rest;
  }

  lemma {:induction false} CountDigestsOf(hs: seq<ProtocolHash.Sha1>, rest: seq<byte>)
    requires forall k | 0 <= k < |hs| :: ProtocolHash.Valid(hs[k])
    ensures CountDigests(Digests(hs) + rest, |hs|) == Done(rest, hs)
    decreases |hs|
  {
    if |hs| > 0 {
      var i := Digests(hs) + rest;
      assert i == hs[0].bytes + (Digests(hs[1..]) + rest);
      ProtocolHash.DecodeEncodeBytes(hs[0], Digests(hs[1..]) + rest);
      CountDigestsOf(hs[1..], rest);
      assert [hs[0]] + hs[1..] == hs;
    }
  }

  /** One small offset: it is kept and nothing is read. */
  lemma ResolveSmallStep(offsets: seq<nat>, next: nat, rest: seq<byte>)
    requires next + |offsets| < LARGE_OFFSET_BIT && |offsets| > 0 && offsets[0] < LARGE_OFFSET_BIT
    requires forall k | 0 <= k < |offsets| :: offsets[k] < U64_LIMIT
    requires ResolveLarge(SmallOffsets(offsets[1..], next), LargeOffsets(offsets[1..]) + rest) == Done(rest, offsets[1..])
    ensures ResolveLarge(SmallOffsets(offsets, next), LargeOffsets(offsets) + rest) == Done(rest, offsets)
  {
    var small := SmallOffsets(offsets, next);
    assert small == [offsets[0]] + SmallOffsets(offsets[1..], next);
    assert LargeOffsets(offsets) == LargeOffsets(offsets[1..]);
    assert [offsets[0]] + offsets[1..] == offsets;
  }

  /** One large offset: its escape reads the next 64-bit entry. */
  lemma ResolveLargeStep(offsets: seq<nat>, next: nat, rest: seq<byte>)
    requires next + |offsets| < LARGE_OFFSET_BIT && |offsets| > 0
    requires forall k | 0 <= k < |offsets| :: offsets[k] < U64_LIMIT
    requires LARGE_OFFSET_BIT <= offsets[0]
    requires ResolveLarge(SmallOffsets(offsets[1..], next + 1), LargeOffsets(offsets[1..]) + rest) == Done(rest, offsets[1..])
    ensures ResolveLarge(SmallOffsets(offsets, next), LargeOffsets(offsets) + rest) == Done(rest, offsets)
  {
    var small := SmallOffsets(offsets, next);
    var tail := SmallOffsets(offsets[1..], next + 1);
    assert small == [LARGE_OFFSET_BIT + next] + tail;
    assert small[0] >= LARGE_OFFSET_BIT && small[1..] == tail;
    var e := BigEndian.Encode(offsets[0], 8);
    var i := LargeOffsets(offsets[1..]) + rest;
    var j := LargeOffsets(offsets) + rest;
    assert j == e + i by {
      assert LargeOffsets(offsets) == e + LargeOffsets(offsets[1..]);
      Assoc(e, LargeOffsets(offsets[1..]), rest);
    }
    assert U64(j) == Done(i, offsets[0]) by { U64Of(offsets[0], i); }
    assert ResolveLarge(small, j) == Done(rest, [offsets[0]] + offsets[1..]);
    assert [offsets[0]] + offsets[1..] == offsets;
  }

  lemma {:induction false} ResolveLargeOf(offsets: seq<nat>, next: nat, rest: seq<byte>)
    requires next + |offsets| < LARGE_OFFSET_BIT
    requires forall k | 0 <= k < |offsets| :: offsets[k] < U64_LIMIT
    ensures ResolveLarge(SmallOffsets(offsets, next), LargeOffsets(offsets) + rest) == Done(rest, offsets)
    decreases |offsets|
  {
    if |offsets| > 0 {
      if offsets[0] < LARGE_OFFSET_BIT {
        ResolveLargeOf(offsets[1..], next, rest);
        ResolveSmallStep(offsets, next, rest);
      } else {
        ResolveLargeOf(offsets[1..], next + 1, rest);
        ResolveLargeStep(offsets, next, rest);
      }
    }
  }

  lemma ParseHeaderOf(h: Header, rest: seq<byte>)
    requires ValidHeader(h)
    ensures ParseHeader(EncodeHeader(h) + rest) == Done(rest, h)
  {
    var m := BigEndian.Encode(h.magic, 4);
    var v := BigEndian.Encode(h.version, 4);
    var i := EncodeHeader(h) + rest;
    assert i == m + (v + (U32s(h.fanouts) + rest));
    assert i[..4] == m && i[4..] == v + (U32s(h.fanouts) + rest);
    assert i[4..][..4] == v && i[4..][4..] == U32s(h.fanouts) + rest;
    CountU32Of(h.fanouts, rest);
  }

  /** What is written is read back, and whatever follows is left over. */
  lemma ParseEncodeIndex(x: Index, rest: seq<byte>)
    requires WellFormedIndex(x)
    ensures ParseIndex(EncodeIndex(x) + rest) == Done(rest, x)
  {
    var r2 := EncodeTrailer(x) + rest;
    var r1 := EncodeTables(x) + r2;
    assert EncodeIndex(x) + rest == EncodeHeader(x.header) + r1 by {
      Regroup3(EncodeHeader(x.header), EncodeTables(x), EncodeTrailer(x), rest);
    }
    ParseHeaderOf(x.header, r1);
    assert ParseBody(r1, x.header) == Done(rest, x) by {
      ParseTablesOf(x, r2);
      ParseTrailerOf(x, rest);
    }
  }

  lemma ParseTablesOf(x: Index, rest: seq<byte>)
    requires WellFormedIndex(x)
    ensures ParseTables(EncodeTables(x) + rest, Size(x.header))
            == Done(rest, (x.hashes, x.crcs, SmallOffsets(x.offsets, 0)))
  {
    var small := SmallOffsets(x.offsets, 0);
    var r3 := U32s(small) + rest;
    var r2 := U32s(x.crcs) + r3;
    assert EncodeTables(x) + rest == Digests(x.hashes) + r2 by {
      Regroup3(Digests(x.hashes), U32s(x.crcs), U32s(small), rest);
    }
    CountDigestsOf(x.hashes, r2);
    CountU32Of(x.crcs, r3);
    CountU32Of(small, rest);
    assert CountU32(r2, |x.crcs|) == Done(r3, x.crcs);
    assert CountU32(r3, |small|) == Done(rest, small);
  }

  lemma ParseTrailerOf(x: Index, rest: seq<byte>)
    requires WellFormedIndex(x)
    ensures ParseTrailer(EncodeTrailer(x) + rest, SmallOffsets(x.offsets, 0))
            == Done(rest, (x.offsets, x.pack, x.index))
  {
    var r6 := x.index.bytes + rest;
    var r5 := x.pack.bytes + r6;
    assert EncodeTrailer(x) + rest == LargeOffsets(x.offsets) + r5;
    ResolveLargeOf(x.offsets, 0, r5);
    ProtocolHash.DecodeEncodeBytes(x.pack, r6);
    ProtocolHash.DecodeEncodeBytes(x.index, rest);
  }

  // ---------------------------------------------------------------------
  // Index file names

  const PACK_PREFIX: seq<byte> := [112, 97, 99, 107, 45]
  const IDX_SUFFIX: seq<byte> := [46, 105, 100, 120]

  /** The file-name filter of `list_indexes`: a name that is not
      `pack-<middle>.idx` is skipped (None); otherwise the middle is read
      as the hex of a digest (Some of the result). */
  function IndexName(name: seq<byte>): (r: Option<Option<ProtocolHash.Sha1>>)
    ensures r.Some? <==> |name| >= 9 && name[..5] == PACK_PREFIX && name[|name| - 4..] == IDX_SUFFIX
    ensures r.Some? ==> r.value == ProtocolHash.FromHex(name[5..|name| - 4])
  {
    if |name| < 5 || name[..5] != PACK_PREFIX || |name| < 4 || name[|name| - 4..] != IDX_SUFFIX then None
    else
      PrefixSuffixApart(name);
      Some(ProtocolHash.FromHex(name[5..|name| - 4]))
  }

  /** No name shorter than "pack-.idx" starts with "pack-" and ends with
      ".idx": no byte of "ack-" is a dot. */
  lemma PrefixSuffixApart(name: seq<byte>)
    requires |name| >= 5 && name[..5] == PACK_PREFIX && name[|name| - 4..] == IDX_SUFFIX
    ensures |name| >= 9
  {
    assert name[|name| - 4] == 46;
    assert forall j | 0 <= j < 5 :: name[j] == PACK_PREFIX[j] && PACK_PREFIX[j] != 46;
  }

  /** The name of an index file gives back its digest. */
  lemma IndexNameOf(h: ProtocolHash.Sha1)
    requires ProtocolHash.Valid(h)
    ensures IndexName(PACK_PREFIX + ProtocolHash.ToHexadecimal(h) + IDX_SUFFIX) == Some(Some(h))
  {
    var hex := ProtocolHash.ToHexadecimal(h);
    var name := PACK_PREFIX + hex + IDX_SUFFIX;
    assert name[..5] == PACK_PREFIX;
    assert name[|name| - 4..] == IDX_SUFFIX;
    assert name[5..|name| - 4] == hex;
    ProtocolHash.FromHexToHexadecimal(h);
  }
}
