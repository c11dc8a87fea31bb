/** The tree object of the protocol generation: octal permission digits,
    tree entries `<type><perms> <path>\0<digest>`, and the tree itself, a
    set of entries ordered and identified by path, written after a
    `tree <size>\0` header. The hash is the 20-byte SHA-1 of the protocol
    generation. */
module ProtocolTree {
  import opened Bytes
  import opened Nom
  import Decimal
  import Utf8
  import PathSet
  import ProtocolHash
  import Lex
  import ObjectHead

  // ---------------------------------------------------------------------
  // Permissions

  datatype Permission = Read | Write | Executable

  type PermissionSet = set<Permission>

  /** The byte `'0'`. */
  const ZERO: byte := 48

  predicate IsOctal(c: byte) { ZERO <= c <= ZERO + 7 }

  /** `permission_write`: the octal digit value, Read weighing 4, Write 2
      and Executable 1. */
  function Weight(s: PermissionSet): (n: nat)
    ensures n < 8
    ensures Read in s <==> n >= 4
    ensures Write in s <==> n % 4 >= 2
    ensures Executable in s <==> n % 2 == 1
  {
    (if Read in s then 4 else 0) + (if Write in s then 2 else 0) + (if Executable in s then 1 else 0)
  }

  /** A permission set is determined by its digit. */
  lemma WeightInjective(s: PermissionSet, t: PermissionSet)
    requires Weight(s) == Weight(t)
    ensures s == t
  {
    forall p | p in s ensures p in t {
      match p
      case Read =>
      case Write =>
      case Executable =>
    }
    forall p | p in t ensures p in s {
      match p
      case Read =>
      case Write =>
      case Executable =>
    }
  }

  /** `new_from_byte`: the set an octal digit names; any other byte gives
      the empty set. */
  function NewFromByte(b: byte): (r: PermissionSet)
    ensures IsOctal(b) ==> Weight(r) == b - ZERO
    ensures !IsOctal(b) ==> r == {}
  {
    if b == ZERO + 1 then {Executable}
    else if b == ZERO + 2 then {Write}
    else if b == ZERO + 3 then {Executable, Write}
    else if b == ZERO + 4 then {Read}
    else if b == ZERO + 5 then {Read, Executable}
    else if b == ZERO + 6 then {Read, Write}
    else if b == ZERO + 7 then {Executable, Read, Write}
    else {}
  }

  /** `to_char`: the octal digit of a set, from which `new_from` gives the
      set back. */
  function ToChar(s: PermissionSet): (c: byte)
    ensures IsOctal(c)
    ensures NewFromByte(c) == s
  {
    var c := ZERO + Weight(s);
    WeightInjective(NewFromByte(c), s);
    c
  }

  /** Reading an octal digit and writing it back gives the same digit. */
  lemma ToCharNewFrom(c: byte)
    requires IsOctal(c)
    ensures ToChar(NewFromByte(c)) == c
  {
  }

  /** `nom_parse_permission_set`: one byte, read as an octal digit. */
  function ParsePermissionSet(i: seq<byte>): (r: Parsed<PermissionSet>)
    ensures |i| == 0 ==> r == Incomplete(Size(1))
    ensures |i| >= 1 ==> r == Done(i[1..], NewFromByte(i[0]))
  {
    var (rest, b) :- Take(i, 1);
    Done(rest, NewFromByte(b[0]))
  }

  datatype Permissions = Permissions(user: PermissionSet, group: PermissionSet, other: PermissionSet)

  /** Display of permissions: `0` then the user, group and other digits. */
  function DisplayPermissions(p: Permissions): (r: seq<byte>)
    ensures r == [ZERO, ToChar(p.user), ToChar(p.group), ToChar(p.other)]
  {
    [ZERO] + Decimal.Render(Weight(p.user)) + Decimal.Render(Weight(p.group))
      + Decimal.Render(Weight(p.other))
  }

  function DefaultDir(): (r: Permissions)
    ensures DisplayPermissions(r) == [48, 48, 48, 48]
  {
    Permissions({}, {}, {})
  }

  function DefaultFile(): (r: Permissions)
    ensures DisplayPermissions(r) == [48, 54, 52, 52]
  {
    Permissions(NewFromByte(ZERO + 6), NewFromByte(ZERO + 4), NewFromByte(ZERO + 4))
  }

  function DefaultExe(): (r: Permissions)
    ensures DisplayPermissions(r) == [48, 55, 53, 53]
  {
    Permissions(NewFromByte(ZERO + 7), NewFromByte(ZERO + 5), NewFromByte(ZERO + 5))
  }

  /** `tree_ent_parse_permissions`: `0` then three digits. A short input
      asks for one byte more than it has, counted from the start. */
  function ParsePermissions(i: seq<byte>): (r: Parsed<Permissions>)
    ensures r.Done? <==> |i| >= 4 && i[0] == ZERO
    ensures r.Done? ==> r == Done(i[4..], Permissions(NewFromByte(i[1]), NewFromByte(i[2]), NewFromByte(i[3])))
    ensures r.Error? <==> |i| >= 1 && i[0] != ZERO
    ensures r.Incomplete? ==> r.needed == Size(|i| + 1)
    ensures !r.Abort?
  {
    var (i1, _) :- Tag(i, [ZERO]);
    var (i2, user) :- Shift(ParsePermissionSet(i1), 1);
    var (i3, group) :- Shift(ParsePermissionSet(i2), 2);
    var (i4, other) :- Shift(ParsePermissionSet(i3), 3);
    Done(i4, Permissions(user, group, other))
  }

  /** Permissions read back from their display, whatever follows. */
  lemma ParseDisplayPermissions(p: Permissions, rest: seq<byte>)
    ensures ParsePermissions(DisplayPermissions(p) + rest) == Done(rest, p)
  {
    var d := DisplayPermissions(p) + rest;
    assert d[4..] == rest;
  }

  // ---------------------------------------------------------------------
  // Tree entries

  /** A sub-tree (directory) or a blob (file). */
  datatype EntKind = TreeKind | BlobKind

  datatype TreeEnt = TreeEnt(kind: EntKind, perms: Permissions, path: seq<byte>, hash: ProtocolHash.Sha1)

  /** The type tags of the encoding. */
  const TREE_TAG: seq<byte> := [52]
  const BLOB_TAG: seq<byte> := [49, 48]

  /** `get_ent_type`. */
  function TypeTag(k: EntKind): (r: seq<byte>)
    ensures r == TREE_TAG || r == BLOB_TAG
    ensures (r == TREE_TAG) <==> k == TreeKind
  {
    match k
    case TreeKind => TREE_TAG
    case BlobKind => BLOB_TAG
  }

  /** `new_from`: the entry a type tag names; any other tag is a panic,
      which the parser never lets through. */
  function NewFrom(ty: seq<byte>, perms: Permissions, path: seq<byte>, h: ProtocolHash.Sha1): (r: TreeEnt)
    requires ty == TREE_TAG || ty == BLOB_TAG
    ensures TypeTag(r.kind) == ty
    ensures r.perms == perms && r.path == path && r.hash == h
  {
    if ty == BLOB_TAG then TreeEnt(BlobKind, perms, path, h)
    else TreeEnt(TreeKind, perms, path, h)
  }

  /** The text of an entry in front of its digest. */
  function EntHead(e: TreeEnt): seq<byte> {
    TypeTag(e.kind) + DisplayPermissions(e.perms) + [SPACE] + e.path + [NUL]
  }

  /** `TreeEnt::encode`: the head then the raw digest, with the count of
      bytes it reports. A path that is not UTF-8 would make `to_str` panic. */
  function EncodeEnt(e: TreeEnt): (r: (seq<byte>, nat))
    requires Utf8.Valid(e.path)
    ensures r.0 == EntHead(e) + e.hash.bytes
    ensures ProtocolHash.Valid(e.hash) ==> |r.0| == r.1
  {
    var (digest, sz) := ProtocolHash.EncodeBytes(e.hash);
    (EntHead(e) + digest, sz + |EntHead(e)|)
  }

  /** `TreeEnt::required_size`: what `encode` reports. */
  function RequiredSizeEnt(e: TreeEnt): (n: nat)
    requires Utf8.Valid(e.path)
    ensures n == EncodeEnt(e).1
    ensures ProtocolHash.Valid(e.hash) ==> n == |EncodeEnt(e).0|
  {
    |EntHead(e)| + ProtocolHash.DIGEST_SIZE
  }

  /** `alt!(tag!("4") | tag!("10"))`: the tag `4` is tried first; a
      request for more input from it is final. */
  function ParseType(i: seq<byte>): (r: Parsed<seq<byte>>)
    ensures r.Done? ==> (r.value == TREE_TAG || r.value == BLOB_TAG) && i == r.value + r.rest
    ensures !r.Abort?
  {
    var t := Tag(i, TREE_TAG);
    if t.Done? || t.Incomplete? then t
    else Tag(i, BLOB_TAG)
  }

  /** `nom_parse_path`: the bytes up to the first NUL, which is consumed;
      they must be UTF-8. */
  function ParsePath(i: seq<byte>): (r: Parsed<seq<byte>>)
    ensures r.Done? ==> i == r.value + [NUL] + r.rest && Utf8.Valid(r.value) && NoByte(r.value, NUL)
    ensures r.Error? <==> (|i| >= 1 && NoByte(i, NUL)) ||
                          (exists k | 0 <= k < |i| :: i[k] == NUL && NoByte(i[..k], NUL) && !Utf8.Valid(i[..k]))
    ensures !r.Abort?
  {
    var r := TakeUntilAndConsume(i, [NUL]);
    NoNulAt(i, r);
    if r.Done? then
      if Utf8.Valid(r.value) then Done(r.rest, r.value) else Error
    else r.PropagateFailure()
  }

  lemma NoNulAt(i: seq<byte>, r: Parsed<seq<byte>>)
    requires r == TakeUntilAndConsume(i, [NUL])
    ensures r.Done? ==> NoByte(r.value, NUL)
    ensures r.Done? ==> forall k | 0 <= k < |i| && i[k] == NUL && NoByte(i[..k], NUL) :: k == |r.value|
    ensures r.Error? <==> |i| >= 1 && NoByte(i, NUL)
  {
    if r.Done? {
      forall k | 0 <= k < |r.value| ensures r.value[k] != NUL {
        assert !OccursAt(i, [NUL], k);
        assert i[k] == r.value[k];
      }
      assert i[|r.value|] == NUL;
      forall k | 0 <= k < |i| && i[k] == NUL && NoByte(i[..k], NUL) ensures k == |r.value| {
        assert OccursAt(i, [NUL], k);
      }
    }
    if r.Error? {
      forall k | 0 <= k < |i| ensures i[k] != NUL {
        assert !OccursAt(i, [NUL], k);
      }
    }
    if |i| >= 1 && NoByte(i, NUL) {
      forall k: nat | k < |i| ensures !OccursAt(i, [NUL], k) {
      }
    }
  }

  /** `nom_parse_tree_ent_head`: type, permissions, a space and the path,
      a request for more input counted from the start of the head. */
  function ParseEntHead(i: seq<byte>): (r: Parsed<(seq<byte>, Permissions, seq<byte>)>)
    ensures r.Done? ==> (r.value.0 == TREE_TAG || r.value.0 == BLOB_TAG)
    ensures r.Done? ==> |r.rest| < |i|
    ensures !r.Abort?
  {
    var (i1, ty) :- ParseType(i);
    var (i2, perm) :- Shift(ParsePermissions(i1), |i| - |i1|);
    var (i3, _) :- Shift(Tag(i2, [SPACE]), |i| - |i2|);
    var (i4, path) :- Shift(ParsePath(i3), |i| - |i3|);
    Done(i4, (ty, perm, path))
  }

  /** `TreeEnt::decode`: the head, then a raw digest; fewer than 20 bytes
      after the head is a panic. */
  function DecodeEnt(b: seq<byte>): (r: Parsed<TreeEnt>)
    ensures r.Done? ==> |r.rest| < |b| && Utf8.Valid(r.value.path) && NoByte(r.value.path, NUL)
    ensures r.Done? ==> ProtocolHash.Valid(r.value.hash)
  {
    var (i, head) :- ParseEntHead(b);
    var (rest, h) :- ProtocolHash.DecodeBytes(i);
    ParsedPath(b);
    Done(rest, NewFrom(head.0, head.1, head.2, h))
  }

  lemma ParsedPath(b: seq<byte>)
    ensures ParseEntHead(b).Done? ==> Utf8.Valid(ParseEntHead(b).value.2) && NoByte(ParseEntHead(b).value.2, NUL)
  {
  }

  /** What the entry codec needs to read back what it wrote: a path the
      encoder can print, without the NUL that ends it, and a full digest. */
  predicate WellFormedEnt(e: TreeEnt) {
    Utf8.Valid(e.path) && NoByte(e.path, NUL) && ProtocolHash.Valid(e.hash)
  }

  predicate WellFormedEnts(es: seq<TreeEnt>) {
    forall k | 0 <= k < |es| :: Utf8.Valid(es[k].path) && NoByte(es[k].path, NUL) && ProtocolHash.Valid(es[k].hash)
  }

  /** An encoded entry decodes to itself, whatever follows. */
  lemma DecodeEncodeEnt(e: TreeEnt, rest: seq<byte>)
    requires WellFormedEnt(e)
    ensures DecodeEnt(EncodeEnt(e).0 + rest) == Done(rest, e)
  {
    var after := e.hash.bytes + rest;
    assert EncodeEnt(e).0 + rest == EntHead(e) + after;
    ParseEntHeadOf(e, after);
    ProtocolHash.DecodeEncodeBytes(e.hash, rest);
  }

  lemma ParseTypeOf(k: EntKind, after: seq<byte>)
    ensures ParseType(TypeTag(k) + after) == Done(after, TypeTag(k))
  {
    TagPrefix(TypeTag(k), after);
    if k == BlobKind {
      assert (TypeTag(k) + after)[0] == 49;
    }
  }

  lemma ParseEntHeadOf(e: TreeEnt, after: seq<byte>)
    requires Utf8.Valid(e.path) && NoByte(e.path, NUL)
    ensures ParseEntHead(EntHead(e) + after) == Done(after, (TypeTag(e.kind), e.perms, e.path))
  {
    var b := EntHead(e) + after;
    var ty := TypeTag(e.kind);
    var p := DisplayPermissions(e.perms);
    var i3 := e.path + [NUL] + after;
    var i2 := [SPACE] + i3;
    var i1 := p + i2;
    assert b == ty + i1;
    ParseTypeOf(e.kind, i1);
    ParseDisplayPermissions(e.perms, i2);
    TagPrefix([SPACE], i3);
    ParsePathOf(e.path, after);
    assert Shift(ParsePermissions(i1), |b| - |i1|) == Done(i2, e.perms);
    assert Shift(Tag(i2, [SPACE]), |b| - |i2|) == Done(i3, [SPACE]);
    assert Shift(ParsePath(i3), |b| - |i3|) == Done(after, e.path);
  }

  lemma ParsePathOf(path: seq<byte>, rest: seq<byte>)
    requires Utf8.Valid(path) && NoByte(path, NUL)
    ensures ParsePath(path + [NUL] + rest) == Done(rest, path)
  {
    TakeUntilAndConsumeByte(path, NUL, rest);
  }

  // ---------------------------------------------------------------------
  // Trees

  /** Entries are identified and ordered by path. */
  function Key(e: TreeEnt): seq<byte> { e.path }

  datatype Tree = Tree(entries: seq<TreeEnt>)

  predicate ValidTree(t: Tree) { PathSet.Sorted(t.entries, Key) }

  /** `Tree::new`. */
  function NewTree(): (t: Tree)
    ensures ValidTree(t) && |t.entries| == 0
  {
    Tree([])
  }

  /** The encoded entries, in ascending path order, with the sum of the
      counts the entry encoder reports. */
  function EncodeEntries(es: seq<TreeEnt>): (r: (seq<byte>, nat))
    requires forall k | 0 <= k < |es| :: Utf8.Valid(es[k].path)
    ensures (forall k | 0 <= k < |es| :: ProtocolHash.Valid(es[k].hash)) ==> |r.0| == r.1
  {
    if |es| == 0 then ([], 0)
    else
      var (head, n) := EncodeEnt(es[0]);
      var (tail, m) := EncodeEntries(es[1..]);
      (head + tail, n + m)
  }

  /** `Tree::required_size`: the sum of the entry sizes; the header is
      not counted. */
  function RequiredSize(es: seq<TreeEnt>): (n: nat)
    requires forall k | 0 <= k < |es| :: Utf8.Valid(es[k].path)
    ensures n == EncodeEntries(es).1
  {
    if |es| == 0 then 0 else RequiredSizeEnt(es[0]) + RequiredSize(es[1..])
  }

  const TREE_KEYWORD: seq<byte> := [116, 114, 101, 101, 32]

  /** `Tree::encode`: `tree <required size>\0`, then the entries, with the
      count of bytes reported. */
  function EncodeTree(t: Tree): (r: (seq<byte>, nat))
    requires forall k | 0 <= k < |t.entries| :: Utf8.Valid(t.entries[k].path)
    ensures (forall k | 0 <= k < |t.entries| :: ProtocolHash.Valid(t.entries[k].hash)) ==> |r.0| == r.1
    ensures r.0 == ObjectHead.Render(TREE_KEYWORD, RequiredSize(t.entries)) + EncodeEntries(t.entries).0
  {
    var head := ObjectHead.Render(TREE_KEYWORD, RequiredSize(t.entries));
    var (body, n) := EncodeEntries(t.entries);
    (head + body, |head| + n)
  }

  /** The `while let` loop of `nom_parse_tree`: entries are decoded and
      inserted until one fails to decode; an entry whose path is already
      present is dropped. */
  function DecodeEntries(b: seq<byte>, acc: seq<TreeEnt>): (r: Parsed<Tree>)
    requires PathSet.Sorted(acc, Key)
    ensures r.Done? ==> ValidTree(r.value) && |r.rest| <= |b|
    ensures r.Done? ==> PathSet.Elems(acc) <= PathSet.Elems(r.value.entries)
    ensures r.Done? ==> !DecodeEnt(r.rest).Done?
    ensures !r.Error? && !r.Incomplete?
    decreases |b|
  {
    var d := DecodeEnt(b);
    if d.Done? then
      var (acc', _) := PathSet.Insert(acc, Key, d.value);
      DecodeEntries(d.rest, acc')
    else if d.Abort? then Abort
    else Done(b, Tree(acc))
  }

  /** `nom_parse_tree`: the header, then, when at least the declared
      number of bytes follow it, the entries. */
  function DecodeTree(b: seq<byte>): (r: Parsed<Tree>)
    ensures ObjectHead.Parse(b, TREE_KEYWORD).Done? && |ObjectHead.Parse(b, TREE_KEYWORD).rest| < ObjectHead.Parse(b, TREE_KEYWORD).value ==>
              r == Incomplete(Size(ObjectHead.Parse(b, TREE_KEYWORD).value - |ObjectHead.Parse(b, TREE_KEYWORD).rest|))
    ensures ObjectHead.Parse(b, TREE_KEYWORD).Done? && |ObjectHead.Parse(b, TREE_KEYWORD).rest| >= ObjectHead.Parse(b, TREE_KEYWORD).value ==>
              r == DecodeEntries(ObjectHead.Parse(b, TREE_KEYWORD).rest, [])
    ensures r.Done? ==> ValidTree(r.value)
  {
    var (i, size) :- ObjectHead.Parse(b, TREE_KEYWORD);
    if |i| < size then Incomplete(Size(size - |i|))
    else DecodeEntries(i, [])
  }

  /** A tree the codec can write and read back: well-formed entries and a
      size that fits a `usize`. */
  predicate WellFormedTree(t: Tree) {
    ValidTree(t) &&
    WellFormedEnts(t.entries) &&
    RequiredSize(t.entries) <= Decimal.USIZE_MAX
  }

  /** Entries written in ascending path order are read back in that order
      onto a set of smaller paths. */
  lemma {:induction false} DecodeEncodeEntries(done: seq<TreeEnt>, es: seq<TreeEnt>)
    requires PathSet.Sorted(done + es, Key)
    requires WellFormedEnts(es)
    ensures PathSet.Sorted(done, Key)
    ensures DecodeEntries(EncodeEntries(es).0, done) == Done([], Tree(done + es))
    decreases |es|
  {
    SortedPrefix(done + es, |done|);
    assert (done + es)[..|done|] == done;
    if |es| == 0 {
      assert done + es == done;
      DecodeEntriesEmpty(done);
    } else {
      var done' := done + [es[0]];
      assert done' + es[1..] == done + es;
      SortedPrefix(done + es, |done| + 1);
      assert (done + es)[..|done| + 1] == done';
      var tail := EncodeEntries(es[1..]).0;
      assert EncodeEntries(es).0 == EncodeEnt(es[0]).0 + tail;
      DecodeEntriesStep(done, es[0], tail);
      DecodeEncodeEntries(done', es[1..]);
    }
  }

  lemma DecodeEntriesEmpty(done: seq<TreeEnt>)
    requires PathSet.Sorted(done, Key)
    ensures DecodeEntries([], done) == Done([], Tree(done))
  {
    assert ParseType([]).Incomplete?;
  }

  lemma SortedPrefix(s: seq<TreeEnt>, n: nat)
    requires PathSet.Sorted(s, Key) && n <= |s|
    ensures PathSet.Sorted(s[..n], Key)
  {
    forall i, j | 0 <= i < j < n ensures Lex.Less(Key(s[..n][i]), Key(s[..n][j])) {
      assert s[..n][i] == s[i] && s[..n][j] == s[j];
    }
  }

  /** One entry read from the front of the input joins the set as its
      last element. */
  lemma DecodeEntriesStep(done: seq<TreeEnt>, e: TreeEnt, tail: seq<byte>)
    requires PathSet.Sorted(done + [e], Key)
    requires WellFormedEnt(e)
    ensures PathSet.Sorted(done, Key)
    ensures DecodeEntries(EncodeEnt(e).0 + tail, done) == DecodeEntries(tail, done + [e])
  {
    PathSet.InsertLast(done, Key, e);
    DecodeEncodeEnt(e, tail);
  }

  /** Decoding what was encoded gives back the same tree with nothing
      left over. */
  lemma DecodeEncodeTree(t: Tree)
    requires WellFormedTree(t)
    ensures DecodeTree(EncodeTree(t).0) == Done([], t)
  {
    var n := RequiredSize(t.entries);
    var body := EncodeEntries(t.entries).0;
    ObjectHead.ParseRender(TREE_KEYWORD, n, body);
    assert |body| == n;
    DecodeEncodeEntries([], t.entries);
    assert [] + t.entries == t.entries;
  }
}
