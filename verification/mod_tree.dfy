/** Trees of the `object` module generation: permission digits whose
    bits weigh Read 1, Write 2 and Executable 4, tree entries
    `<type><perms> <path>\0<digest>`, and the tree, a set of entries
    ordered and identified by path. The entry writer here departs from
    git's format in three ways; each is modelled as written next to the
    corrected form the rest of the model uses. */
module ModTree {
  import opened Bytes
  import opened Nom
  import opened Wrappers
  import Decimal
  import Utf8
  import PathSet
  import ElementsHash
  import ProtocolTree
  import Lex
  import Hex

  // ---------------------------------------------------------------------
  // Permissions

  datatype Permission = Read | Write | Executable

  type PermissionSet = set<Permission>

  /** The byte `'0'`. */
  const ZERO: byte := 48

  predicate IsOctal(c: byte) { ZERO <= c <= ZERO + 7 }

  /** `permission_write`: the digit value, Read weighing 1, Write 2 and
      Executable 4. */
  function Weight(s: PermissionSet): (n: nat)
    ensures n < 8
    ensures Read in s <==> n % 2 == 1
    ensures Write in s <==> n % 4 >= 2
    ensures Executable in s <==> n >= 4
  {
    (if Read in s then 1 else 0) + (if Write in s then 2 else 0) + (if Executable in s then 4 else 0)
  }

  /** A permission set is determined by its digit. */
  lemma WeightInjective(s: PermissionSet, t: PermissionSet)
    requires Weight(s) == Weight(t)
    ensures s == t
  {
    forall p | p in s ensures p in t {
      match p
      case Read =>
      case Write =>
      case Executable =>
    }
    forall p | p in t ensures p in s {
      match p
      case Read =>
      case Write =>
      case Executable =>
    }
  }

  /** `new_from_byte`: the set a digit `0`..`7` names; any other byte
      gives the empty set. */
  function NewFromByte(b: byte): (r: PermissionSet)
    ensures IsOctal(b) ==> Weight(r) == b - ZERO
    ensures !IsOctal(b) ==> r == {}
  {
    if b == ZERO + 1 then {Read}
    else if b == ZERO + 2 then {Write}
    else if b == ZERO + 3 then {Read, Write}
    else if b == ZERO + 4 then {Executable}
    else if b == ZERO + 5 then {Executable, Read}
    else if b == ZERO + 6 then {Executable, Write}
    else if b == ZERO + 7 then {Executable, Read, Write}
    else {}
  }

  /** `to_char`: the digit of a set, from which `new_from` gives the set
      back. */
  function ToChar(s: PermissionSet): (c: byte)
    ensures IsOctal(c) && c - ZERO == Weight(s)
    ensures NewFromByte(c) == s
  {
    var c := ZERO + Weight(s);
    WeightInjective(NewFromByte(c), s);
    c
  }

  /** A digit read and written back is the same digit. */
  lemma ToCharNewFrom(c: byte)
    requires IsOctal(c)
    ensures ToChar(NewFromByte(c)) == c
  {
  }

  /** Any other byte is read as the empty set and written back as `0`. */
  lemma ToCharOtherByte(c: byte)
    requires !IsOctal(c)
    ensures ToChar(NewFromByte(c)) == ZERO
  {
  }

  /** `nom_parse_permission_set`: one byte, whatever it is. */
  function ParsePermissionSet(i: seq<byte>): (r: Parsed<PermissionSet>)
    ensures |i| == 0 ==> r == Incomplete(Size(1))
    ensures |i| >= 1 ==> r == Done(i[1..], NewFromByte(i[0]))
  {
    var (rest, b) :- Take(i, 1);
    Done(rest, NewFromByte(b[0]))
  }

  datatype Permissions = Permissions(user: PermissionSet, group: PermissionSet, other: PermissionSet)

  /** `serialise`: `0`, then the decimal weights of user, group and
      other, one digit each. */
  function SerialisePermissions(p: Permissions): (r: seq<byte>)
    ensures r == [ZERO, ToChar(p.user), ToChar(p.group), ToChar(p.other)]
  {
    [ZERO] + Decimal.Render(Weight(p.user)) + Decimal.Render(Weight(p.group))
      + Decimal.Render(Weight(p.other))
  }

  /** `provide_size`: four, the length of what is written. */
  function ProvidePermissionsSize(p: Permissions): (n: nat)
    ensures n == |SerialisePermissions(p)|
  {
    4
  }

  /** `nom_parse_permissions`: `0` then three digits. */
  function ParsePermissions(i: seq<byte>): (r: Parsed<Permissions>)
    ensures r.Done? <==> |i| >= 4 && i[0] == ZERO
    ensures r.Done? ==> r == Done(i[4..], Permissions(NewFromByte(i[1]), NewFromByte(i[2]), NewFromByte(i[3])))
    ensures r.Error? <==> |i| >= 1 && i[0] != ZERO
    ensures !r.Abort?
  {
    var (i1, _) :- Tag(i, [ZERO]);
    var (i2, user) :- Shift(ParsePermissionSet(i1), 1);
    var (i3, group) :- Shift(ParsePermissionSet(i2), 2);
    var (i4, other) :- Shift(ParsePermissionSet(i3), 3);
    Done(i4, Permissions(user, group, other))
  }

  lemma ParseSerialisePermissions(p: Permissions, rest: seq<byte>)
    ensures ParsePermissions(SerialisePermissions(p) + rest) == Done(rest, p)
  {
    var d := SerialisePermissions(p) + rest;
    assert d[4..] == rest;
  }

  // ---------------------------------------------------------------------
  // Entry types

  datatype EntKind = Dir | File

  datatype TreeEnt = TreeEnt(kind: EntKind, perms: Permissions, path: seq<byte>, hash: ElementsHash.HashRef)

  /** `4`, git's mode prefix of a sub-tree (mode `40000`). */
  const TREE_TAG: seq<byte> := ProtocolTree.TREE_TAG
  /** `10`, git's mode prefix of a blob (mode `100644`). */
  const BLOB_TAG: seq<byte> := ProtocolTree.BLOB_TAG

  /** `get_ent_type` as written: a directory gets `10` and a file `4`. */
  function EntTypeAsWritten(k: EntKind): seq<byte> {
    match k
    case Dir => BLOB_TAG
    case File => TREE_TAG
  }

  /** `new_from` as written: `10` makes a directory and `4` a file. */
  function NewFromAsWritten(ty: seq<byte>, perms: Permissions, path: seq<byte>, h: ElementsHash.HashRef): (r: TreeEnt)
    requires ty == TREE_TAG || ty == BLOB_TAG
  {
    if ty == BLOB_TAG then TreeEnt(Dir, perms, path, h) else TreeEnt(File, perms, path, h)
  }

  /** The two tags are swapped against git's modes: a directory is
      written under the blob mode and the tree mode is read as a file. */
  lemma TagsInverted()
    ensures EntTypeAsWritten(Dir) == BLOB_TAG && EntTypeAsWritten(File) == TREE_TAG
    ensures forall p, path, h :: NewFromAsWritten(TREE_TAG, p, path, h).kind == File
  {
  }

  /** The entry type with git's modes: `4` for a directory, `10` for a
      file. */
  function EntType(k: EntKind): (r: seq<byte>)
    ensures r == TREE_TAG || r == BLOB_TAG
    ensures r == TREE_TAG <==> k == Dir
  {
    match k
    case Dir => TREE_TAG
    case File => BLOB_TAG
  }

  /** `new_from` with git's modes: the kind whose tag was read. */
  function NewFrom(ty: seq<byte>, perms: Permissions, path: seq<byte>, h: ElementsHash.HashRef): (r: TreeEnt)
    requires ty == TREE_TAG || ty == BLOB_TAG
    ensures EntType(r.kind) == ty
    ensures r.perms == perms && r.path == path && r.hash == h
  {
    if ty == TREE_TAG then TreeEnt(Dir, perms, path, h) else TreeEnt(File, perms, path, h)
  }

  /** Both tag conventions agree with themselves: each reads back the kind
      it writes. */
  lemma NewFromEntType(k: EntKind, p: Permissions, path: seq<byte>, h: ElementsHash.HashRef)
    ensures NewFrom(EntType(k), p, path, h).kind == k
    ensures NewFromAsWritten(EntTypeAsWritten(k), p, path, h).kind == k
  {
  }

  // ---------------------------------------------------------------------
  // Entry paths

  /** A path whose Debug form is the path between double quotes: printable
      ASCII without a quote or a backslash. */
  predicate Plain(p: seq<byte>) {
    forall k | 0 <= k < |p| :: 0x20 <= p[k] < 0x7f && p[k] != 34 && p[k] != 39 && p[k] != 92
  }

  /** `format!("{:?}", path)` of a plain path. */
  function DebugPath(p: seq<byte>): (r: seq<byte>)
    requires Plain(p)
    ensures |r| == |p| + 2 && r != p
  {
    [34] + p + [34]
  }

  /** The Debug form of a plain path is itself a path the reader
      accepts. */
  lemma DebugPathReadable(p: seq<byte>)
    requires Plain(p)
    ensures Utf8.Valid(DebugPath(p)) && NoByte(DebugPath(p), NUL)
  {
    var q := DebugPath(p);
    forall k | 0 <= k < |q| ensures 0 < q[k] < 0x80 {
      if 0 < k < |q| - 1 {
        assert q[k] == p[k - 1];
      }
    }
    Utf8.AsciiValid(q);
  }

  // ---------------------------------------------------------------------
  // Entries as written

  /** `serialise` as written: the swapped tag, the permissions, a space,
      the Debug form of the path, a NUL and the digest. */
  function SerialiseEntAsWritten(e: TreeEnt): (r: seq<byte>)
    requires Plain(e.path)
    ensures |r| == |EntTypeAsWritten(e.kind)| + 8 + |e.path| + |e.hash.hash|
    ensures r[..|EntTypeAsWritten(e.kind)|] == EntTypeAsWritten(e.kind)
    ensures r[|r| - |e.hash.hash|..] == e.hash.hash
  {
    HeadBytes(EntTypeAsWritten(e.kind), e.perms, DebugPath(e.path)) + e.hash.hash
  }

  /** `provide_size` as written: eight plus the length of the path, so
      that what is written for an entry is its tag and its digest longer
      than the size reported for it. */
  function ProvideSizeEntAsWritten(e: TreeEnt): (n: nat)
    ensures Plain(e.path) ==> |SerialiseEntAsWritten(e)| == n + |EntTypeAsWritten(e.kind)| + |e.hash.hash|
  {
    8 + |e.path|
  }

  /** `nom_parse_tree_ent` as written: tag, permissions, a space, the path
      up to the first NUL, and twenty digest bytes. */
  function ParseEntAsWritten(i: seq<byte>): (r: Parsed<TreeEnt>)
    ensures r.Done? ==> ElementsHash.Valid(r.value.hash) && |r.rest| < |i|
  {
    var (i1, head) :- ParseEntHead(i);
    var (i2, h) :- Shift(Take(i1, ElementsHash.DIGEST_SIZE), |i| - |i1|);
    Done(i2, NewFromAsWritten(head.0, head.1, head.2, ElementsHash.HashRef(h)))
  }

  /** An entry written as written reads back with the quotes as part of
      its path. */
  lemma QuotedPathReadBack(e: TreeEnt, rest: seq<byte>)
    requires Plain(e.path) && ElementsHash.Valid(e.hash)
    ensures ParseEntAsWritten(SerialiseEntAsWritten(e) + rest) == Done(rest, e.(path := DebugPath(e.path)))
    ensures e.(path := DebugPath(e.path)) != e
  {
    var q := DebugPath(e.path);
    var ty := EntTypeAsWritten(e.kind);
    var after := e.hash.hash + rest;
    DebugPathReadable(e.path);
    assert SerialiseEntAsWritten(e) + rest == HeadBytes(ty, e.perms, q) + after;
    ParseEntHeadOf(ty, e.perms, q, after);
    DigestOf(e.hash, rest);
    NewFromEntType(e.kind, e.perms, q, e.hash);
    var i := SerialiseEntAsWritten(e) + rest;
    assert Shift(Take(after, ElementsHash.DIGEST_SIZE), |i| - |after|) == Done(rest, e.hash.hash);
    assert NewFromAsWritten(ty, e.perms, q, ElementsHash.HashRef(e.hash.hash)) == e.(path := q);
  }

  // ---------------------------------------------------------------------
  // Entries, corrected

  /** The text of an entry in front of its digest. */
  function EntHead(e: TreeEnt): seq<byte> {
    HeadBytes(EntType(e.kind), e.perms, e.path)
  }

  /** `serialise` with git's tags and the raw path. */
  function SerialiseEnt(e: TreeEnt): (r: seq<byte>)
    ensures |r| == |EntType(e.kind)| + 6 + |e.path| + |e.hash.hash|
    ensures r[..|EntType(e.kind)|] == EntType(e.kind)
    ensures r[|r| - |e.hash.hash|..] == e.hash.hash
  {
    EntHead(e) + e.hash.hash
  }

  /** `provide_size` counting every byte written: tag, permissions, space,
      path, NUL and digest. */
  function ProvideSizeEnt(e: TreeEnt): (n: nat)
    requires ElementsHash.Valid(e.hash)
    ensures n == |SerialiseEnt(e)|
  {
    |EntType(e.kind)| + ProvidePermissionsSize(e.perms) + 1 + |e.path| + 1 + ElementsHash.DIGEST_SIZE
  }

  /** Tag, permissions, space and path, with the NUL after the path. */
  function ParseEntHead(i: seq<byte>): (r: Parsed<(seq<byte>, Permissions, seq<byte>)>)
    ensures r.Done? ==> (r.value.0 == TREE_TAG || r.value.0 == BLOB_TAG)
    ensures r.Done? ==> |r.rest| < |i| && Utf8.Valid(r.value.2) && NoByte(r.value.2, NUL)
    ensures !r.Abort?
  {
    var (i1, ty) :- ProtocolTree.ParseType(i);
    var (i2, perm) :- Shift(ParsePermissions(i1), |i| - |i1|);
    var (i3, _) :- Shift(Tag(i2, [SPACE]), |i| - |i2|);
    var (i4, path) :- Shift(ProtocolTree.ParsePath(i3), |i| - |i3|);
    Done(i4, (ty, perm, path))
  }

  /** `nom_parse_tree_ent` with git's tags. */
  function ParseEnt(i: seq<byte>): (r: Parsed<TreeEnt>)
    ensures r.Done? ==> ElementsHash.Valid(r.value.hash) && |r.rest| < |i|
    ensures r.Done? ==> Utf8.Valid(r.value.path) && NoByte(r.value.path, NUL)
  {
    var (i1, head) :- ParseEntHead(i);
    var (i2, h) :- Shift(Take(i1, ElementsHash.DIGEST_SIZE), |i| - |i1|);
    Done(i2, NewFrom(head.0, head.1, head.2, ElementsHash.HashRef(h)))
  }

  lemma ParseTypeOf(ty: seq<byte>, after: seq<byte>)
    requires ty == TREE_TAG || ty == BLOB_TAG
    ensures ProtocolTree.ParseType(ty + after) == Done(after, ty)
  {
    TagPrefix(ty, after);
    if ty == BLOB_TAG {
      assert (ty + after)[0] == 49;
    }
  }

  /** The text in front of a digest: tag, permissions, space, path, NUL. */
  function HeadBytes(ty: seq<byte>, p: Permissions, path: seq<byte>): seq<byte> {
    ty + SerialisePermissions(p) + [SPACE] + path + [NUL]
  }

  lemma ParseEntHeadOf(ty: seq<byte>, p: Permissions, path: seq<byte>, after: seq<byte>)
    requires ty == TREE_TAG || ty == BLOB_TAG
    requires Utf8.Valid(path) && NoByte(path, NUL)
    ensures ParseEntHead(HeadBytes(ty, p, path) + after) == Done(after, (ty, p, path))
  {
    var i3 := path + [NUL] + after;
    var i2 := [SPACE] + i3;
    var i1 := SerialisePermissions(p) + i2;
    HeadBytesSplit(ty, p, path, after);
    ParseTypeOf(ty, i1);
    ParseSerialisePermissions(p, i2);
    TagPrefix([SPACE], i3);
    ProtocolTree.ParsePathOf(path, after);
    ParseEntHeadSteps(ty + i1, i1, i2, i3, after, (ty, p, path));
  }

  lemma HeadBytesSplit(ty: seq<byte>, p: Permissions, path: seq<byte>, after: seq<byte>)
    ensures HeadBytes(ty, p, path) + after == ty + (SerialisePermissions(p) + ([SPACE] + (path + [NUL] + after)))
  {
  }

  /** The head parser is the tag, the permissions, the space, then the
      path. */
  lemma ParseEntHeadSteps(i: seq<byte>, i1: seq<byte>, i2: seq<byte>, i3: seq<byte>, after: seq<byte>,
                          v: (seq<byte>, Permissions, seq<byte>))
    requires ProtocolTree.ParseType(i) == Done(i1, v.0)
    requires ParsePermissions(i1) == Done(i2, v.1)
    requires Tag(i2, [SPACE]) == Done(i3, [SPACE])
    requires ProtocolTree.ParsePath(i3) == Done(after, v.2)
    ensures ParseEntHead(i) == Done(after, v)
  {
    assert Shift(ParsePermissions(i1), |i| - |i1|) == Done(i2, v.1);
    assert Shift(Tag(i2, [SPACE]), |i| - |i2|) == Done(i3, [SPACE]);
    assert Shift(ProtocolTree.ParsePath(i3), |i| - |i3|) == Done(after, v.2);
  }

  lemma DigestOf(h: ElementsHash.HashRef, rest: seq<byte>)
    requires ElementsHash.Valid(h)
    ensures Take(h.hash + rest, ElementsHash.DIGEST_SIZE) == Done(rest, h.hash)
  {
    assert (h.hash + rest)[..ElementsHash.DIGEST_SIZE] == h.hash;
    assert (h.hash + rest)[ElementsHash.DIGEST_SIZE..] == rest;
  }

  /** What the entry codec reads back: a UTF-8 path without NUL and a full
      digest. */
  predicate WellFormedEnt(e: TreeEnt) {
    Utf8.Valid(e.path) && NoByte(e.path, NUL) && ElementsHash.Valid(e.hash)
  }

  /** An entry written then read back is the same entry, in every field. */
  lemma ParseSerialiseEnt(e: TreeEnt, rest: seq<byte>)
    requires WellFormedEnt(e)
    ensures ParseEnt(SerialiseEnt(e) + rest) == Done(rest, e)
  {
    var after := e.hash.hash + rest;
    assert SerialiseEnt(e) + rest == EntHead(e) + after;
    ParseEntHeadOf(EntType(e.kind), e.perms, e.path, after);
    DigestOf(e.hash, rest);
    assert ElementsHash.HashRef(e.hash.hash) == e.hash;
  }

  // ---------------------------------------------------------------------
  // Trees

  /** Entries are identified and ordered by path. */
  function Key(e: TreeEnt): seq<byte> { e.path }

  datatype Tree = Tree(entries: seq<TreeEnt>)

  predicate ValidTree(t: Tree) { PathSet.Sorted(t.entries, Key) }

  predicate WellFormedTree(t: Tree) {
    ValidTree(t) && forall k | 0 <= k < |t.entries| :: WellFormedEnt(t.entries[k])
  }

  function EntChunks(es: seq<TreeEnt>): (r: seq<seq<byte>>)
    ensures |r| == |es|
    ensures forall k | 0 <= k < |es| :: r[k] == SerialiseEnt(es[k])
  {
    seq(|es|, k requires 0 <= k < |es| => SerialiseEnt(es[k]))
  }

  /** `serialise`: the entries in ascending path order, with nothing
      between them. */
  function SerialiseTree(t: Tree): (r: seq<byte>)
    ensures |t.entries| == 0 ==> r == []
    ensures |t.entries| > 0 ==>
      |EntType(t.entries[0].kind)| <= |r| && r[..|EntType(t.entries[0].kind)|] == EntType(t.entries[0].kind)
  {
    Flatten(EntChunks(t.entries))
  }

  /** What the tree writer emits, as written. */
  function SerialiseTreeAsWritten(es: seq<TreeEnt>): (r: seq<byte>)
    requires forall k | 0 <= k < |es| :: Plain(es[k].path)
    ensures |es| == 0 ==> r == []
    ensures |es| > 0 ==>
      |EntTypeAsWritten(es[0].kind)| <= |r| && r[..|EntTypeAsWritten(es[0].kind)|] == EntTypeAsWritten(es[0].kind)
    decreases |es|
  {
    if |es| == 0 then [] else SerialiseEntAsWritten(es[0]) + SerialiseTreeAsWritten(es[1..])
  }

  /** `provide_size` as written: each entry's size plus one, so that a
      tree as written is at least twenty bytes per entry longer than the
      size reported for it. */
  function ProvideSizeTreeAsWritten(es: seq<TreeEnt>): (n: nat)
    ensures (forall k | 0 <= k < |es| :: Plain(es[k].path) && ElementsHash.Valid(es[k].hash)) ==>
      n + 20 * |es| <= |SerialiseTreeAsWritten(es)|
    decreases |es|
  {
    if |es| == 0 then 0 else ProvideSizeEntAsWritten(es[0]) + 1 + ProvideSizeTreeAsWritten(es[1..])
  }

  /** `provide_size` counting what is written: the sum of the entry
      sizes. */
  function ProvideSizeTree(es: seq<TreeEnt>): (n: nat)
    requires forall k | 0 <= k < |es| :: ElementsHash.Valid(es[k].hash)
    ensures n == |Flatten(EntChunks(es))|
    decreases |es|
  {
    if |es| == 0 then 0
    else
      assert EntChunks(es)[1..] == EntChunks(es[1..]);
      ProvideSizeEnt(es[0]) + ProvideSizeTree(es[1..])
  }

  /** `nom_parse_tree`: as many entries as follow, inserted into the set
      in the order read; an entry whose path is present is dropped. */
  function ParseTree(i: seq<byte>): (r: Parsed<Tree>)
    ensures r.Done? ==> ValidTree(r.value) && |r.rest| <= |i|
    ensures !r.Error?
  {
    var (rest, es) :- Many0(ParseEnt, i);
    Done(rest, Tree(PathSet.InsertAll([], Key, es)))
  }

  /** For a path read more than once the first entry read stays. */
  lemma FirstEntryWins(es: seq<TreeEnt>, path: seq<byte>)
    ensures PathSet.Get(PathSet.InsertAll([], Key, es), Key, path) == PathSet.FirstWith(es, Key, path)
  {
    PathSet.InsertAllFirstWins([], Key, es, path);
  }

  /** A well-formed tree written then read back is the same tree, every
      entry in every field, with nothing left over. */
  lemma ParseSerialiseTree(t: Tree)
    requires WellFormedTree(t)
    ensures ParseTree(SerialiseTree(t)) == Done([], t)
  {
    var chunks := EntChunks(t.entries);
    var rest: seq<byte> := [];
    forall k | 0 <= k < |chunks|
      ensures ParseEnt(Flatten(chunks[k..]) + rest) == Done(Flatten(chunks[k + 1..]) + rest, t.entries[k])
    {
      FlattenFrom(chunks, k);
      var after := Flatten(chunks[k + 1..]) + rest;
      assert Flatten(chunks[k..]) + rest == chunks[k] + after;
      ParseSerialiseEnt(t.entries[k], after);
    }
    forall k | 0 <= k < |chunks| ensures |chunks[k]| > 0 {
      assert |SerialiseEnt(t.entries[k])| >= |EntType(t.entries[k].kind)| >= 1;
    }
    Many0Chunks(ParseEnt, chunks, t.entries, rest);
    assert SerialiseTree(t) + rest == SerialiseTree(t);
    PathSet.InsertAllAscending([], Key, t.entries);
    assert [] + t.entries == t.entries;
  }

  // ---------------------------------------------------------------------
  // Trees as written

  /** Every path of `es` has the plain Debug form. */
  predicate PlainPaths(es: seq<TreeEnt>) {
    forall k | 0 <= k < |es| :: Plain(es[k].path)
  }

  /** The entries with every path between double quotes. */
  function Quoted(es: seq<TreeEnt>): (r: seq<TreeEnt>)
    requires PlainPaths(es)
    ensures |r| == |es|
    ensures forall k | 0 <= k < |es| :: r[k] == es[k].(path := DebugPath(es[k].path))
  {
    seq(|es|, k requires 0 <= k < |es| => es[k].(path := DebugPath(es[k].path)))
  }

  /** Quoting tells paths apart as well as the paths themselves do. */
  lemma DebugPathInjective(a: seq<byte>, b: seq<byte>)
    requires Plain(a) && Plain(b) && DebugPath(a) == DebugPath(b)
    ensures a == b
  {
    assert a == DebugPath(a)[1..|a| + 1];
    assert b == DebugPath(b)[1..|b| + 1];
  }

  function EntChunksAsWritten(es: seq<TreeEnt>): (r: seq<seq<byte>>)
    requires PlainPaths(es)
    ensures |r| == |es|
    ensures forall k | 0 <= k < |es| :: r[k] == SerialiseEntAsWritten(es[k])
  {
    seq(|es|, k requires 0 <= k < |es| => SerialiseEntAsWritten(es[k]))
  }

  lemma {:induction false} SerialiseTreeAsWrittenChunks(es: seq<TreeEnt>)
    requires PlainPaths(es)
    ensures SerialiseTreeAsWritten(es) == Flatten(EntChunksAsWritten(es))
    decreases |es|
  {
    if |es| > 0 {
      assert EntChunksAsWritten(es)[1..] == EntChunksAsWritten(es[1..]);
      SerialiseTreeAsWrittenChunks(es[1..]);
    }
  }

  /** `nom_parse_tree` as written: as many entries as follow, read with
      the swapped tags, inserted into the set in the order read. */
  function ParseTreeAsWritten(i: seq<byte>): (r: Parsed<Tree>)
    ensures r.Done? ==> ValidTree(r.value) && |r.rest| <= |i|
    ensures !r.Error?
  {
    var (rest, es) :- Many0(ParseEntAsWritten, i);
    Done(rest, Tree(PathSet.InsertAll([], Key, es)))
  }

  /** The two readers take the same entry text for opposite kinds: the
      tag `4` is a file as written and a directory with git's modes. */
  lemma ReadersDisagree(ty: seq<byte>, p: Permissions, path: seq<byte>, h: ElementsHash.HashRef, rest: seq<byte>)
    requires ty == TREE_TAG || ty == BLOB_TAG
    requires Utf8.Valid(path) && NoByte(path, NUL) && ElementsHash.Valid(h)
    ensures ParseEntAsWritten(HeadBytes(ty, p, path) + h.hash + rest).Done?
    ensures ParseEnt(HeadBytes(ty, p, path) + h.hash + rest).Done?
    ensures ParseEntAsWritten(HeadBytes(ty, p, path) + h.hash + rest).value.kind
              != ParseEnt(HeadBytes(ty, p, path) + h.hash + rest).value.kind
    ensures ty == TREE_TAG ==> ParseEntAsWritten(HeadBytes(ty, p, path) + h.hash + rest).value.kind == File
  {
    var after := h.hash + rest;
    var i := HeadBytes(ty, p, path) + after;
    assert HeadBytes(ty, p, path) + h.hash + rest == i;
    ParseEntHeadOf(ty, p, path, after);
    DigestOf(h, rest);
    assert Shift(Take(after, ElementsHash.DIGEST_SIZE), |i| - |after|) == Done(rest, h.hash);
  }

  /** A tree written as written and read back holds exactly the written
      entries with their paths in quotes, each keeping its kind,
      permissions and digest. */
  lemma ParseSerialiseTreeAsWritten(t: Tree)
    requires ValidTree(t) && PlainPaths(t.entries)
    requires forall k | 0 <= k < |t.entries| :: ElementsHash.Valid(t.entries[k].hash)
    ensures ParseTreeAsWritten(SerialiseTreeAsWritten(t.entries)).Done?
    ensures ParseTreeAsWritten(SerialiseTreeAsWritten(t.entries)).rest == []
    ensures PathSet.Elems(ParseTreeAsWritten(SerialiseTreeAsWritten(t.entries)).value.entries)
              == PathSet.Elems(Quoted(t.entries))
  {
    var es := t.entries;
    var q := Quoted(es);
    var chunks := EntChunksAsWritten(es);
    var rest: seq<byte> := [];
    forall k | 0 <= k < |chunks|
      ensures ParseEntAsWritten(Flatten(chunks[k..]) + rest) == Done(Flatten(chunks[k + 1..]) + rest, q[k])
    {
      FlattenFrom(chunks, k);
      var after := Flatten(chunks[k + 1..]) + rest;
      assert Flatten(chunks[k..]) + rest == chunks[k] + after;
      QuotedPathReadBack(es[k], after);
    }
    forall k | 0 <= k < |chunks| ensures |chunks[k]| > 0 {
      assert |SerialiseEntAsWritten(es[k])| >= |EntTypeAsWritten(es[k].kind)| >= 1;
    }
    Many0Chunks(ParseEntAsWritten, chunks, q, rest);
    SerialiseTreeAsWrittenChunks(es);
    assert Flatten(chunks) + rest == SerialiseTreeAsWritten(es);
    QuotedElems(es);
  }

  /** Inserting the quoted entries of a tree keeps every one of them: no
      two share a path. */
  lemma QuotedElems(es: seq<TreeEnt>)
    requires ValidTree(Tree(es)) && PlainPaths(es)
    ensures PathSet.Elems(PathSet.InsertAll([], Key, Quoted(es))) == PathSet.Elems(Quoted(es))
  {
    var q := Quoted(es);
    var r := PathSet.InsertAll([], Key, q);
    assert PathSet.Keys([], Key) == {};
    forall k | 0 <= k < |q| ensures q[k] in PathSet.Elems(r) {
      forall j | 0 <= j < k ensures Key(q[j]) != Key(q[k]) {
        Lex.Irreflexive(es[j].path);
        if Key(q[j]) == Key(q[k]) {
          DebugPathInjective(es[j].path, es[k].path);
        }
      }
      PathSet.FirstWithDistinct(q, Key, k);
      PathSet.InsertAllFirstWins([], Key, q, Key(q[k]));
    }
  }

  // ---------------------------------------------------------------------
  // Display

  /** Printable ASCII: no NUL, no line feed. */
  predicate Printable(s: seq<byte>) {
    forall k | 0 <= k < |s| :: 0x20 <= s[k] < 0x7f
  }

  lemma PrintableAppend(a: seq<byte>, b: seq<byte>)
    requires Printable(a) && Printable(b)
    ensures Printable(a + b)
  {
    forall k | 0 <= k < |a + b| ensures 0x20 <= (a + b)[k] < 0x7f {
      if k >= |a| {
        assert (a + b)[k] == b[k - |a|];
      }
    }
  }

  /** `tree`, the word `Display` gives a directory. */
  const TREE_WORD: seq<byte> := [116, 114, 101, 101]
  /** `blob`, the word `Display` gives a file. */
  const BLOB_WORD: seq<byte> := [98, 108, 111, 98]

  /** `get_ent_type_str`. */
  function TypeWord(k: EntKind): seq<byte> {
    match k
    case Dir => TREE_WORD
    case File => BLOB_WORD
  }

  /** `Display` of an entry: the swapped tag and the permissions, then
      the kind's word, the hex digest and the Debug form of the path,
      separated by spaces. Unlike the serialisation it is printable text
      and ends in the quoted path. */
  function DisplayEnt(e: TreeEnt): (r: seq<byte>)
    requires Plain(e.path)
    ensures Printable(r)
    ensures |DebugPath(e.path)| <= |r| && r[|r| - |DebugPath(e.path)|..] == DebugPath(e.path)
  {
    var head := EntTypeAsWritten(e.kind) + SerialisePermissions(e.perms) + [SPACE] + TypeWord(e.kind) + [SPACE];
    var hex := ElementsHash.Display(e.hash);
    var q := DebugPath(e.path);
    assert Printable(head);
    assert Printable(hex) by {
      forall k | 0 <= k < |hex| ensures 0x20 <= hex[k] < 0x7f {
        assert Hex.IsLowerHexDigit(hex[k]);
      }
    }
    assert Printable(q) by {
      forall k | 0 <= k < |q| ensures 0x20 <= q[k] < 0x7f {
        if 0 < k < |q| - 1 {
          assert q[k] == e.path[k - 1];
        }
      }
    }
    PrintableAppend(head, hex);
    PrintableAppend(head + hex, [SPACE]);
    PrintableAppend(head + hex + [SPACE], q);
    head + hex + [SPACE] + q
  }

  function DisplayChunks(es: seq<TreeEnt>): (r: seq<seq<byte>>)
    requires PlainPaths(es)
    ensures |r| == |es|
    ensures forall k | 0 <= k < |es| :: r[k] == DisplayEnt(es[k]) + [LF]
  {
    seq(|es|, k requires 0 <= k < |es| => DisplayEnt(es[k]) + [LF])
  }

  /** `Display` of a tree: each entry's display on a line of its own, in
      path order. It holds a line feed where the serialisation holds an
      entry's NUL, and no NUL at all. */
  function DisplayTree(es: seq<TreeEnt>): (r: seq<byte>)
    requires PlainPaths(es)
    ensures NoByte(r, NUL)
    ensures |es| > 0 ==> |r| > 0 && r[|r| - 1] == LF
    ensures |es| == 0 ==> r == []
    decreases |es|
  {
    if |es| == 0 then []
    else
      var line := DisplayEnt(es[0]) + [LF];
      var more := DisplayTree(es[1..]);
      assert NoByte(line, NUL) by {
        forall k | 0 <= k < |line| ensures line[k] != NUL {
          if k < |line| - 1 {
            assert line[k] == DisplayEnt(es[0])[k];
          }
        }
      }
      assert NoByte(line + more, NUL) by {
        forall k | 0 <= k < |line + more| ensures (line + more)[k] != NUL {
          if k >= |line| {
            assert (line + more)[k] == more[k - |line|];
          }
        }
      }
      line + more
  }

  /** The serialisation of a tree with an entry holds a NUL, which its
      display never does: the two texts differ. */
  lemma DisplayIsNotSerialise(es: seq<TreeEnt>)
    requires PlainPaths(es) && |es| > 0
    ensures DisplayTree(es) != SerialiseTreeAsWritten(es)
  {
    var n := FirstNul(es);
    var d := DisplayTree(es);
    assert n < |d| ==> d[n] != NUL;
  }

  /** Where the first entry's path ends the serialisation holds a NUL. */
  lemma FirstNul(es: seq<TreeEnt>) returns (n: nat)
    requires PlainPaths(es) && |es| > 0
    ensures n < |SerialiseTreeAsWritten(es)| && SerialiseTreeAsWritten(es)[n] == NUL
  {
    var e := es[0];
    var head := HeadBytes(EntTypeAsWritten(e.kind), e.perms, DebugPath(e.path));
    var x := e.hash.hash + SerialiseTreeAsWritten(es[1..]);
    assert SerialiseTreeAsWritten(es) == head + x;
    n := |head| - 1;
    assert head[n] == NUL;
  }
}
