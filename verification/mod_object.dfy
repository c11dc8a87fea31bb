/** The object of the `object` module generation: a commit or a tree
    behind git's `<keyword> <size>\0` header. The reader checks the
    keyword but never looks at the size. */
module ModObject {
  import opened Bytes
  import opened Nom
  import ElementsHash
  import ModRefs
  import ModCommit
  import ModTree
  import ObjectHead
  import Decimal
  import PathSet

  /** `commit `, the keyword of a commit object with its space. */
  const COMMIT: seq<byte> := [99, 111, 109, 109, 105, 116, 32]
  /** `tree `, the keyword of a tree object with its space. */
  const TREE: seq<byte> := [116, 114, 101, 101, 32]

  datatype ObjectType = CommitType | TreeType

  datatype Object = CommitObject(commit: ModCommit.Commit) | TreeObject(tree: ModTree.Tree)

  /** What the writer needs to count and write an object. */
  predicate Writable(o: Object) {
    match o
    case CommitObject(c) =>
      ModCommit.Writable(c) && ElementsHash.Valid(c.treeRef.treeRef) && ModRefs.ValidParents(c.parents)
    case TreeObject(t) =>
      forall k | 0 <= k < |t.entries| :: ElementsHash.Valid(t.entries[k].hash)
  }

  /** An object the reader gives back as itself. */
  predicate WellFormed(o: Object) {
    match o
    case CommitObject(c) => ModCommit.WellFormed(c)
    case TreeObject(t) => ModTree.WellFormedTree(t)
  }

  function Keyword(o: Object): seq<byte> {
    if o.CommitObject? then COMMIT else TREE
  }

  /** What the writer as written needs as well: for a tree, paths whose
      Debug form is modelled. */
  predicate WritableAsWritten(o: Object) {
    Writable(o) && (o.TreeObject? ==> ModTree.PlainPaths(o.tree.entries))
  }

  // ---------------------------------------------------------------------
  // Writing as written

  /** The size the commit or the tree reports for itself, as written. */
  function BodySizeAsWritten(o: Object): nat
    requires Writable(o)
  {
    match o
    case CommitObject(c) => ModCommit.ProvideSizeAsWritten(c)
    case TreeObject(t) => ModTree.ProvideSizeTreeAsWritten(t.entries)
  }

  /** What `serialise` writes after the header: the commit's text, or the
      tree's entries with the swapped tags and quoted paths. Either is
      longer than the size it reports: a commit by its last newline, a
      tree by at least twenty bytes an entry. */
  function BodyAsWritten(o: Object): (r: seq<byte>)
    requires WritableAsWritten(o)
    ensures o.CommitObject? ==> |r| == BodySizeAsWritten(o) + 1
    ensures o.TreeObject? ==> BodySizeAsWritten(o) + 20 * |o.tree.entries| <= |r|
  {
    match o
    case CommitObject(c) =>
      ModCommit.Serialise(c)
    case TreeObject(t) =>
      assert forall k | 0 <= k < |t.entries| :: ModTree.Plain(t.entries[k].path) && ElementsHash.Valid(t.entries[k].hash);
      ModTree.SerialiseTreeAsWritten(t.entries)
  }

  /** `serialise` and `Display` as written: the keyword, the size the
      body reports as written, a NUL, then the body as written. */
  function SerialiseAsWritten(o: Object): (r: seq<byte>)
    requires WritableAsWritten(o)
    ensures |Keyword(o)| <= |r| && r[..|Keyword(o)|] == Keyword(o)
    ensures |BodyAsWritten(o)| < |r| && r[|r| - |BodyAsWritten(o)|..] == BodyAsWritten(o)
  {
    ObjectHead.Render(Keyword(o), BodySizeAsWritten(o)) + BodyAsWritten(o)
  }

  /** The header written as written names a size short of the body that
      follows it: by one byte for a commit and by at least twenty a tree
      entry. */
  lemma HeaderUndercounts(o: Object)
    requires WritableAsWritten(o) && BodySizeAsWritten(o) <= Decimal.USIZE_MAX
    ensures ObjectHead.Parse(SerialiseAsWritten(o), Keyword(o)) == Done(BodyAsWritten(o), BodySizeAsWritten(o))
    ensures o.CommitObject? ==> BodySizeAsWritten(o) + 1 == |BodyAsWritten(o)|
    ensures o.TreeObject? ==> BodySizeAsWritten(o) + 20 * |o.tree.entries| <= |BodyAsWritten(o)|
  {
    ObjectHead.ParseRender(Keyword(o), BodySizeAsWritten(o), BodyAsWritten(o));
  }

  /** `to_string`: for a commit, its text, which is what `serialise` writes
      after the header; for a tree, its `Display`, one printable line an
      entry, which is not what `serialise` writes. */
  function ToText(o: Object): (r: seq<byte>)
    requires WritableAsWritten(o)
    ensures o.CommitObject? ==> SerialiseAsWritten(o) == ObjectHead.Render(Keyword(o), BodySizeAsWritten(o)) + r
    ensures o.TreeObject? ==> NoByte(r, NUL)
    ensures o.TreeObject? && |o.tree.entries| > 0 ==> r != BodyAsWritten(o)
  {
    match o
    case CommitObject(c) => ModCommit.Serialise(c)
    case TreeObject(t) =>
      if |t.entries| > 0 then
        ModTree.DisplayIsNotSerialise(t.entries);
        ModTree.DisplayTree(t.entries)
      else ModTree.DisplayTree(t.entries)
  }

  /** `provide_size` as written: the body's size as written, the digits
      of that size, and eight bytes for a commit but five for a tree,
      although `tree ` and the NUL make six. */
  function ProvideSizeAsWritten(o: Object): nat
    requires Writable(o)
  {
    var s := BodySizeAsWritten(o);
    match o
    case CommitObject(_) => s + 8 + |Decimal.Render(s)|
    case TreeObject(_) => s + 5 + |Decimal.Render(s)|
  }

  /** An object is longer than the size reported for it: a commit by the
      one byte its body miscounts, a tree by the byte its header miscounts
      and at least twenty an entry more. */
  lemma ProvideSizeShort(o: Object)
    requires WritableAsWritten(o)
    ensures o.CommitObject? ==> ProvideSizeAsWritten(o) + 1 == |SerialiseAsWritten(o)|
    ensures o.TreeObject? ==> ProvideSizeAsWritten(o) + 1 + 20 * |o.tree.entries| <= |SerialiseAsWritten(o)|
  {
  }

  // ---------------------------------------------------------------------
  // Writing, corrected

  /** The commit or tree text with the tree's entries corrected. */
  function Body(o: Object): (r: seq<byte>)
    requires Writable(o)
    ensures |r| == BodySize(o)
    ensures o.CommitObject? ==> r == BodyAsWritten(o)
  {
    match o
    case CommitObject(c) => ModCommit.Serialise(c)
    case TreeObject(t) => ModTree.SerialiseTree(t)
  }

  /** The size the commit or the tree reports for itself, with the
      corrected counts of both. */
  function BodySize(o: Object): (n: nat)
    requires Writable(o)
  {
    match o
    case CommitObject(c) => ModCommit.ProvideSize(c)
    case TreeObject(t) => ModTree.ProvideSizeTree(t.entries)
  }

  /** `serialise` with the sizes and the tree entries corrected: the
      keyword, the length of the body, a NUL, then the body. */
  function Serialise(o: Object): (r: seq<byte>)
    requires Writable(o)
    ensures r == ObjectHead.Render(Keyword(o), |Body(o)|) + Body(o)
  {
    ObjectHead.Render(Keyword(o), BodySize(o)) + Body(o)
  }

  /** `provide_size` counting the header as written: the length of the
      object. */
  function ProvideSize(o: Object): (n: nat)
    requires Writable(o)
    ensures n == |Serialise(o)|
  {
    var s := BodySize(o);
    |Keyword(o)| + |Decimal.Render(s)| + 1 + s
  }

  // ---------------------------------------------------------------------
  // Reading

  /** `tag!(kw) ~ many1!(digit) ~ char!('\0')`. `digit` already takes the
      whole run of digits, so `many1!` stops after one round; the digits
      are dropped. */
  function ParseHeader(i: seq<byte>, kw: seq<byte>): (r: Parsed<seq<byte>>)
    ensures r.Done? ==> |kw| + 2 <= |i| && i[..|kw|] == kw
    ensures r.Done? ==> AllDigits(r.value) && |r.value| >= 1 && i == kw + r.value + [NUL] + r.rest
    ensures !r.Abort?
  {
    var (i1, _) :- Tag(i, kw);
    var (i2, ds) :- Shift(Digit(i1), |i| - |i1|);
    var (i3, _) :- Shift(Char(i2, NUL), |i| - |i2|);
    Done(i3, ds)
  }

  /** A header with any run of digits is read, whatever follows it. */
  lemma ParseHeaderOf(kw: seq<byte>, ds: seq<byte>, rest: seq<byte>)
    requires |ds| >= 1 && AllDigits(ds)
    ensures ParseHeader(kw + ds + [NUL] + rest, kw) == Done(rest, ds)
  {
    var i := kw + ds + [NUL] + rest;
    var i1 := ds + ([NUL] + rest);
    assert i == kw + i1;
    TagPrefix(kw, i1);
    DigitRun(ds, [NUL] + rest);
    assert Shift(Digit(i1), |i| - |i1|) == Done([NUL] + rest, ds);
    assert Shift(Char([NUL] + rest, NUL), |i| - |rest| - 1) == Done(rest, NUL);
  }

  /** `nom_parse_object_type`: the commit header is tried first; a request
      for more input from it is final. */
  function ParseObjectType(i: seq<byte>): (r: Parsed<ObjectType>)
    ensures r.Done? && r.value == CommitType ==> |COMMIT| <= |i| && i[..|COMMIT|] == COMMIT
    ensures r.Done? && r.value == TreeType ==> |TREE| <= |i| && i[..|TREE|] == TREE
    ensures r.Done? ==> |r.rest| < |i|
    ensures |i| >= 1 && i[0] != COMMIT[0] && i[0] != TREE[0] ==> r.Error?
    ensures !r.Abort?
  {
    var c := ParseHeader(i, COMMIT);
    if c.Done? then Done(c.rest, CommitType)
    else if c.Incomplete? then c.PropagateFailure()
    else
      var (rest, _) :- ParseHeader(i, TREE);
      Done(rest, TreeType)
  }

  /** `Readable::nom_parse`: the header names the parser for the rest;
      the size in the header plays no part, and a request for more input
      from the body is counted from the end of the header. */
  function Parse(i: seq<byte>): (r: Parsed<Object>)
    ensures r.Done? && r.value.CommitObject? ==> |COMMIT| <= |i| && i[..|COMMIT|] == COMMIT && r.rest == []
    ensures r.Done? && r.value.TreeObject? ==> |TREE| <= |i| && i[..|TREE|] == TREE && ModTree.ValidTree(r.value.tree)
    ensures |i| >= 1 && i[0] != COMMIT[0] && i[0] != TREE[0] ==> r.Error?
  {
    var (i1, t) :- ParseObjectType(i);
    match t
    case CommitType =>
      var (rest, c) :- ModCommit.Parse(i1);
      Done(rest, CommitObject(c))
    case TreeType =>
      var (rest, tr) :- ModTree.ParseTree(i1);
      Done(rest, TreeObject(tr))
  }

  /** `Readable::nom_parse` as written: the tree branch reads entries
      with the swapped tags. */
  function ParseAsWritten(i: seq<byte>): (r: Parsed<Object>)
    ensures r.Done? && r.value.CommitObject? ==> |COMMIT| <= |i| && i[..|COMMIT|] == COMMIT && r.rest == []
    ensures r.Done? && r.value.TreeObject? ==> |TREE| <= |i| && i[..|TREE|] == TREE && ModTree.ValidTree(r.value.tree)
    ensures |i| >= 1 && i[0] != COMMIT[0] && i[0] != TREE[0] ==> r.Error?
  {
    var (i1, t) :- ParseObjectType(i);
    match t
    case CommitType =>
      var (rest, c) :- ModCommit.Parse(i1);
      Done(rest, CommitObject(c))
    case TreeType =>
      var (rest, tr) :- ModTree.ParseTreeAsWritten(i1);
      Done(rest, TreeObject(tr))
  }

  /** An object written as written and read back as written: a commit is
      itself, a tree holds its entries with their paths in quotes. */
  lemma ParseSerialiseAsWritten(o: Object)
    requires WellFormed(o) && WritableAsWritten(o)
    ensures ParseAsWritten(SerialiseAsWritten(o)).Done? && ParseAsWritten(SerialiseAsWritten(o)).rest == []
    ensures o.CommitObject? ==> ParseAsWritten(SerialiseAsWritten(o)).value == o
    ensures o.TreeObject? ==> ParseAsWritten(SerialiseAsWritten(o)).value.TreeObject?
    ensures o.TreeObject? ==> PathSet.Elems(ParseAsWritten(SerialiseAsWritten(o)).value.tree.entries)
                                == PathSet.Elems(ModTree.Quoted(o.tree.entries))
  {
    var ds := Decimal.Render(BodySizeAsWritten(o));
    var body := BodyAsWritten(o);
    var i := SerialiseAsWritten(o);
    assert i == Keyword(o) + ds + [NUL] + body;
    ParseObjectTypeOf(o, ds, body);
    var ty := if o.CommitObject? then CommitType else TreeType;
    match o
    case CommitObject(c) =>
      ModCommit.ParseSerialise(c);
      ParseSteps(i, body, ty, Done([], o), Done([], o));
    case TreeObject(t) =>
      ModTree.ParseSerialiseTreeAsWritten(t);
      var r := ModTree.ParseTreeAsWritten(body);
      ParseSteps(i, body, ty, Error, Done([], TreeObject(r.value)));
  }

  /** Both readers are the header, then the body's reader: `c` is what
      the corrected reader makes of the body, `w` what the reader as
      written does. */
  lemma ParseSteps(i: seq<byte>, body: seq<byte>, ty: ObjectType, c: Parsed<Object>, w: Parsed<Object>)
    requires ParseObjectType(i) == Done(body, ty)
    requires ty == CommitType ==> c.Done? && c.value.CommitObject? && ModCommit.Parse(body) == Done(c.rest, c.value.commit) && w == c
    requires ty == TreeType && c.Done? ==> c.value.TreeObject? && ModTree.ParseTree(body) == Done(c.rest, c.value.tree)
    requires ty == TreeType && w.Done? ==> w.value.TreeObject? && ModTree.ParseTreeAsWritten(body) == Done(w.rest, w.value.tree)
    ensures c.Done? ==> Parse(i) == c
    ensures w.Done? ==> ParseAsWritten(i) == w
  {
  }

  /** The header of either keyword is told apart by the reader. */
  lemma ParseObjectTypeOf(o: Object, ds: seq<byte>, rest: seq<byte>)
    requires |ds| >= 1 && AllDigits(ds)
    ensures ParseObjectType(Keyword(o) + ds + [NUL] + rest)
              == Done(rest, if o.CommitObject? then CommitType else TreeType)
  {
    var i := Keyword(o) + ds + [NUL] + rest;
    ParseHeaderOf(Keyword(o), ds, rest);
    if o.TreeObject? {
      assert i[0] == TREE[0] != COMMIT[0];
      assert Tag(i, COMMIT).Error?;
    }
  }

  /** A well-formed object is read back as itself from a header with any
      size at all, so a wrong size goes unnoticed. */
  lemma ParseIgnoresSize(o: Object, n: nat)
    requires WellFormed(o)
    ensures Parse(ObjectHead.Render(Keyword(o), n) + Body(o)) == Done([], o)
  {
    var ds := Decimal.Render(n);
    var body := Body(o);
    var i := ObjectHead.Render(Keyword(o), n) + body;
    assert i == Keyword(o) + ds + [NUL] + body;
    ParseObjectTypeOf(o, ds, body);
    var ty := if o.CommitObject? then CommitType else TreeType;
    match o
    case CommitObject(c) =>
      ModCommit.ParseSerialise(c);
      ParseSteps(i, body, ty, Done([], o), Done([], o));
    case TreeObject(t) =>
      ModTree.ParseSerialiseTree(t);
      ParseSteps(i, body, ty, Done([], o), Error);
  }

  /** A well-formed object written then read back is the same object,
      with nothing left over. */
  lemma ParseSerialise(o: Object)
    requires WellFormed(o)
    ensures Parse(Serialise(o)) == Done([], o)
  {
    ParseIgnoresSize(o, |Body(o)|);
  }
}
