/** The first lines of a commit in the `object` module generation: the
    tree reference, the parents and the message encoding. Hashes are
    `ElementsHash.HashRef`s, written as forty hex digits. */
module ModRefs {
  import opened Bytes
  import opened Nom
  import ElementsHash
  import Hex
  import opened Wrappers
  import Utf8

  /** "tree " */
  const TREE: seq<byte> := [116, 114, 101, 101, SPACE]
  /** "parent " */
  const PARENT: seq<byte> := [112, 97, 114, 101, 110, 116, SPACE]
  /** "encoding " */
  const ENCODING: seq<byte> := [101, 110, 99, 111, 100, 105, 110, 103, SPACE]

  // ---------------------------------------------------------------------
  // Tree reference

  datatype TreeRef = TreeRef(treeRef: ElementsHash.HashRef)

  /** `serialise`: `tree ` and the hash's hex text. */
  function SerialiseTreeRef(t: TreeRef): (r: seq<byte>)
    ensures |r| == 5 + 2 * |t.treeRef.hash| && r[..5] == TREE
    ensures Hex.FromHex(r[5..]) == Ok(t.treeRef.hash)
  {
    Hex.FromHexToHex(t.treeRef.hash);
    assert (TREE + ElementsHash.Display(t.treeRef))[5..] == ElementsHash.Display(t.treeRef);
    TREE + ElementsHash.Display(t.treeRef)
  }

  /** `provide_size`: the hex width plus five, the length of what is
      written (45 bytes). */
  function ProvideSizeTreeRef(t: TreeRef): (n: nat)
    requires ElementsHash.Valid(t.treeRef)
    ensures n == |SerialiseTreeRef(t)| == 45
  {
    ElementsHash.ProvideSize() + 5
  }

  /** `nom_parse_tree_ref`: "tree " then a hash, read without a length
      check: the forty bytes after the keyword decode to whatever the hex
      decoder makes of them. */
  function ParseTreeRef(i: seq<byte>): (r: Parsed<TreeRef>)
    ensures r.Done? ==> |i| >= 45 && i[..5] == TREE && r.rest == i[45..]
    ensures r.Done? ==> Hex.FromHex(i[5..45]) == Ok(r.value.treeRef.hash) && ElementsHash.Bounded(r.value.treeRef)
    ensures 5 <= |i| < 45 && i[..5] == TREE ==> r == Incomplete(Size(45))
    ensures |i| >= 1 && i[0] != TREE[0] ==> r.Error?
    ensures r.Abort? <==> |i| >= 45 && i[..5] == TREE && Hex.ReportPanics(i[5..45])
  {
    var (i1, _) :- Tag(i, TREE);
    assert |i| >= 5 ==> i1 == i[5..] && (|i1| >= 40 ==> i1[..40] == i[5..45]);
    var (i2, h) :- Shift(ElementsHash.NomParseAsWritten(i1), |i| - |i1|);
    Done(i2, TreeRef(h))
  }

  /** The line written reads back as the same reference. */
  lemma ParseSerialiseTreeRef(t: TreeRef, rest: seq<byte>)
    requires ElementsHash.Valid(t.treeRef)
    ensures ParseTreeRef(SerialiseTreeRef(t) + rest) == Done(rest, t)
  {
    var i1 := ElementsHash.Display(t.treeRef) + rest;
    assert SerialiseTreeRef(t) + rest == TREE + i1;
    TagPrefix(TREE, i1);
    ElementsHash.NomParseAsWrittenDisplay(t.treeRef, rest);
  }

  // ---------------------------------------------------------------------
  // Parents

  datatype Parent = Parent(parentRef: ElementsHash.HashRef)

  /** `serialise`: `parent ` and the hash's hex text. */
  function SerialiseParent(p: Parent): (r: seq<byte>)
    ensures |r| == 7 + 2 * |p.parentRef.hash| && r[..7] == PARENT
    ensures Hex.FromHex(r[7..]) == Ok(p.parentRef.hash)
  {
    Hex.FromHexToHex(p.parentRef.hash);
    assert (PARENT + ElementsHash.Display(p.parentRef))[7..] == ElementsHash.Display(p.parentRef);
    PARENT + ElementsHash.Display(p.parentRef)
  }

  /** `provide_size`: the hex width plus seven, the length of what is
      written (47 bytes). */
  function ProvideSizeParent(p: Parent): (n: nat)
    requires ElementsHash.Valid(p.parentRef)
    ensures n == |SerialiseParent(p)| == 47
  {
    ElementsHash.ProvideSize() + 7
  }

  /** `nom_parse_commit_parent`: "parent " then a hash, read without a
      length check. */
  function ParseParent(i: seq<byte>): (r: Parsed<Parent>)
    ensures r.Done? ==> |i| >= 47 && i[..7] == PARENT && r.rest == i[47..]
    ensures r.Done? ==> Hex.FromHex(i[7..47]) == Ok(r.value.parentRef.hash) && ElementsHash.Bounded(r.value.parentRef)
    ensures 7 <= |i| < 47 && i[..7] == PARENT ==> r == Incomplete(Size(47))
    ensures |i| >= 1 && i[0] != PARENT[0] ==> r.Error?
    ensures r.Abort? <==> |i| >= 47 && i[..7] == PARENT && Hex.ReportPanics(i[7..47])
  {
    var (i1, _) :- Tag(i, PARENT);
    assert |i| >= 7 ==> i1 == i[7..] && (|i1| >= 40 ==> i1[..40] == i[7..47]);
    var (i2, h) :- Shift(ElementsHash.NomParseAsWritten(i1), |i| - |i1|);
    Done(i2, Parent(h))
  }

  lemma ParseSerialiseParent(p: Parent, rest: seq<byte>)
    requires ElementsHash.Valid(p.parentRef)
    ensures ParseParent(SerialiseParent(p) + rest) == Done(rest, p)
  {
    var i1 := ElementsHash.Display(p.parentRef) + rest;
    assert SerialiseParent(p) + rest == PARENT + i1;
    TagPrefix(PARENT, i1);
    ElementsHash.NomParseAsWrittenDisplay(p.parentRef, rest);
  }

  datatype Parents = Parents(parents: seq<Parent>)

  predicate ValidParents(ps: Parents) {
    forall k | 0 <= k < |ps.parents| :: ElementsHash.Valid(ps.parents[k].parentRef)
  }

  /** Parents as the reader gives them: no hash longer than a digest. */
  predicate BoundedParents(ps: seq<Parent>) {
    forall k | 0 <= k < |ps| :: ElementsHash.Bounded(ps[k].parentRef)
  }

  /** Each parent line with its newline. */
  function ParentLines(ps: seq<Parent>): (r: seq<seq<byte>>)
    ensures |r| == |ps|
    ensures forall k | 0 <= k < |ps| :: r[k] == SerialiseParent(ps[k]) + [LF]
  {
    seq(|ps|, k requires 0 <= k < |ps| => SerialiseParent(ps[k]) + [LF])
  }

  /** `serialise`: every parent followed by a newline. */
  function SerialiseParents(ps: Parents): (r: seq<byte>)
    ensures |ps.parents| == 0 <==> r == []
    ensures |ps.parents| > 0 ==> |r| >= 7 && r[..7] == PARENT
  {
    Flatten(ParentLines(ps.parents))
  }

  /** `provide_size`: the sum of the parent sizes plus one newline each,
      which is the length of what is written. */
  function ProvideSizeParents(ps: Parents): (n: nat)
    requires ValidParents(ps)
    ensures n == |SerialiseParents(ps)| == 48 * |ps.parents|
    decreases |ps.parents|
  {
    if |ps.parents| == 0 then 0
    else
      var tail := Parents(ps.parents[1..]);
      assert ParentLines(ps.parents)[1..] == ParentLines(tail.parents);
      ProvideSizeParent(ps.parents[0]) + 1 + ProvideSizeParents(tail)
  }

  /** One parent line: a parent and its newline. */
  function ParseParentLine(i: seq<byte>): (r: Parsed<Parent>)
    ensures r.Done? ==> |r.rest| + 48 == |i| && i[47] == LF
    ensures r.Done? ==> Hex.FromHex(i[7..47]) == Ok(r.value.parentRef.hash) && ElementsHash.Bounded(r.value.parentRef)
    ensures |i| >= 1 && i[0] != PARENT[0] ==> r.Error?
    ensures r.Abort? <==> |i| >= 47 && i[..7] == PARENT && Hex.ReportPanics(i[7..47])
  {
    var (i1, p) :- ParseParent(i);
    var (i2, _) :- Shift(Char(i1, LF), |i| - |i1|);
    Done(i2, p)
  }

  /** A parent line written then read gives back the parent. */
  lemma ParseParentLineOf(p: Parent, rest: seq<byte>)
    requires ElementsHash.Valid(p.parentRef)
    ensures ParseParentLine(SerialiseParent(p) + [LF] + rest) == Done(rest, p)
  {
    assert SerialiseParent(p) + [LF] + rest == SerialiseParent(p) + ([LF] + rest);
    ParseSerialiseParent(p, [LF] + rest);
  }

  /** `nom_parse_commit_parents`: as many parent lines as there are. */
  function ParseParents(i: seq<byte>): (r: Parsed<Parents>)
    ensures r.Done? ==> BoundedParents(r.value.parents) && |r.rest| + 48 * |r.value.parents| == |i|
    ensures |i| >= 1 && i[0] != PARENT[0] ==> r == Done(i, Parents([]))
    ensures r.Abort? ==> |i| >= 47 && i[..7] == PARENT
    ensures !r.Error?
  {
    var (rest, ps) :- ParseParentLines(i);
    Done(rest, Parents(ps))
  }

  /** `many0!` over parent lines, with what it says about the lines read. */
  function ParseParentLines(i: seq<byte>): (r: Parsed<seq<Parent>>)
    ensures r == Many0(ParseParentLine, i)
    ensures r.Done? ==> |r.rest| + 48 * |r.value| == |i|
    ensures r.Done? ==> BoundedParents(r.value)
    ensures r.Abort? ==> |i| >= 47 && i[..7] == PARENT
    ensures !r.Error?
    decreases |i|
  {
    if |i| == 0 then Done(i, [])
    else match ParseParentLine(i)
      case Error => Done(i, [])
      case Abort => Abort
      case Incomplete(n) => Incomplete(n)
      case Done(rest, x) =>
        var more := Shift(ParseParentLines(rest), |i| - |rest|);
        if more.Done? then Done(more.rest, [x] + more.value) else more.PropagateFailure()
  }

  /** Parents written then read back give the same list; what follows
      must not start a parent line. */
  lemma ParseSerialiseParents(ps: Parents, rest: seq<byte>)
    requires ValidParents(ps)
    requires |rest| == 0 || rest[0] != PARENT[0]
    ensures ParseParents(SerialiseParents(ps) + rest) == Done(rest, ps)
  {
    var chunks := ParentLines(ps.parents);
    forall k | 0 <= k < |chunks|
      ensures ParseParentLine(Flatten(chunks[k..]) + rest) == Done(Flatten(chunks[k + 1..]) + rest, ps.parents[k])
    {
      assert chunks[k..][1..] == chunks[k + 1..];
      assert Flatten(chunks[k..]) + rest == SerialiseParent(ps.parents[k]) + [LF] + (Flatten(chunks[k + 1..]) + rest);
      ParseParentLineOf(ps.parents[k], Flatten(chunks[k + 1..]) + rest);
    }
    Many0Chunks(ParseParentLine, chunks, ps.parents, rest);
  }

  // ---------------------------------------------------------------------
  // Encoding

  datatype Encoding = Encoding(raw: seq<byte>)

  /** `is_valid_encoding_char`: an ASCII letter or digit, a space, a tab,
      a hyphen or an underscore. */
  predicate IsEncodingChar(c: byte) {
    IsAlphanumeric(c) || c == SPACE || c == TAB || c == 45 || c == 95
  }

  /** An encoding name the parser reads back: a non-empty run of valid
      characters. */
  predicate ValidEncoding(e: Encoding) {
    |e.raw| >= 1 && forall k | 0 <= k < |e.raw| :: IsEncodingChar(e.raw[k])
  }

  /** `serialise`: `encoding ` and the name. */
  function SerialiseEncoding(e: Encoding): (r: seq<byte>)
    ensures |r| == 9 + |e.raw| && r[..9] == ENCODING && r[9..] == e.raw
  {
    ENCODING + e.raw
  }

  /** `provide_size`: the name plus nine, the length of what is written. */
  function ProvideSizeEncoding(e: Encoding): (n: nat)
    ensures n == |SerialiseEncoding(e)|
  {
    |e.raw| + 9
  }

  /** `parse_string_eol`: a non-empty run of valid characters, which is
      always UTF-8. */
  function ParseStringEol(i: seq<byte>): (r: Parsed<seq<byte>>)
    ensures r.Done? <==> |i| >= 1 && IsEncodingChar(i[0])
    ensures r.Done? ==> i == r.value + r.rest && ValidEncoding(Encoding(r.value))
    ensures r.Done? && |r.rest| >= 1 ==> !IsEncodingChar(r.rest[0])
    ensures r.Incomplete? <==> |i| == 0
    ensures !r.Abort?
  {
    var (rest, v) :- TakeWhile1(i, IsEncodingChar);
    if Utf8.Valid(v) then Done(rest, v)
    else
      Utf8.AsciiValid(v);
      assert false;
      Error
  }

  lemma ParseStringEolOf(v: seq<byte>, rest: seq<byte>)
    requires ValidEncoding(Encoding(v))
    requires |rest| == 0 || !IsEncodingChar(rest[0])
    ensures ParseStringEol(v + rest) == Done(rest, v)
  {
    TakeWhile1Run(v, rest, IsEncodingChar);
    Utf8.AsciiValid(v);
  }

  /** `nom_parse_encoding`: "encoding " then a non-empty run of valid
      characters; the run ends before the first other byte. */
  function ParseEncoding(i: seq<byte>): (r: Parsed<Encoding>)
    ensures r.Done? ==> |i| > 9 && i[..9] == ENCODING && ValidEncoding(r.value)
    ensures r.Done? ==> i == SerialiseEncoding(r.value) + r.rest
    ensures r.Done? && |r.rest| >= 1 ==> !IsEncodingChar(r.rest[0])
    ensures |i| >= 9 && i[..9] != ENCODING ==> r.Error?
    ensures !r.Abort?
  {
    var (i1, _) :- Tag(i, ENCODING);
    var (i2, e) :- Shift(ParseStringEol(i1), |i| - |i1|);
    Done(i2, Encoding(e))
  }

  lemma ParseSerialiseEncoding(e: Encoding, rest: seq<byte>)
    requires ValidEncoding(e)
    requires |rest| == 0 || !IsEncodingChar(rest[0])
    ensures ParseEncoding(SerialiseEncoding(e) + rest) == Done(rest, e)
  {
    assert SerialiseEncoding(e) + rest == ENCODING + (e.raw + rest);
    TagPrefix(ENCODING, e.raw + rest);
    ParseStringEolOf(e.raw, rest);
  }
}
