/** The commit of the `object` module generation: the tree line, the
    parent lines, the author and committer lines, an optional encoding
    line, the extra headers, an empty line and the message. */
module ModCommit {
  import opened Bytes
  import opened Nom
  import opened Wrappers
  import Utf8
  import ElementsHash
  import Hex
  import ModRefs
  import ModExtras
  import BackupPerson

  datatype Commit = Commit(
    treeRef: ModRefs.TreeRef,
    parents: ModRefs.Parents,
    author: BackupPerson.Author,
    committer: BackupPerson.Committer,
    encoding: Option<ModRefs.Encoding>,
    extras: ModExtras.Extras,
    message: seq<byte>)

  /** What the writer needs: people it can print. */
  predicate Writable(c: Commit) {
    BackupPerson.Writable(c.author.author) && BackupPerson.Writable(c.committer.committer)
  }

  /** The encoding line, when there is one. */
  function EncodingLine(e: Option<ModRefs.Encoding>): seq<byte> {
    match e
    case None => []
    case Some(enc) => ModRefs.SerialiseEncoding(enc) + [LF]
  }

  /** The tree line and the parent lines. */
  function HeadText(t: ModRefs.TreeRef, ps: ModRefs.Parents): seq<byte> {
    ModRefs.SerialiseTreeRef(t) + [LF] + ModRefs.SerialiseParents(ps)
  }

  function SerialiseHead(c: Commit): seq<byte> {
    HeadText(c.treeRef, c.parents)
  }

  /** The author and committer lines. */
  function SerialisePeople(c: Commit): seq<byte>
    requires Writable(c)
  {
    BackupPerson.SerialiseAuthor(c.author) + [LF] + BackupPerson.SerialiseCommitter(c.committer) + [LF]
  }

  /** The extras, the empty line and the message. */
  function RemainderText(x: ModExtras.Extras, m: seq<byte>): seq<byte> {
    ModExtras.Display(x) + ([LF] + m)
  }

  /** The encoding line, the extras, the empty line and the message. */
  function SerialiseTail(c: Commit): seq<byte> {
    EncodingLine(c.encoding) + RemainderText(c.extras, c.message)
  }

  /** `serialise` and `Display`: the fields in the order the parser reads
      them, from the tree line to the message. */
  function Serialise(c: Commit): (r: seq<byte>)
    requires Writable(c)
    ensures |r| >= 5 && r[..5] == ModRefs.TREE
    ensures |c.message| < |r| && r[|r| - |c.message|..] == c.message
  {
    SerialiseEnds(c);
    SerialiseHead(c) + SerialisePeople(c) + SerialiseTail(c)
  }

  /** The text opens with the tree line and closes with the message. */
  lemma SerialiseEnds(c: Commit)
    requires Writable(c)
    ensures var r := SerialiseHead(c) + SerialisePeople(c) + SerialiseTail(c);
      |r| >= 5 && r[..5] == ModRefs.TREE && |c.message| < |r| && r[|r| - |c.message|..] == c.message
  {
    var t := ModRefs.SerialiseTreeRef(c.treeRef);
    var h := SerialiseHead(c);
    var hp := h + SerialisePeople(c);
    var r := hp + SerialiseTail(c);
    PrefixOf(t + [LF], ModRefs.SerialiseParents(c.parents), 5);
    PrefixOf(t, [LF], 5);
    PrefixOf(h, SerialisePeople(c), 5);
    PrefixOf(hp, SerialiseTail(c), 5);
    var front := hp + EncodingLine(c.encoding) + ModExtras.Display(c.extras) + [LF];
    Regroup4(hp, EncodingLine(c.encoding), ModExtras.Display(c.extras), [LF], c.message);
    assert r == front + c.message;
  }

  /** `provide_size` as written: the component sizes and their newlines,
      without the newline written after the extras. Every commit is thus
      one byte longer than the size reported for it, so the
      `commit <size>\0` header written in front of it is wrong. */
  function ProvideSizeAsWritten(c: Commit): (n: nat)
    requires Writable(c) && ElementsHash.Valid(c.treeRef.treeRef) && ModRefs.ValidParents(c.parents)
    ensures n + 1 == |Serialise(c)|
  {
    ModRefs.ProvideSizeTreeRef(c.treeRef) + 1
      + ModRefs.ProvideSizeParents(c.parents)
      + BackupPerson.ProvideSizeAuthor(c.author) + 1
      + BackupPerson.ProvideSizeCommitter(c.committer) + 1
      + (match c.encoding case Some(e) => ModRefs.ProvideSizeEncoding(e) + 1 case None => 0)
      + ModExtras.ProvideSize(c.extras)
      + |c.message|
  }

  /** `provide_size` counting the newline after the extras: the length of
      what is written. */
  function ProvideSize(c: Commit): (n: nat)
    requires Writable(c) && ElementsHash.Valid(c.treeRef.treeRef) && ModRefs.ValidParents(c.parents)
    ensures n == |Serialise(c)|
  {
    ProvideSizeAsWritten(c) + 1
  }

  // ---------------------------------------------------------------------
  // Parsing

  /** `chain!(tree_ref ~ '\n' ~ parents)`. The hashes are read without
      a length check, and a continuation byte where a hex digit belongs
      panics. */
  function ParseHead(i: seq<byte>): (r: Parsed<(ModRefs.TreeRef, ModRefs.Parents)>)
    ensures r.Done? ==> |r.rest| < |i| && |i| >= 46 && i[..5] == ModRefs.TREE && i[45] == LF
    ensures r.Done? ==> Hex.FromHex(i[5..45]) == Ok(r.value.0.treeRef.hash)
    ensures r.Done? ==> ElementsHash.Bounded(r.value.0.treeRef) && ModRefs.BoundedParents(r.value.1.parents)
    ensures r.Abort? ==> |i| >= 45 && i[..5] == ModRefs.TREE
    ensures |i| >= 45 && i[..5] == ModRefs.TREE && Hex.ReportPanics(i[5..45]) ==> r.Abort?
  {
    var (i1, t) :- ModRefs.ParseTreeRef(i);
    var (i2, _) :- Shift(Char(i1, LF), |i| - |i1|);
    var (i3, ps) :- Shift(ModRefs.ParseParents(i2), |i| - |i2|);
    Done(i3, (t, ps))
  }

  /** `chain!(author ~ '\n' ~ committer ~ '\n')`. */
  function ParsePeople(i: seq<byte>): (r: Parsed<(BackupPerson.Author, BackupPerson.Committer)>)
    ensures r.Done? ==> |r.rest| < |i|
  {
    var (i1, a) :- BackupPerson.ParseAuthor(i);
    var (i2, _) :- Shift(Char(i1, LF), |i| - |i1|);
    var (i3, c) :- Shift(BackupPerson.ParseCommitter(i2), |i| - |i2|);
    var (i4, _) :- Shift(Char(i3, LF), |i| - |i3|);
    Done(i4, (a, c))
  }

  /** `chain!(encoding ~ '\n')`, the optional line. */
  function ParseEncodingLine(i: seq<byte>): (r: Parsed<ModRefs.Encoding>)
    ensures r.Done? ==> i == ModRefs.SerialiseEncoding(r.value) + [LF] + r.rest
  {
    var (i1, e) :- ModRefs.ParseEncoding(i);
    var (i2, _) :- Shift(Char(i1, LF), |i| - |i1|);
    Done(i2, e)
  }

  /** The optional encoding, the extras, the empty line and a non-empty
      UTF-8 message, which runs to the end of the input. */
  function ParseTail(i: seq<byte>): (r: Parsed<(Option<ModRefs.Encoding>, ModExtras.Extras, seq<byte>)>)
    ensures r.Done? ==> r.rest == [] && |r.value.2| >= 1 && Utf8.Valid(r.value.2)
    ensures r.Done? ==> ModExtras.ValidExtras(r.value.1)
  {
    var (i1, e) :- Opt(ParseEncodingLine(i), i);
    var (i2, x) :- Shift(ModExtras.Parse(i1), |i| - |i1|);
    var (i3, _) :- Shift(Char(i2, LF), |i| - |i2|);
    var (i4, m) :- Shift(NonEmpty(i3), |i| - |i3|);
    if Utf8.Valid(m) then Done(i4, (e, x, m)) else Error
  }

  /** `nom_parse_commit`: the tree line, the parents, the people, then the
      tail; everything after the empty line is the message. */
  function Parse(i: seq<byte>): (r: Parsed<Commit>)
    ensures r.Done? ==> r.rest == [] && |r.value.message| >= 1 && Utf8.Valid(r.value.message)
    ensures r.Done? ==> ElementsHash.Bounded(r.value.treeRef.treeRef) && ModRefs.BoundedParents(r.value.parents.parents)
    ensures r.Done? ==> ModExtras.ValidExtras(r.value.extras)
    ensures r.Done? ==> |i| >= 45 && i[..5] == ModRefs.TREE
    ensures r.Abort? ==> |i| >= 45 && i[..5] == ModRefs.TREE
  {
    var (i1, head) :- ParseHead(i);
    var (i2, people) :- Shift(ParsePeople(i1), |i| - |i1|);
    var (i3, tail) :- Shift(ParseTail(i2), |i| - |i2|);
    Done(i3, Commit(head.0, head.1, people.0, people.1, tail.0, tail.1, tail.2))
  }

  // ---------------------------------------------------------------------
  // Reading back

  /** Extras whose first key would be read as an encoding line. */
  predicate ExtrasLookLikeEncoding(x: ModExtras.Extras) {
    |x.extras| >= 1 && |x.extras[0].key| >= 9 && x.extras[0].key[..9] == ModRefs.ENCODING
  }

  /** A commit the parser reads back as itself: well-formed fields, people
      the person parser reads back, a non-empty UTF-8 message, and, when
      there is no encoding, extras that do not begin like one. */
  predicate WellFormed(c: Commit) {
    Writable(c) &&
    ElementsHash.Valid(c.treeRef.treeRef) &&
    ModRefs.ValidParents(c.parents) &&
    BackupPerson.Readable(c.author.author) &&
    BackupPerson.Readable(c.committer.committer) &&
    (c.encoding.Some? ==> ModRefs.ValidEncoding(c.encoding.value)) &&
    (c.encoding.None? ==> !ExtrasLookLikeEncoding(c.extras)) &&
    ModExtras.WellFormed(c.extras) &&
    |c.message| >= 1 && Utf8.Valid(c.message)
  }

  /** The tree line and the parent lines are read back, up to a line
      that is not a parent line. */
  lemma ParseHeadOf(t: ModRefs.TreeRef, ps: ModRefs.Parents, after: seq<byte>)
    requires ElementsHash.Valid(t.treeRef) && ModRefs.ValidParents(ps)
    requires |after| == 0 || after[0] != ModRefs.PARENT[0]
    ensures ParseHead(HeadText(t, ps) + after) == Done(after, (t, ps))
  {
    var i := HeadText(t, ps) + after;
    var i2 := ModRefs.SerialiseParents(ps) + after;
    var i1 := [LF] + i2;
    assert i == ModRefs.SerialiseTreeRef(t) + i1;
    ModRefs.ParseSerialiseTreeRef(t, i1);
    ModRefs.ParseSerialiseParents(ps, after);
    assert Shift(Char(i1, LF), |i| - |i1|) == Done(i2, LF);
    assert Shift(ModRefs.ParseParents(i2), |i| - |i2|) == Done(after, ps);
  }

  lemma ParsePeopleOf(c: Commit, after: seq<byte>)
    requires BackupPerson.Readable(c.author.author) && BackupPerson.Readable(c.committer.committer)
    requires Writable(c)
    ensures ParsePeople(SerialisePeople(c) + after) == Done(after, (c.author, c.committer))
  {
    var i := SerialisePeople(c) + after;
    var i4 := after;
    var i3 := [LF] + i4;
    var i2 := BackupPerson.SerialiseCommitter(c.committer) + i3;
    var i1 := [LF] + i2;
    assert i == BackupPerson.SerialiseAuthor(c.author) + i1 by {
      Regroup4(BackupPerson.SerialiseAuthor(c.author), [LF], BackupPerson.SerialiseCommitter(c.committer), [LF], after);
    }
    BackupPerson.ParseSerialiseAuthor(c.author, i1);
    BackupPerson.ParseSerialiseCommitter(c.committer, i3);
    ParsePeopleSteps(i, i2, c.author, c.committer, after);
  }

  /** The people parser is the author, a newline, the committer and a
      newline. */
  lemma ParsePeopleSteps(i: seq<byte>, i2: seq<byte>, a: BackupPerson.Author, c: BackupPerson.Committer,
                         after: seq<byte>)
    requires BackupPerson.ParseAuthor(i) == Done([LF] + i2, a)
    requires BackupPerson.ParseCommitter(i2) == Done([LF] + after, c)
    ensures ParsePeople(i) == Done(after, (a, c))
  {
    var i1 := [LF] + i2;
    var i3 := [LF] + after;
    assert Shift(Char(i1, LF), |i| - |i1|) == Done(i2, LF);
    assert Shift(BackupPerson.ParseCommitter(i2), |i| - |i2|) == Done(i3, c);
    assert Shift(Char(i3, LF), |i| - |i3|) == Done(after, LF);
  }

  /** A newline among the first nine bytes rules out an encoding line. */
  lemma NotEncoding(i: seq<byte>, j: nat)
    requires j < |i| && j < 9 && i[j] == LF
    ensures ParseEncodingLine(i).Error?
  {
    assert ModRefs.ENCODING[j] != LF;
    if |i| >= 9 {
      assert i[..9][j] == LF;
    } else {
      assert i != ModRefs.ENCODING[..|i|] by {
        assert ModRefs.ENCODING[..|i|][j] != LF;
      }
    }
  }

  /** Without an encoding, what follows the committer line is not read as
      one. */
  lemma NoEncodingLine(x: ModExtras.Extras, after: seq<byte>)
    requires ModExtras.WellFormed(x) && !ExtrasLookLikeEncoding(x)
    ensures ParseEncodingLine(RemainderText(x, after)).Error?
  {
    var i := RemainderText(x, after);
    if |x.extras| == 0 {
      assert i[0] == LF;
      NotEncoding(i, 0);
    } else {
      var key := x.extras[0].key;
      var tail := ModExtras.DisplayFirstKey(x);
      assert i == key + ([LF] + (tail + [LF] + after));
      if |key| < 9 {
        assert i[|key|] == LF;
        NotEncoding(i, |key|);
      } else {
        assert i[..9] == key[..9];
      }
    }
  }

  /** The optional encoding line is read back as it was written. */
  lemma ParseEncodingOptOf(c: Commit, after: seq<byte>)
    requires WellFormed(c)
    requires after == RemainderText(c.extras, c.message)
    ensures Opt(ParseEncodingLine(EncodingLine(c.encoding) + after), EncodingLine(c.encoding) + after) == Done(after, c.encoding)
  {
    match c.encoding {
      case None =>
        NoEncodingLine(c.extras, c.message);
        assert EncodingLine(c.encoding) + after == after;
      case Some(e) =>
        assert EncodingLine(c.encoding) + after == ModRefs.SerialiseEncoding(e) + ([LF] + after);
        ModRefs.ParseSerialiseEncoding(e, [LF] + after);
    }
  }

  lemma ParseTailOf(c: Commit)
    requires WellFormed(c)
    ensures ParseTail(SerialiseTail(c)) == Done([], (c.encoding, c.extras, c.message))
  {
    var i := SerialiseTail(c);
    var i3 := [LF] + c.message;
    var i1 := RemainderText(c.extras, c.message);
    ParseEncodingOptOf(c, i1);
    ModExtras.ParseDisplay(c.extras, i3);
    MessageOf(i, i1, c.extras, c.message);
  }

  lemma MessageOf(i: seq<byte>, i1: seq<byte>, x: ModExtras.Extras, m: seq<byte>)
    requires |m| >= 1 && Utf8.Valid(m)
    requires Opt(ParseEncodingLine(i), i).Done? && Opt(ParseEncodingLine(i), i).rest == i1
    requires i1 == RemainderText(x, m) && |i1| <= |i|
    requires ModExtras.Parse(i1) == Done([LF] + m, x)
    ensures ParseTail(i) == Done([], (Opt(ParseEncodingLine(i), i).value, x, m))
  {
    var i3 := [LF] + m;
    assert Shift(ModExtras.Parse(i1), |i| - |i1|) == Done(i3, x);
    assert Shift(Char(i3, LF), |i| - |i3|) == Done(m, LF);
    assert Shift(NonEmpty(m), |i| - |m|) == Done([], m);
  }

  /** A well-formed commit written then read back is the same commit,
      with nothing left over. */
  lemma ParseSerialise(c: Commit)
    requires WellFormed(c)
    ensures Parse(Serialise(c)) == Done([], c)
  {
    var tail := SerialiseTail(c);
    var i1 := SerialisePeople(c) + tail;
    var i := Serialise(c);
    assert i == SerialiseHead(c) + i1 by {
      Assoc(SerialiseHead(c), SerialisePeople(c), tail);
    }
    assert ParseHead(i) == Done(i1, (c.treeRef, c.parents)) by {
      assert i1[0] == BackupPerson.AUTHOR[0];
      ParseHeadOf(c.treeRef, c.parents, i1);
    }
    assert ParsePeople(i1) == Done(tail, (c.author, c.committer)) by {
      ParsePeopleOf(c, tail);
    }
    assert ParseTail(tail) == Done([], (c.encoding, c.extras, c.message)) by {
      ParseTailOf(c);
    }
    ParseSteps(i, i1, tail, c);
  }

  /** The commit parser is the head, the people, then the tail. */
  lemma ParseSteps(i: seq<byte>, i1: seq<byte>, i2: seq<byte>, c: Commit)
    requires ParseHead(i) == Done(i1, (c.treeRef, c.parents))
    requires ParsePeople(i1) == Done(i2, (c.author, c.committer))
    requires ParseTail(i2) == Done([], (c.encoding, c.extras, c.message))
    ensures Parse(i) == Done([], c)
  {
    assert Shift(ParsePeople(i1), |i| - |i1|) == Done(i2, (c.author, c.committer));
    assert Shift(ParseTail(i2), |i| - |i2|) == Done([], (c.encoding, c.extras, c.message));
  }
}
