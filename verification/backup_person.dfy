/** People of the older generation of commit elements: `name <email>
    date`, and the author and committer lines built on them. */
module BackupPerson {
  import opened Bytes
  import opened Nom
  import Utf8
  import BackupDate

  /** " <", between the name and the email. */
  const OPEN: seq<byte> := [SPACE, 60]
  /** "> ", between the email and the date. */
  const CLOSE: seq<byte> := [62, SPACE]
  /** "author " */
  const AUTHOR: seq<byte> := [97, 117, 116, 104, 111, 114, SPACE]
  /** "committer " */
  const COMMITTER: seq<byte> := [99, 111, 109, 109, 105, 116, 116, 101, 114, SPACE]

  datatype Person = Person(name: seq<byte>, email: seq<byte>, date: BackupDate.Date)
  datatype Author = Author(author: Person)
  datatype Committer = Committer(committer: Person)

  /** Text the writer can emit: `String`s, a date of `i64` parts. */
  predicate Writable(p: Person) {
    Utf8.Valid(p.name) && Utf8.Valid(p.email) && BackupDate.ValidDate(p.date)
  }

  /** What the parser can read back: a name without " <", an email
      without "> ", and a date after the epoch. */
  predicate Readable(p: Person) {
    Writable(p) && Avoids(p.name, OPEN) && Avoids(p.email, CLOSE) && p.date.elapsed.seconds >= 0
  }

  /** `serialise`: `name <email> date`, the date as the backup
      generation writes it. */
  function Serialise(p: Person): (r: seq<byte>)
    requires Writable(p)
    ensures |p.name| + 2 <= |r| && r[..|p.name| + 2] == p.name + OPEN
    ensures |BackupDate.Serialise(p.date)| < |r| && r[|r| - |BackupDate.Serialise(p.date)|..] == BackupDate.Serialise(p.date)
  {
    p.name + OPEN + p.email + CLOSE + BackupDate.Serialise(p.date)
  }

  /** `provide_size`: name, email, date and the four separator bytes. */
  function ProvideSize(p: Person): (n: nat)
    requires Writable(p)
    ensures n == |Serialise(p)|
  {
    |p.name| + |p.email| + BackupDate.ProvideSize(p.date) + 4
  }

  /** `nom_parse_person`: the name up to the first " <", the email up to
      the next "> ", both UTF-8, then the date. */
  function Parse(i: seq<byte>): (r: Parsed<Person>)
    ensures r.Done? ==> Utf8.Valid(r.value.name) && Avoids(r.value.name, OPEN)
    ensures r.Done? ==> Utf8.Valid(r.value.email) && Avoids(r.value.email, CLOSE)
    ensures r.Done? ==> r.value.date.elapsed.seconds >= 0 && |r.rest| < |i|
  {
    var (i1, name) :- TakeUntilAndConsume(i, OPEN);
    if !Utf8.Valid(name) then Error
    else
      var (i2, email) :- Shift(TakeUntilAndConsume(i1, CLOSE), |i| - |i1|);
      if !Utf8.Valid(email) then Error
      else
        var (i3, date) :- Shift(BackupDate.Parse(i2), |i| - |i2|);
        Done(i3, Person(name, email, date))
  }

  /** A readable person reads back. */
  lemma ParseSerialise(p: Person, rest: seq<byte>)
    requires Readable(p)
    requires |rest| == 0 || !IsDigit(rest[0])
    ensures Parse(Serialise(p) + rest) == Done(rest, p)
  {
    var d := BackupDate.Serialise(p.date);
    var tail := p.email + CLOSE + (d + rest);
    assert Serialise(p) + rest == p.name + OPEN + tail by {
      Regroup4(p.name + OPEN, p.email, CLOSE, d, rest);
      assert p.email + (CLOSE + (d + rest)) == tail;
    }
    TakeUntilAndConsumeSep(p.name, OPEN, tail);
    TakeUntilAndConsumeSep(p.email, CLOSE, d + rest);
    BackupDate.ParseSerialise(p.date, rest);
    ParseSteps(Serialise(p) + rest, tail, d + rest, p, rest);
  }

  /** The person parser is the name, the email, then the date. */
  lemma ParseSteps(i: seq<byte>, i1: seq<byte>, i2: seq<byte>, p: Person, rest: seq<byte>)
    requires TakeUntilAndConsume(i, OPEN) == Done(i1, p.name) && Utf8.Valid(p.name)
    requires TakeUntilAndConsume(i1, CLOSE) == Done(i2, p.email) && Utf8.Valid(p.email)
    requires BackupDate.Parse(i2) == Done(rest, p.date)
    ensures Parse(i) == Done(rest, p)
  {
    assert Shift(TakeUntilAndConsume(i1, CLOSE), |i| - |i1|) == Done(i2, p.email);
    assert Shift(BackupDate.Parse(i2), |i| - |i2|) == Done(rest, p.date);
  }

  /** `serialise` of an author line: `author ` and the person. */
  function SerialiseAuthor(a: Author): (r: seq<byte>)
    requires Writable(a.author)
    ensures |r| > |AUTHOR| && r[..|AUTHOR|] == AUTHOR && r[|AUTHOR|..] == Serialise(a.author)
  {
    AUTHOR + Serialise(a.author)
  }

  /** `provide_size` of an author line: the person and "author ". */
  function ProvideSizeAuthor(a: Author): (n: nat)
    requires Writable(a.author)
    ensures n == |SerialiseAuthor(a)|
  {
    ProvideSize(a.author) + 7
  }

  function ParseAuthor(i: seq<byte>): (r: Parsed<Author>)
    ensures r.Done? ==> |i| > |AUTHOR| && i[..|AUTHOR|] == AUTHOR
    ensures r.Done? ==> |r.rest| < |i|
  {
    var (i1, _) :- Tag(i, AUTHOR);
    var (i2, p) :- Shift(Parse(i1), |AUTHOR|);
    Done(i2, Author(p))
  }

  lemma ParseSerialiseAuthor(a: Author, rest: seq<byte>)
    requires Readable(a.author)
    requires |rest| == 0 || !IsDigit(rest[0])
    ensures ParseAuthor(SerialiseAuthor(a) + rest) == Done(rest, a)
  {
    assert SerialiseAuthor(a) + rest == AUTHOR + (Serialise(a.author) + rest);
    TagPrefix(AUTHOR, Serialise(a.author) + rest);
    ParseSerialise(a.author, rest);
  }

  /** `serialise` of a committer line: `committer ` and the person. */
  function SerialiseCommitter(c: Committer): (r: seq<byte>)
    requires Writable(c.committer)
    ensures |r| > |COMMITTER| && r[..|COMMITTER|] == COMMITTER && r[|COMMITTER|..] == Serialise(c.committer)
  {
    COMMITTER + Serialise(c.committer)
  }

  /** `provide_size` of a committer line: the person and "committer ". */
  function ProvideSizeCommitter(c: Committer): (n: nat)
    requires Writable(c.committer)
    ensures n == |SerialiseCommitter(c)|
  {
    ProvideSize(c.committer) + 10
  }

  function ParseCommitter(i: seq<byte>): (r: Parsed<Committer>)
    ensures r.Done? ==> |i| > |COMMITTER| && i[..|COMMITTER|] == COMMITTER
    ensures r.Done? ==> |r.rest| < |i|
  {
    var (i1, _) :- Tag(i, COMMITTER);
    var (i2, p) :- Shift(Parse(i1), |COMMITTER|);
    Done(i2, Committer(p))
  }

  lemma ParseSerialiseCommitter(c: Committer, rest: seq<byte>)
    requires Readable(c.committer)
    requires |rest| == 0 || !IsDigit(rest[0])
    ensures ParseCommitter(SerialiseCommitter(c) + rest) == Done(rest, c)
  {
    assert SerialiseCommitter(c) + rest == COMMITTER + (Serialise(c.committer) + rest);
    TagPrefix(COMMITTER, Serialise(c.committer) + rest);
    ParseSerialise(c.committer, rest);
  }
}
