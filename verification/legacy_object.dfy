/** The first generation of object code, in one file: dates, people and
    the commit parser. Its date prints the offset as a plain signed
    number and its extras are pairs of lines; the commit parser starts
    at the `commit <size>\0` header of the loose object. */
module LegacyObject {
  import opened Bytes
  import opened Nom
  import opened Wrappers
  import opened Errors
  import Utf8
  import Decimal
  import Timezone
  import ObjectHead
  import ElementsHash
  import ModRefs
  import ModExtras
  import ModCommit
  import PathSet
  import BackupPerson
  import Objectable

  // ---------------------------------------------------------------------
  // Dates

  /** Minutes east of UTC and seconds since the epoch, in the order
      `Date::new` takes them. */
  datatype Date = Date(tz: int, elapsed: int)

  /** The number `Display` writes for an offset: the clock number `HHMM`
      with the offset's sign. */
  function TzNumber(tz: int): (x: int)
    ensures tz < 0 <==> x < 0
    ensures Timezone.Abs(x) == Timezone.Clock(Timezone.Abs(tz))
  {
    var c: int := Timezone.Clock(Timezone.Abs(tz));
    if tz < 0 then -c else c
  }

  /** `Display for Date`: the seconds, a space and the signed clock
      number, with neither padding nor a `+`. */
  function DisplayDate(d: Date): seq<byte> {
    Decimal.RenderInt(d.elapsed) + [SPACE] + Decimal.RenderInt(TzNumber(d.tz))
  }

  /** `nom_parse_date`: an `i64` digit run, a space, then the offset read
      as a sign (`+` when absent) and a clock number. */
  function ParseDate(i: seq<byte>): (r: Parsed<Date>)
    ensures r.Done? ==> 0 <= r.value.elapsed <= Decimal.I64_MAX && |r.rest| < |i|
    ensures |i| >= 1 && !IsDigit(i[0]) ==> r.Error?
    ensures !r.Abort?
  {
    var (i1, time) :- Number(i, Decimal.I64_MAX);
    var (i2, _) :- Shift(Tag(i1, [SPACE]), |i| - |i1|);
    var (i3, tz) :- Shift(Timezone.Parse(i2), |i| - |i2|);
    Done(i3, Date(tz, time))
  }

  /** What the date parser reads back: seconds it can read as digits and
      an offset whose clock number is an `i64`. */
  predicate ReadableDate(d: Date) {
    0 <= d.elapsed <= Decimal.I64_MAX && Timezone.Fits(d.tz)
  }

  /** The printed offset reads back as the offset. */
  lemma ParseTzNumber(tz: int, rest: seq<byte>)
    requires Timezone.Fits(tz)
    requires |rest| == 0 || !IsDigit(rest[0])
    ensures Timezone.Parse(Decimal.RenderInt(TzNumber(tz)) + rest) == Done(rest, tz)
  {
    var digits := Decimal.Render(Timezone.Clock(Timezone.Abs(tz)));
    if tz < 0 {
      assert Decimal.RenderInt(TzNumber(tz)) + rest == [Timezone.SignByte(tz)] + digits + rest;
      Timezone.ParseSigned(tz, digits, rest);
    } else {
      var i := digits + rest;
      assert Decimal.RenderInt(TzNumber(tz)) + rest == i;
      assert Timezone.ParseSign(i) == Done(i, 1);
      NumberRender(Timezone.Clock(tz), Decimal.I64_MAX, rest);
      Timezone.MinutesClock(tz);
      assert Shift(Number(i, Decimal.I64_MAX), 0) == Done(rest, Timezone.Clock(tz));
    }
  }

  /** A readable date printed then parsed is the same date, whatever
      follows that is not a digit. */
  lemma ParseDisplayDate(d: Date, rest: seq<byte>)
    requires ReadableDate(d)
    requires |rest| == 0 || !IsDigit(rest[0])
    ensures ParseDate(DisplayDate(d) + rest) == Done(rest, d)
  {
    var i3 := Decimal.RenderInt(TzNumber(d.tz)) + rest;
    var i2 := [SPACE] + i3;
    var i := DisplayDate(d) + rest;
    assert Number(i, Decimal.I64_MAX) == Done(i2, d.elapsed) by {
      assert Decimal.RenderInt(d.elapsed) == Decimal.Render(d.elapsed);
      Regroup3(Decimal.Render(d.elapsed), [SPACE], Decimal.RenderInt(TzNumber(d.tz)), rest);
      NumberRender(d.elapsed, Decimal.I64_MAX, i2);
    }
    assert Timezone.Parse(i3) == Done(rest, d.tz) by {
      ParseTzNumber(d.tz, rest);
    }
    ParseDateSteps(i, i3, d, rest);
  }

  /** The date parser is the seconds, a space, then the offset. */
  lemma ParseDateSteps(i: seq<byte>, i3: seq<byte>, d: Date, rest: seq<byte>)
    requires Number(i, Decimal.I64_MAX) == Done([SPACE] + i3, d.elapsed)
    requires Timezone.Parse(i3) == Done(rest, d.tz)
    ensures ParseDate(i) == Done(rest, d)
  {
    var i2 := [SPACE] + i3;
    TagPrefix([SPACE], i3);
    assert Shift(Tag(i2, [SPACE]), |i| - |i2|) == Done(i3, [SPACE]);
    assert Shift(Timezone.Parse(i3), |i| - |i3|) == Done(rest, d.tz);
  }

  /** A date before the epoch is printed with a minus sign, which the
      digit parser rejects. */
  lemma NegativeElapsedUnreadable(d: Date, rest: seq<byte>)
    requires d.elapsed < 0
    ensures ParseDate(DisplayDate(d) + rest).Error?
  {
    assert (DisplayDate(d) + rest)[0] == Decimal.MINUS;
  }

  /** The documented example: `Date::new(1464729412, 60)` printed and
      read back with `parse_bytes`. */
  lemma DateDocExample(tz: int, elapsed: int)
    requires tz == 1464729412 && elapsed == 60
    ensures Objectable.ParseBytes(ParseDate(DisplayDate(Date(tz, elapsed)))) == Ok(Date(tz, elapsed))
  {
    assert Timezone.Fits(tz) by {
      assert Timezone.Clock(tz) == 2441215652;
    }
    ParseBytesDisplayDate(Date(tz, elapsed));
  }

  /** Any readable date survives `parse_bytes` of its printed form. */
  lemma ParseBytesDisplayDate(d: Date)
    requires ReadableDate(d)
    ensures Objectable.ParseBytes(ParseDate(DisplayDate(d))) == Ok(d)
  {
    ParseDisplayDate(d, []);
    assert DisplayDate(d) + [] == DisplayDate(d);
  }

  // ---------------------------------------------------------------------
  // People

  datatype Person = Person(name: seq<byte>, email: seq<byte>, date: Date)

  /** `Display for Person`: `name <email> date`. */
  function DisplayPerson(p: Person): seq<byte> {
    p.name + BackupPerson.OPEN + p.email + BackupPerson.CLOSE + DisplayDate(p.date)
  }

  /** `nom_parse_person`: the name up to the first " <", the email up to
      the next "> ", both UTF-8, then the date. */
  function ParsePerson(i: seq<byte>): (r: Parsed<Person>)
    ensures r.Done? ==> Utf8.Valid(r.value.name) && Avoids(r.value.name, BackupPerson.OPEN)
    ensures r.Done? ==> Utf8.Valid(r.value.email) && Avoids(r.value.email, BackupPerson.CLOSE)
    ensures r.Done? ==> r.value.date.elapsed >= 0 && |r.rest| < |i|
    ensures !r.Abort?
  {
    var (i1, name) :- TakeUntilAndConsume(i, BackupPerson.OPEN);
    if !Utf8.Valid(name) then Error
    else
      var (i2, email) :- Shift(TakeUntilAndConsume(i1, BackupPerson.CLOSE), |i| - |i1|);
      if !Utf8.Valid(email) then Error
      else
        var (i3, date) :- Shift(ParseDate(i2), |i| - |i2|);
        Done(i3, Person(name, email, date))
  }

  /** What the person parser reads back. */
  predicate ReadablePerson(p: Person) {
    Utf8.Valid(p.name) && Avoids(p.name, BackupPerson.OPEN) &&
    Utf8.Valid(p.email) && Avoids(p.email, BackupPerson.CLOSE) &&
    ReadableDate(p.date)
  }

  /** A readable person printed then parsed is the same person. */
  lemma ParseDisplayPerson(p: Person, rest: seq<byte>)
    requires ReadablePerson(p)
    requires |rest| == 0 || !IsDigit(rest[0])
    ensures ParsePerson(DisplayPerson(p) + rest) == Done(rest, p)
  {
    var d := DisplayDate(p.date);
    assert ParseDate(d + rest) == Done(rest, p.date) by {
      ParseDisplayDate(p.date, rest);
    }
    assert DisplayPerson(p) + rest == p.name + BackupPerson.OPEN + (p.email + BackupPerson.CLOSE + (d + rest)) by {
      Regroup4(p.name + BackupPerson.OPEN, p.email, BackupPerson.CLOSE, d, rest);
      Assoc(p.email, BackupPerson.CLOSE, d + rest);
    }
    ParsePersonParts(p.name, p.email, d + rest, p.date, rest);
  }

  /** A name, an email and the text of a date, with their separators,
      read as the person. */
  lemma ParsePersonParts(name: seq<byte>, email: seq<byte>, x: seq<byte>, date: Date, rest: seq<byte>)
    requires Utf8.Valid(name) && Avoids(name, BackupPerson.OPEN)
    requires Utf8.Valid(email) && Avoids(email, BackupPerson.CLOSE)
    requires ParseDate(x) == Done(rest, date)
    ensures ParsePerson(name + BackupPerson.OPEN + (email + BackupPerson.CLOSE + x)) == Done(rest, Person(name, email, date))
  {
    PersonSeparators(name, email, x);
    ParsePersonSteps(name + BackupPerson.OPEN + (email + BackupPerson.CLOSE + x), email + BackupPerson.CLOSE + x, x,
                     Person(name, email, date), rest);
  }

  /** The name ends at the first " <" and the email at the next "> ". */
  lemma PersonSeparators(name: seq<byte>, email: seq<byte>, x: seq<byte>)
    requires Avoids(name, BackupPerson.OPEN) && Avoids(email, BackupPerson.CLOSE)
    ensures TakeUntilAndConsume(name + BackupPerson.OPEN + (email + BackupPerson.CLOSE + x), BackupPerson.OPEN)
         == Done(email + BackupPerson.CLOSE + x, name)
    ensures TakeUntilAndConsume(email + BackupPerson.CLOSE + x, BackupPerson.CLOSE) == Done(x, email)
  {
    TakeUntilAndConsumeSep(name, BackupPerson.OPEN, email + BackupPerson.CLOSE + x);
    TakeUntilAndConsumeSep(email, BackupPerson.CLOSE, x);
  }

  /** The person parser is the name, the email, then the date. */
  lemma ParsePersonSteps(i: seq<byte>, i1: seq<byte>, i2: seq<byte>, p: Person, rest: seq<byte>)
    requires TakeUntilAndConsume(i, BackupPerson.OPEN) == Done(i1, p.name) && Utf8.Valid(p.name)
    requires TakeUntilAndConsume(i1, BackupPerson.CLOSE) == Done(i2, p.email) && Utf8.Valid(p.email)
    requires ParseDate(i2) == Done(rest, p.date)
    ensures ParsePerson(i) == Done(rest, p)
  {
    assert Shift(TakeUntilAndConsume(i1, BackupPerson.CLOSE), |i| - |i1|) == Done(i2, p.email);
    assert Shift(ParseDate(i2), |i| - |i2|) == Done(rest, p.date);
  }

  // ---------------------------------------------------------------------
  // Commit header and lines

  /** `commit `, the keyword of a commit object with its space. */
  const COMMIT: seq<byte> := [99, 111, 109, 109, 105, 116, SPACE]

  /** `tag!("commit ") ~ many1!(digit) ~ char!('\0')`: the size is read
      as digits and thrown away. The first digit run takes every digit,
      so `many1!` stops after one. */
  function ParseHeader(i: seq<byte>): (r: Parsed<()>)
    ensures r.Done? ==> |i| >= |COMMIT| + 2 && i[..|COMMIT|] == COMMIT && |r.rest| < |i|
    ensures !r.Abort?
  {
    var (i1, _) :- Tag(i, COMMIT);
    var (i2, _) :- Shift(Digit(i1), |i| - |i1|);
    var (i3, _) :- Shift(Char(i2, NUL), |i| - |i2|);
    Done(i3, ())
  }

  /** The header of a commit of any size is read past; the size is never
      compared with what follows. */
  lemma ParseHeaderOf(n: nat, after: seq<byte>)
    ensures ParseHeader(ObjectHead.Render(COMMIT, n) + after) == Done(after, ())
  {
    var digits := Decimal.Render(n);
    var i3 := [NUL] + after;
    var i1 := digits + i3;
    var i := ObjectHead.Render(COMMIT, n) + after;
    assert i == COMMIT + i1;
    TagPrefix(COMMIT, i1);
    DigitRun(digits, i3);
    assert Shift(Digit(i1), |i| - |i1|) == Done(i3, digits);
    assert Shift(Char(i3, NUL), |i| - |i3|) == Done(after, NUL);
  }

  /** A person line: the keyword, the person and a newline. */
  function PersonLine(kw: seq<byte>, p: Person): seq<byte> {
    kw + DisplayPerson(p) + [LF]
  }

  /** `tag!(kw) ~ person ~ char!('\n')`. */
  function ParsePersonLine(i: seq<byte>, kw: seq<byte>): (r: Parsed<Person>)
    ensures r.Done? ==> |r.rest| < |i|
    ensures !r.Abort?
  {
    var (i1, _) :- Tag(i, kw);
    var (i2, p) :- Shift(ParsePerson(i1), |i| - |i1|);
    var (i3, _) :- Shift(Char(i2, LF), |i| - |i2|);
    Done(i3, p)
  }

  lemma ParsePersonLineOf(kw: seq<byte>, p: Person, after: seq<byte>)
    requires ReadablePerson(p)
    ensures ParsePersonLine(PersonLine(kw, p) + after, kw) == Done(after, p)
  {
    var i := PersonLine(kw, p) + after;
    var i2 := [LF] + after;
    var i1 := DisplayPerson(p) + i2;
    assert i == kw + i1;
    TagPrefix(kw, i1);
    ParseDisplayPerson(p, i2);
    assert Shift(ParsePerson(i1), |i| - |i1|) == Done(i2, p);
    assert Shift(Char(i2, LF), |i| - |i2|) == Done(after, LF);
  }

  // ---------------------------------------------------------------------
  // Encoding and extras

  /** The encoding line as git writes it, when there is one. */
  function EncodingText(e: Option<seq<byte>>): seq<byte> {
    match e
    case None => []
    case Some(v) => ModRefs.ENCODING + v + [LF]
  }

  /** `parse_encoding`: "encoding " and the UTF-8 text before the next
      newline; the newline itself is left in the input. */
  function ParseEncodingAsWritten(i: seq<byte>): (r: Parsed<seq<byte>>)
    ensures r.Done? ==> i == ModRefs.ENCODING + r.value + r.rest
    ensures r.Done? ==> Utf8.Valid(r.value)
    ensures !r.Abort?
  {
    var (i1, _) :- Tag(i, ModRefs.ENCODING);
    var (i2, e) :- Shift(TakeUntil(i1, [LF]), |i| - |i1|);
    if Utf8.Valid(e) then Done(i2, e) else Error
  }

  /** The encoding line with its newline consumed, as the following
      parsers expect. */
  function ParseEncoding(i: seq<byte>): (r: Parsed<seq<byte>>)
    ensures r.Done? ==> Utf8.Valid(r.value) && |r.rest| < |i|
    ensures !r.Abort?
  {
    var (i1, e) :- ParseEncodingAsWritten(i);
    var (i2, _) :- Shift(Char(i1, LF), |i| - |i1|);
    Done(i2, e)
  }

  /** An encoding that is UTF-8 text on one line. */
  predicate ValidEncoding(v: seq<byte>) {
    NoByte(v, LF) && Utf8.Valid(v)
  }

  /** The encoding line is read as written, with the newline left in
      the input. */
  lemma ParseEncodingAsWrittenOf(v: seq<byte>, after: seq<byte>)
    requires ValidEncoding(v)
    ensures ParseEncodingAsWritten(EncodingText(Some(v)) + after) == Done([LF] + after, v)
  {
    var i := EncodingText(Some(v)) + after;
    var i1 := v + [LF] + after;
    assert i == ModRefs.ENCODING + i1;
    TagPrefix(ModRefs.ENCODING, i1);
    TakeUntilByte(v, LF, after);
    assert Shift(TakeUntil(i1, [LF]), |i| - |i1|) == Done([LF] + after, v);
  }

  lemma ParseEncodingOf(v: seq<byte>, after: seq<byte>)
    requires ValidEncoding(v)
    ensures ParseEncoding(EncodingText(Some(v)) + after) == Done(after, v)
  {
    var i := EncodingText(Some(v)) + after;
    ParseEncodingAsWrittenOf(v, after);
    assert Shift(Char([LF] + after, LF), |i| - |[LF] + after|) == Done(after, LF);
  }

  /** A newline among the first nine bytes rules out an encoding line. */
  lemma NotEncoding(i: seq<byte>, j: nat)
    requires j < |i| && j < |ModRefs.ENCODING| && i[j] == LF
    ensures Tag(i, ModRefs.ENCODING).Error?
  {
    assert ModRefs.ENCODING[j] != LF;
    if |i| >= |ModRefs.ENCODING| {
      assert i[..|ModRefs.ENCODING|][j] == LF;
    } else {
      assert i != ModRefs.ENCODING[..|i|] by {
        assert ModRefs.ENCODING[..|i|][j] != LF;
      }
    }
  }

  /** A line of text: non-empty UTF-8 without a newline. */
  predicate IsLine(s: seq<byte>) {
    |s| >= 1 && NoByte(s, LF) && Utf8.Valid(s)
  }

  /** `parse_string_eol`: a non-empty run of bytes other than a newline,
      read as UTF-8. */
  function ParseStringEol(i: seq<byte>): (r: Parsed<seq<byte>>)
    ensures r.Done? ==> i == r.value + r.rest && IsLine(r.value)
    ensures |i| >= 1 && i[0] == LF ==> r.Error?
    ensures !r.Abort?
  {
    var (rest, v) :- TakeWhile1(i, ModExtras.IsNotLF);
    if Utf8.Valid(v) then Done(rest, v) else Error
  }

  lemma ParseStringEolOf(v: seq<byte>, rest: seq<byte>)
    requires IsLine(v)
    requires |rest| == 0 || rest[0] == LF
    ensures ParseStringEol(v + rest) == Done(rest, v)
  {
    TakeWhile1Run(v, rest, ModExtras.IsNotLF);
  }

  /** An extra header as git writes it here: the key on one line and the
      value on the next. */
  function ExtraText(e: ModExtras.Extra): seq<byte> {
    e.key + [LF] + e.value + [LF]
  }

  predicate WellFormedExtra(e: ModExtras.Extra) {
    IsLine(e.key) && IsLine(e.value)
  }

  /** `parse_extra`: a key line and a value line. */
  function ParseExtra(i: seq<byte>): (r: Parsed<ModExtras.Extra>)
    ensures r.Done? ==> WellFormedExtra(r.value) && |r.rest| < |i|
    ensures |i| >= 1 && i[0] == LF ==> r.Error?
    ensures !r.Abort?
  {
    var (i1, k) :- ParseStringEol(i);
    var (i2, _) :- Shift(Char(i1, LF), |i| - |i1|);
    var (i3, v) :- Shift(ParseStringEol(i2), |i| - |i2|);
    var (i4, _) :- Shift(Char(i3, LF), |i| - |i3|);
    Done(i4, ModExtras.Extra(k, v))
  }

  lemma ParseExtraOf(e: ModExtras.Extra, after: seq<byte>)
    requires WellFormedExtra(e)
    ensures ParseExtra(ExtraText(e) + after) == Done(after, e)
  {
    var i := ExtraText(e) + after;
    var i3 := [LF] + after;
    var i2 := e.value + i3;
    var i1 := [LF] + i2;
    assert i == e.key + i1;
    ParseStringEolOf(e.key, i1);
    ParseStringEolOf(e.value, i3);
    assert Shift(Char(i1, LF), |i| - |i1|) == Done(i2, LF);
    assert Shift(ParseStringEol(i2), |i| - |i2|) == Done(i3, e.value);
    assert Shift(Char(i3, LF), |i| - |i3|) == Done(after, LF);
  }

  function ExtraChunks(es: seq<ModExtras.Extra>): (r: seq<seq<byte>>)
    ensures |r| == |es|
    ensures forall k | 0 <= k < |es| :: r[k] == ExtraText(es[k])
  {
    seq(|es|, k requires 0 <= k < |es| => ExtraText(es[k]))
  }

  /** The extra headers one after the other. */
  function ExtrasText(es: seq<ModExtras.Extra>): seq<byte> {
    Flatten(ExtraChunks(es))
  }

  /** `parse_extras`: as many entries as follow, inserted one after the
      other into a map kept in key order. */
  function ParseExtras(i: seq<byte>): (r: Parsed<seq<ModExtras.Extra>>)
    ensures r.Done? ==> PathSet.Sorted(r.value, ModExtras.Key) && |r.rest| <= |i|
    ensures |i| >= 1 && i[0] == LF ==> r == Done(i, [])
    ensures !r.Error? && !r.Abort?
  {
    Many0NoAbort(ParseExtra, i);
    var (rest, ps) :- Many0(ParseExtra, i);
    Done(rest, ModExtras.FromPairs(ps))
  }

  /** Entries read one after the other, in any order and with repeated
      keys: the map holds every key read, under the last value read for
      it. */
  lemma ParseExtrasOf(ps: seq<ModExtras.Extra>, rest: seq<byte>)
    requires forall k | 0 <= k < |ps| :: WellFormedExtra(ps[k])
    requires |rest| == 0 || rest[0] == LF
    ensures ParseExtras(ExtrasText(ps) + rest) == Done(rest, ModExtras.FromPairs(ps))
    ensures forall key :: PathSet.Get(ModExtras.FromPairs(ps), ModExtras.Key, key) == ModExtras.LastWith(ps, key)
  {
    ParseExtraChunks(ps, rest);
    forall key
      ensures PathSet.Get(ModExtras.FromPairs(ps), ModExtras.Key, key) == ModExtras.LastWith(ps, key)
    {
      ModExtras.FromPairsLastWins(ps, key);
    }
  }

  lemma ParseExtraChunks(ps: seq<ModExtras.Extra>, rest: seq<byte>)
    requires forall k | 0 <= k < |ps| :: WellFormedExtra(ps[k])
    requires |rest| == 0 || rest[0] == LF
    ensures Many0(ParseExtra, ExtrasText(ps) + rest) == Done(rest, ps)
  {
    var chunks := ExtraChunks(ps);
    forall k | 0 <= k < |chunks|
      ensures ParseExtra(Flatten(chunks[k..]) + rest) == Done(Flatten(chunks[k + 1..]) + rest, ps[k])
    {
      ParseExtraChunk(chunks, ps[k], k, rest);
    }
    Many0Chunks(ParseExtra, chunks, ps, rest);
  }

  lemma ParseExtraChunk(chunks: seq<seq<byte>>, e: ModExtras.Extra, k: nat, rest: seq<byte>)
    requires k < |chunks| && chunks[k] == ExtraText(e) && WellFormedExtra(e)
    ensures ParseExtra(Flatten(chunks[k..]) + rest) == Done(Flatten(chunks[k + 1..]) + rest, e)
  {
    FlattenFrom(chunks, k);
    var after := Flatten(chunks[k + 1..]) + rest;
    assert Flatten(chunks[k..]) + rest == ExtraText(e) + after;
    ParseExtraOf(e, after);
  }

  /** Extra headers that read back as themselves: well-formed lines, in
      ascending key order (so each key once). */
  predicate WellFormedExtras(es: seq<ModExtras.Extra>) {
    PathSet.Sorted(es, ModExtras.Key) && forall k | 0 <= k < |es| :: WellFormedExtra(es[k])
  }

  /** Well-formed extras are UTF-8 text. */
  lemma {:induction false} ExtrasTextValid(es: seq<ModExtras.Extra>)
    requires forall k | 0 <= k < |es| :: WellFormedExtra(es[k])
    ensures Utf8.Valid(ExtrasText(es))
    decreases |es|
  {
    if |es| == 0 {
      assert ExtrasText(es) == [];
    } else {
      var chunks := ExtraChunks(es);
      FlattenFrom(chunks, 0);
      assert chunks[0..] == chunks;
      assert chunks[1..] == ExtraChunks(es[1..]);
      ExtrasTextValid(es[1..]);
      var e := es[0];
      Utf8.AsciiValid([LF]);
      Utf8.ValidConcat(e.key, [LF]);
      Utf8.ValidConcat(e.key + [LF], e.value);
      Utf8.ValidConcat(e.key + [LF] + e.value, [LF]);
      Utf8.ValidConcat(ExtraText(e), ExtrasText(es[1..]));
    }
  }

  // ---------------------------------------------------------------------
  // Commits

  datatype Commit = Commit(
    treeRef: ModRefs.TreeRef,
    parents: ModRefs.Parents,
    author: Person,
    committer: Person,
    encoding: Option<seq<byte>>,
    extras: seq<ModExtras.Extra>,
    message: seq<byte>)

  /** The header, the tree and parent lines and the two person lines.
      The hashes are read without a length check, and a continuation
      byte where a hex digit belongs panics. */
  function ParsePrefix(i: seq<byte>): (r: Parsed<(ModRefs.TreeRef, ModRefs.Parents, Person, Person)>)
    ensures r.Done? ==> ElementsHash.Bounded(r.value.0.treeRef) && ModRefs.BoundedParents(r.value.1.parents)
    ensures r.Done? ==> |r.rest| < |i| && |i| >= |COMMIT| && i[..|COMMIT|] == COMMIT
    ensures r.Abort? ==> |i| >= |COMMIT| && i[..|COMMIT|] == COMMIT
  {
    var (i1, _) :- ParseHeader(i);
    var (i2, h) :- Shift(ModCommit.ParseHead(i1), |i| - |i1|);
    var (i3, a) :- Shift(ParsePersonLine(i2, BackupPerson.AUTHOR), |i| - |i2|);
    var (i4, c) :- Shift(ParsePersonLine(i3, BackupPerson.COMMITTER), |i| - |i3|);
    Done(i4, (h.0, h.1, a, c))
  }

  /** `parse_extras ~ char!('\n') ~ non_empty`: the extras, the empty
      line, and the rest of the input as a non-empty UTF-8 message. */
  function ParseRemainder(i: seq<byte>): (r: Parsed<(seq<ModExtras.Extra>, seq<byte>)>)
    ensures r.Done? ==> r.rest == [] && |r.value.1| >= 1 && Utf8.Valid(r.value.1)
    ensures r.Done? ==> PathSet.Sorted(r.value.0, ModExtras.Key)
    ensures !r.Abort?
  {
    var (i1, x) :- ParseExtras(i);
    var (i2, _) :- Shift(Char(i1, LF), |i| - |i1|);
    var (i3, m) :- Shift(NonEmpty(i2), |i| - |i2|);
    if Utf8.Valid(m) then Done(i3, (x, m)) else Error
  }

  /** What follows the person lines: the encoding, the extras and the
      message. */
  type Tail = (Option<seq<byte>>, seq<ModExtras.Extra>, seq<byte>)

  /** The tail as `parse_commit` reads it: the encoding line leaves its
      newline behind. */
  function ParseTailAsWritten(i: seq<byte>): (r: Parsed<Tail>)
    ensures r.Done? ==> r.rest == [] && |r.value.2| >= 1 && Utf8.Valid(r.value.2)
    ensures !r.Abort?
  {
    var (i1, e) :- Opt(ParseEncodingAsWritten(i), i);
    var (i2, xm) :- Shift(ParseRemainder(i1), |i| - |i1|);
    Done(i2, (e, xm.0, xm.1))
  }

  /** The tail with the encoding line read up to and including its
      newline. */
  function ParseTail(i: seq<byte>): (r: Parsed<Tail>)
    ensures r.Done? ==> r.rest == [] && |r.value.2| >= 1 && Utf8.Valid(r.value.2)
    ensures r.Done? ==> PathSet.Sorted(r.value.1, ModExtras.Key)
    ensures !r.Abort?
  {
    var (i1, e) :- Opt(ParseEncoding(i), i);
    var (i2, xm) :- Shift(ParseRemainder(i1), |i| - |i1|);
    Done(i2, (e, xm.0, xm.1))
  }

  /** `parse_commit` as written. */
  function ParseAsWritten(i: seq<byte>): (r: Parsed<Commit>)
    ensures r.Done? ==> r.rest == [] && |r.value.message| >= 1 && Utf8.Valid(r.value.message)
    ensures r.Done? ==> ElementsHash.Bounded(r.value.treeRef.treeRef) && ModRefs.BoundedParents(r.value.parents.parents)
    ensures r.Done? ==> PathSet.Sorted(r.value.extras, ModExtras.Key)
    ensures r.Done? ==> |i| >= |COMMIT| && i[..|COMMIT|] == COMMIT
    ensures r.Abort? ==> |i| >= |COMMIT| && i[..|COMMIT|] == COMMIT
  {
    var (i1, p) :- ParsePrefix(i);
    var (i2, t) :- Shift(ParseTailAsWritten(i1), |i| - |i1|);
    Done(i2, Commit(p.0, p.1, p.2, p.3, t.0, t.1, t.2))
  }

  /** `parse_commit` with the encoding line's newline consumed. */
  function Parse(i: seq<byte>): (r: Parsed<Commit>)
    ensures r.Done? ==> r.rest == [] && |r.value.message| >= 1 && Utf8.Valid(r.value.message)
    ensures r.Done? ==> ElementsHash.Bounded(r.value.treeRef.treeRef) && ModRefs.BoundedParents(r.value.parents.parents)
    ensures r.Done? ==> PathSet.Sorted(r.value.extras, ModExtras.Key)
    ensures r.Done? ==> |i| >= |COMMIT| && i[..|COMMIT|] == COMMIT
    ensures r.Abort? ==> |i| >= |COMMIT| && i[..|COMMIT|] == COMMIT
  {
    var (i1, p) :- ParsePrefix(i);
    var (i2, t) :- Shift(ParseTail(i1), |i| - |i1|);
    Done(i2, Commit(p.0, p.1, p.2, p.3, t.0, t.1, t.2))
  }

  /** `Commit::parse`: the commit `parse_commit` reads from the buffer,
      and a failure of either kind, a malformed or a truncated buffer,
      reported as an unknown parsing error. A buffer on which the parser
      panics never returns. */
  function ParseResult(buf: seq<byte>): (r: Result<Commit, GitError>)
    requires !ParseAsWritten(buf).Abort?
    ensures r.Ok? ==> |r.value.message| >= 1 && Utf8.Valid(r.value.message)
    ensures r.Ok? ==> PathSet.Sorted(r.value.extras, ModExtras.Key)
    ensures r.Ok? ==> |buf| >= |COMMIT| && buf[..|COMMIT|] == COMMIT
    ensures r.Err? ==> r.error == ParsingErrorUnknown
    ensures |buf| < |COMMIT| ==> r.Err?
  {
    match ParseAsWritten(buf)
    case Done(_, c) => Ok(c)
    case _ => Err(ParsingErrorUnknown)
  }

  // ---------------------------------------------------------------------
  // The stored form of a commit

  /** The tree and parent lines and the person lines. */
  function FrontText(c: Commit): seq<byte> {
    ModCommit.HeadText(c.treeRef, c.parents) + PeopleText(c.author, c.committer)
  }

  function PeopleText(a: Person, c: Person): seq<byte> {
    PersonLine(BackupPerson.AUTHOR, a) + PersonLine(BackupPerson.COMMITTER, c)
  }

  /** The extras, the empty line and the message. */
  function RemainderText(es: seq<ModExtras.Extra>, m: seq<byte>): seq<byte> {
    ExtrasText(es) + [LF] + m
  }

  function TailText(c: Commit): seq<byte> {
    EncodingText(c.encoding) + RemainderText(c.extras, c.message)
  }

  function Body(c: Commit): seq<byte> {
    FrontText(c) + TailText(c)
  }

  /** The commit object as git stores it: the header with the length of
      the body, then the body in the order `parse_commit` reads it. */
  function Render(c: Commit): seq<byte> {
    ObjectHead.Render(COMMIT, |Body(c)|) + Body(c)
  }

  /** Extras whose first key would be read as an encoding line. */
  predicate ExtrasLookLikeEncoding(es: seq<ModExtras.Extra>) {
    |es| >= 1 && |es[0].key| >= |ModRefs.ENCODING| && es[0].key[..|ModRefs.ENCODING|] == ModRefs.ENCODING
  }

  /** A commit the parser can give back: valid hashes, readable people,
      an encoding on one line, extras in key order, a non-empty UTF-8
      message, and, without an encoding, extras that do not begin like
      one. */
  predicate WellFormed(c: Commit) {
    ElementsHash.Valid(c.treeRef.treeRef) &&
    ModRefs.ValidParents(c.parents) &&
    ReadablePerson(c.author) && ReadablePerson(c.committer) &&
    (c.encoding.Some? ==> ValidEncoding(c.encoding.value)) &&
    (c.encoding.None? ==> !ExtrasLookLikeEncoding(c.extras)) &&
    WellFormedExtras(c.extras) &&
    |c.message| >= 1 && Utf8.Valid(c.message)
  }

  lemma ParsePrefixOf(c: Commit, n: nat, after: seq<byte>)
    requires WellFormed(c)
    ensures ParsePrefix(ObjectHead.Render(COMMIT, n) + FrontText(c) + after)
         == Done(after, (c.treeRef, c.parents, c.author, c.committer))
  {
    var i3 := PersonLine(BackupPerson.COMMITTER, c.committer) + after;
    var i2 := PersonLine(BackupPerson.AUTHOR, c.author) + i3;
    var i1 := ModCommit.HeadText(c.treeRef, c.parents) + i2;
    var i := ObjectHead.Render(COMMIT, n) + i1;
    assert i == ObjectHead.Render(COMMIT, n) + FrontText(c) + after by {
      Regroup5(ObjectHead.Render(COMMIT, n), ModCommit.HeadText(c.treeRef, c.parents),
               PersonLine(BackupPerson.AUTHOR, c.author), PersonLine(BackupPerson.COMMITTER, c.committer), after);
    }
    ParseHeaderOf(n, i1);
    assert i2[0] == BackupPerson.AUTHOR[0];
    ModCommit.ParseHeadOf(c.treeRef, c.parents, i2);
    ParsePersonLineOf(BackupPerson.AUTHOR, c.author, i3);
    ParsePersonLineOf(BackupPerson.COMMITTER, c.committer, after);
    ParsePrefixSteps(i, i1, i2, i3, after, (c.treeRef, c.parents, c.author, c.committer));
  }

  /** The prefix parser is the header, the head, then the two person
      lines. */
  lemma ParsePrefixSteps(i: seq<byte>, i1: seq<byte>, i2: seq<byte>, i3: seq<byte>, after: seq<byte>,
                         p: (ModRefs.TreeRef, ModRefs.Parents, Person, Person))
    requires ParseHeader(i) == Done(i1, ())
    requires ModCommit.ParseHead(i1) == Done(i2, (p.0, p.1))
    requires ParsePersonLine(i2, BackupPerson.AUTHOR) == Done(i3, p.2)
    requires ParsePersonLine(i3, BackupPerson.COMMITTER) == Done(after, p.3)
    ensures ParsePrefix(i) == Done(after, p)
  {
    assert Shift(ModCommit.ParseHead(i1), |i| - |i1|) == Done(i2, (p.0, p.1));
    assert Shift(ParsePersonLine(i2, BackupPerson.AUTHOR), |i| - |i2|) == Done(i3, p.2);
    assert Shift(ParsePersonLine(i3, BackupPerson.COMMITTER), |i| - |i3|) == Done(after, p.3);
  }

  /** Extras in key order, the empty line and the message are read back. */
  lemma ParseRemainderOf(es: seq<ModExtras.Extra>, m: seq<byte>)
    requires WellFormedExtras(es) && |m| >= 1 && Utf8.Valid(m)
    ensures ParseRemainder(RemainderText(es, m)) == Done([], (es, m))
  {
    var i1 := [LF] + m;
    var i := RemainderText(es, m);
    assert ParseExtras(i) == Done(i1, es) by {
      Assoc(ExtrasText(es), [LF], m);
      ParseExtrasOf(es, i1);
      ModExtras.FromPairsSorted(es);
    }
    ParseRemainderSteps(i, es, m);
  }

  /** The remainder parser is the extras, the newline, then the message. */
  lemma ParseRemainderSteps(i: seq<byte>, es: seq<ModExtras.Extra>, m: seq<byte>)
    requires ParseExtras(i) == Done([LF] + m, es) && |m| >= 1 && Utf8.Valid(m)
    ensures ParseRemainder(i) == Done([], (es, m))
  {
    var i1 := [LF] + m;
    assert Shift(Char(i1, LF), |i| - |i1|) == Done(m, LF);
    assert Shift(NonEmpty(m), |i| - |m|) == Done([], m);
  }

  /** When the newline of the encoding line is still in front of them,
      the extras, the empty line and the message all become the message. */
  lemma ParseRemainderSwallows(es: seq<ModExtras.Extra>, m: seq<byte>)
    requires WellFormedExtras(es) && |m| >= 1 && Utf8.Valid(m)
    ensures ParseRemainder([LF] + RemainderText(es, m)) == Done([], ([], RemainderText(es, m)))
  {
    var s := ExtrasText(es) + [LF] + m;
    var i := [LF] + s;
    ExtrasTextValid(es);
    Utf8.AsciiValid([LF]);
    Utf8.ValidConcat(ExtrasText(es), [LF]);
    Utf8.ValidConcat(ExtrasText(es) + [LF], m);
    assert ParseExtras(i) == Done(i, []);
    assert Shift(Char(i, LF), 0) == Done(s, LF);
    assert Shift(NonEmpty(s), |i| - |s|) == Done([], s);
  }

  /** Without an encoding, what follows the committer line does not start
      an encoding line. */
  lemma NoEncodingOf(es: seq<ModExtras.Extra>, m: seq<byte>)
    requires WellFormedExtras(es) && !ExtrasLookLikeEncoding(es)
    ensures Tag(RemainderText(es, m), ModRefs.ENCODING).Error?
    ensures ParseEncoding(RemainderText(es, m)).Error? && ParseEncodingAsWritten(RemainderText(es, m)).Error?
  {
    var i := ExtrasText(es) + [LF] + m;
    if |es| == 0 {
      assert i[0] == LF;
      NotEncoding(i, 0);
    } else {
      var chunks := ExtraChunks(es);
      var key := es[0].key;
      FlattenFrom(chunks, 0);
      assert chunks[0..] == chunks;
      var text := ExtrasText(es);
      assert text == ExtraText(es[0]) + Flatten(chunks[1..]);
      assert forall k | 0 <= k < |key| :: i[k] == key[k];
      if |key| < |ModRefs.ENCODING| {
        assert i[|key|] == LF;
        NotEncoding(i, |key|);
      } else {
        assert i[..|ModRefs.ENCODING|] == key[..|ModRefs.ENCODING|];
      }
    }
  }

  /** The tail parser is the encoding step followed by the remainder. */
  lemma ParseTailSteps(i: seq<byte>, i1: seq<byte>, t: Tail)
    requires Opt(ParseEncoding(i), i) == Done(i1, t.0) && |i1| <= |i|
    requires ParseRemainder(i1) == Done([], (t.1, t.2))
    ensures ParseTail(i) == Done([], t)
  {
    assert Shift(ParseRemainder(i1), |i| - |i1|) == Done([], (t.1, t.2));
  }

  lemma ParseTailAsWrittenSteps(i: seq<byte>, i1: seq<byte>, t: Tail)
    requires Opt(ParseEncodingAsWritten(i), i) == Done(i1, t.0) && |i1| <= |i|
    requires ParseRemainder(i1) == Done([], (t.1, t.2))
    ensures ParseTailAsWritten(i) == Done([], t)
  {
    assert Shift(ParseRemainder(i1), |i| - |i1|) == Done([], (t.1, t.2));
  }

  /** Without an encoding, both tail parsers read the extras and the
      message back. */
  lemma ParseTailNone(es: seq<ModExtras.Extra>, m: seq<byte>)
    requires WellFormedExtras(es) && !ExtrasLookLikeEncoding(es) && |m| >= 1 && Utf8.Valid(m)
    ensures ParseTail(EncodingText(None) + RemainderText(es, m)) == Done([], (None, es, m))
    ensures ParseTailAsWritten(EncodingText(None) + RemainderText(es, m)) == Done([], (None, es, m))
  {
    var after := RemainderText(es, m);
    assert EncodingText(None) + after == after;
    NoEncodingOf(es, m);
    ParseRemainderOf(es, m);
    ParseTailSteps(after, after, (None, es, m));
    ParseTailAsWrittenSteps(after, after, (None, es, m));
  }

  lemma ParseTailOf(c: Commit)
    requires WellFormed(c)
    ensures ParseTail(TailText(c)) == Done([], (c.encoding, c.extras, c.message))
  {
    var after := RemainderText(c.extras, c.message);
    match c.encoding {
      case None =>
        ParseTailNone(c.extras, c.message);
      case Some(v) =>
        var i := EncodingText(Some(v)) + after;
        ParseRemainderOf(c.extras, c.message);
        ParseEncodingOf(v, after);
        ParseTailSteps(i, after, (Some(v), c.extras, c.message));
    }
  }

  /** A well-formed commit stored then read back is the same commit. */
  lemma ParseRender(c: Commit)
    requires WellFormed(c)
    ensures Parse(Render(c)) == Done([], c)
  {
    var tail := TailText(c);
    RenderSplit(c);
    ParsePrefixOf(c, |Body(c)|, tail);
    ParseTailOf(c);
    var i := Render(c);
    assert Shift(ParseTail(tail), |i| - |tail|) == Done([], (c.encoding, c.extras, c.message));
  }

  /** A stored commit is its header, its front lines and its tail. */
  lemma RenderSplit(c: Commit)
    ensures Render(c) == ObjectHead.Render(COMMIT, |Body(c)|) + FrontText(c) + TailText(c)
  {
    Assoc(ObjectHead.Render(COMMIT, |Body(c)|), FrontText(c), TailText(c));
  }

  /** `Commit::parse` gives back a well-formed commit it is handed as
      `parse_commit` reads it: the same commit exactly when it has no
      encoding; with one, the extras and the empty line end up in the
      message. */
  lemma ParseResultRender(c: Commit)
    requires WellFormed(c)
    ensures ParseAsWritten(Render(c)).Done? && ParseResult(Render(c)) == Ok(Swallowed(c))
    ensures ParseAsWritten(Render(c)).Done? && (ParseResult(Render(c)) == Ok(c) <==> c.encoding.None?)
  {
    ParseAsWrittenRender(c);
  }

  /** What the parser as written makes of a stored commit: with an
      encoding, the extras and the empty line end up in the message. */
  function Swallowed(c: Commit): Commit {
    if c.encoding.Some? then c.(extras := [], message := RemainderText(c.extras, c.message)) else c
  }

  lemma ParseTailAsWrittenOf(c: Commit)
    requires WellFormed(c)
    ensures ParseTailAsWritten(TailText(c)) == Done([], (Swallowed(c).encoding, Swallowed(c).extras, Swallowed(c).message))
  {
    var after := RemainderText(c.extras, c.message);
    match c.encoding {
      case None =>
        ParseTailNone(c.extras, c.message);
      case Some(v) =>
        var i := EncodingText(Some(v)) + after;
        ParseEncodingAsWrittenOf(v, after);
        ParseRemainderSwallows(c.extras, c.message);
        ParseTailAsWrittenSteps(i, [LF] + after, (Some(v), [], after));
    }
  }

  /** The parser as written reads a stored commit back as itself exactly
      when it has no encoding; with one, the message also holds the
      extras and the empty line. */
  lemma ParseAsWrittenRender(c: Commit)
    requires WellFormed(c)
    ensures ParseAsWritten(Render(c)) == Done([], Swallowed(c))
    ensures ParseAsWritten(Render(c)) == Done([], c) <==> c.encoding.None?
  {
    ParseAsWrittenSwallows(c);
    if c.encoding.Some? {
      assert |Swallowed(c).message| > |c.message|;
    }
  }

  lemma ParseAsWrittenSwallows(c: Commit)
    requires WellFormed(c)
    ensures ParseAsWritten(Render(c)) == Done([], Swallowed(c))
  {
    var tail := TailText(c);
    RenderSplit(c);
    ParsePrefixOf(c, |Body(c)|, tail);
    ParseTailAsWrittenOf(c);
    var i := Render(c);
    var s := Swallowed(c);
    assert Shift(ParseTailAsWritten(tail), |i| - |tail|) == Done([], (s.encoding, s.extras, s.message));
  }
}
