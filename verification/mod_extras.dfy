/** The extra headers of a commit in the `object` module generation: a
    map from a key to a value of several lines, kept in key order. A key
    is written on a line of its own and each line of its value follows
    on a line that starts with a space. */
module ModExtras {
  import opened Bytes
  import opened Nom
  import opened Wrappers
  import PathSet
  import Lex
  import ModRefs

  // ---------------------------------------------------------------------
  // Lines of a value

  predicate IsNotLF(b: byte) { b != LF }

  /** A line whose last byte is a carriage return. */
  predicate EndsInCR(l: seq<byte>) { |l| > 0 && l[|l| - 1] == CR }

  /** The line without the carriage return it ends in, if any. */
  function StripCR(l: seq<byte>): (r: seq<byte>)
    ensures EndsInCR(l) ==> r + [CR] == l
    ensures !EndsInCR(l) ==> r == l
  {
    if EndsInCR(l) then l[..|l| - 1] else l
  }

  /** `str::lines`: the pieces between newlines, the newline after the
      last piece being optional, each without one carriage return it ends
      in. */
  function Lines(s: seq<byte>): (r: seq<seq<byte>>)
    ensures forall k | 0 <= k < |r| :: NoByte(r[k], LF)
    decreases |s|
  {
    if |s| == 0 then []
    else
      var n := Span(s, IsNotLF);
      if n == |s| then [StripCR(s)] else [StripCR(s[..n])] + Lines(s[n + 1..])
  }

  /** A value as the parser builds it: every line followed by a newline. */
  function Joined(ls: seq<seq<byte>>): seq<byte> {
    if |ls| == 0 then [] else ls[0] + [LF] + Joined(ls[1..])
  }

  /** Splitting what was joined gives the lines back when none ends in a
      carriage return. */
  lemma {:induction false} LinesJoined(ls: seq<seq<byte>>)
    requires forall k | 0 <= k < |ls| :: NoByte(ls[k], LF) && !EndsInCR(ls[k])
    ensures Lines(Joined(ls)) == ls
    decreases |ls|
  {
    if |ls| > 0 {
      var s := Joined(ls);
      SpanUnique(s, IsNotLF, |ls[0]|);
      assert s[..|ls[0]|] == ls[0];
      assert s[|ls[0]| + 1..] == Joined(ls[1..]);
      LinesJoined(ls[1..]);
    }
  }

  /** A carriage return before a newline is dropped with it: `a\r\nb` has
      the lines `a` and `b`. */
  lemma LinesDropsCR()
    ensures Lines([97, CR, LF, 98]) == [[97], [98]]
  {
    var s: seq<byte> := [97, CR, LF, 98];
    SpanUnique(s, IsNotLF, 2);
    assert s[..2] == [97, CR];
    assert s[3..] == [98];
    assert StripCR([97, CR]) == [97];
    SpanUnique([98], IsNotLF, 1);
    assert Lines([98]) == [StripCR([98])] == [[98]];
  }

  // ---------------------------------------------------------------------
  // Display and size

  datatype Extra = Extra(key: seq<byte>, value: seq<byte>)

  function Key(e: Extra): seq<byte> { e.key }

  datatype Extras = Extras(extras: seq<Extra>)

  /** The `BTreeMap`: one entry per key, in ascending key order. */
  predicate ValidExtras(x: Extras) { PathSet.Sorted(x.extras, Key) }

  /** The continuation lines of a value: a space, the line, a newline. */
  function ContinuationLines(ls: seq<seq<byte>>): (r: seq<seq<byte>>)
    ensures |r| == |ls|
    ensures forall k | 0 <= k < |ls| :: r[k] == [SPACE] + ls[k] + [LF]
  {
    seq(|ls|, k requires 0 <= k < |ls| => [SPACE] + ls[k] + [LF])
  }

  function DisplayExtra(e: Extra): seq<byte> {
    e.key + [LF] + Flatten(ContinuationLines(Lines(e.value)))
  }

  function DisplayChunks(es: seq<Extra>): (r: seq<seq<byte>>)
    ensures |r| == |es|
    ensures forall k | 0 <= k < |es| :: r[k] == DisplayExtra(es[k])
  {
    seq(|es|, k requires 0 <= k < |es| => DisplayExtra(es[k]))
  }

  /** `Display`: each key on its own line, then each line of its value
      after a space. */
  function Display(x: Extras): (r: seq<byte>)
    ensures |x.extras| == 0 <==> r == []
  {
    Flatten(DisplayChunks(x.extras))
  }

  /** Bytes taken by the continuation lines: a space, the line and a
      newline for each. */
  function LinesSize(ls: seq<seq<byte>>): (n: nat)
    ensures n == |Flatten(ContinuationLines(ls))|
    decreases |ls|
  {
    if |ls| == 0 then 0
    else
      assert ContinuationLines(ls)[1..] == ContinuationLines(ls[1..]);
      1 + |ls[0]| + 1 + LinesSize(ls[1..])
  }

  /** `provide_size`: for each entry the key and its newline, and for each
      line of the value a space, the line and a newline; this is the
      length of the display. */
  function ProvideSize(x: Extras): (n: nat)
    ensures n == |Display(x)|
    decreases |x.extras|
  {
    if |x.extras| == 0 then 0
    else
      var e := x.extras[0];
      assert DisplayChunks(x.extras)[1..] == DisplayChunks(x.extras[1..]);
      |e.key| + 1 + LinesSize(Lines(e.value)) + ProvideSize(Extras(x.extras[1..]))
  }

  /** The display starts with the first key and its newline. */
  lemma DisplayFirstKey(x: Extras) returns (tail: seq<byte>)
    requires |x.extras| >= 1
    ensures Display(x) == x.extras[0].key + [LF] + tail
  {
    var chunks := DisplayChunks(x.extras);
    FlattenFrom(chunks, 0);
    assert chunks[0..] == chunks;
    tail := Flatten(ContinuationLines(Lines(x.extras[0].value))) + Flatten(chunks[1..]);
  }

  // ---------------------------------------------------------------------
  // Parsing

  /** One continuation line: a space, a run of valid characters and a
      newline; the run is the line read. */
  function ParseContinuation(i: seq<byte>): (r: Parsed<seq<byte>>)
    ensures r.Done? ==> i == [SPACE] + r.value + [LF] + r.rest
    ensures r.Done? ==> ModRefs.ValidEncoding(ModRefs.Encoding(r.value))
    ensures |i| >= 1 && i[0] != SPACE ==> r.Error?
  {
    var (i1, _) :- Char(i, SPACE);
    var (i2, v) :- Shift(ModRefs.ParseStringEol(i1), |i| - |i1|);
    var (i3, _) :- Shift(Char(i2, LF), |i| - |i2|);
    Done(i3, v)
  }

  lemma ParseContinuationOf(v: seq<byte>, rest: seq<byte>)
    requires ModRefs.ValidEncoding(ModRefs.Encoding(v))
    ensures ParseContinuation([SPACE] + v + [LF] + rest) == Done(rest, v)
  {
    var i1 := v + [LF] + rest;
    assert [SPACE] + v + [LF] + rest == [SPACE] + i1;
    assert v + [LF] + rest == v + ([LF] + rest);
    ModRefs.ParseStringEolOf(v, [LF] + rest);
  }

  /** `parse_extra`: the key and its newline, then as many continuation
      lines as follow; each line read is kept followed by a newline. */
  function ParseExtra(i: seq<byte>): (r: Parsed<Extra>)
    ensures r.Done? ==> ModRefs.ValidEncoding(ModRefs.Encoding(r.value.key)) && |r.rest| < |i|
    ensures |i| >= 1 && !ModRefs.IsEncodingChar(i[0]) ==> r.Error?
  {
    var (i1, k) :- ModRefs.ParseStringEol(i);
    var (i2, _) :- Shift(Char(i1, LF), |i| - |i1|);
    var (i3, vs) :- Shift(Many0(ParseContinuation, i2), |i| - |i2|);
    Done(i3, Extra(k, Joined(vs)))
  }

  /** Continuation lines written one after the other are all read. */
  lemma ParseContinuations(ls: seq<seq<byte>>, rest: seq<byte>)
    requires forall k | 0 <= k < |ls| :: ModRefs.ValidEncoding(ModRefs.Encoding(ls[k]))
    requires |rest| == 0 || rest[0] != SPACE
    ensures Many0(ParseContinuation, Flatten(ContinuationLines(ls)) + rest) == Done(rest, ls)
  {
    var chunks := ContinuationLines(ls);
    forall k | 0 <= k < |chunks|
      ensures ParseContinuation(Flatten(chunks[k..]) + rest) == Done(Flatten(chunks[k + 1..]) + rest, ls[k])
    {
      FlattenFrom(chunks, k);
      var after := Flatten(chunks[k + 1..]) + rest;
      assert Flatten(chunks[k..]) + rest == chunks[k] + after;
      ParseContinuationOf(ls[k], after);
    }
    Many0Chunks(ParseContinuation, chunks, ls, rest);
  }

  /** A value the parser can give back: lines of valid characters, each
      followed by a newline. */
  predicate WellFormedValue(v: seq<byte>) {
    v == Joined(Lines(v)) &&
    forall k | 0 <= k < |Lines(v)| :: ModRefs.ValidEncoding(ModRefs.Encoding(Lines(v)[k]))
  }

  /** An entry the parser can give back: a key of valid characters that
      does not start with a space (which would continue the entry before
      it), and a well-formed value. */
  predicate WellFormedExtra(e: Extra) {
    ModRefs.ValidEncoding(ModRefs.Encoding(e.key)) && e.key[0] != SPACE && WellFormedValue(e.value)
  }

  /** An entry written then read back is the same entry; what follows must
      not continue it. */
  lemma ParseExtraOf(e: Extra, rest: seq<byte>)
    requires WellFormedExtra(e)
    requires |rest| == 0 || rest[0] != SPACE
    ensures ParseExtra(DisplayExtra(e) + rest) == Done(rest, e)
  {
    var ls := Lines(e.value);
    var body := Flatten(ContinuationLines(ls)) + rest;
    assert DisplayExtra(e) + rest == e.key + ([LF] + body);
    ModRefs.ParseStringEolOf(e.key, [LF] + body);
    ParseContinuations(ls, rest);
    ParseExtraSteps(e.key, body, ls, rest);
  }

  lemma ParseExtraSteps(k: seq<byte>, body: seq<byte>, ls: seq<seq<byte>>, rest: seq<byte>)
    requires ModRefs.ParseStringEol(k + ([LF] + body)) == Done([LF] + body, k)
    requires Many0(ParseContinuation, body) == Done(rest, ls)
    ensures ParseExtra(k + ([LF] + body)) == Done(rest, Extra(k, Joined(ls)))
  {
    var i := k + ([LF] + body);
    assert Shift(Char([LF] + body, LF), |i| - |[LF] + body|) == Done(body, LF);
    assert Shift(Many0(ParseContinuation, body), |i| - |body|) == Done(rest, ls);
  }

  /** `insert` into the `BTreeMap`, one entry after the other: a key read
      again replaces the value stored under it. */
  function FromPairs(ps: seq<Extra>): (r: seq<Extra>)
    ensures PathSet.Sorted(r, Key)
    ensures PathSet.Keys(r, Key) == PathSet.Keys(ps, Key)
    decreases |ps|
  {
    if |ps| == 0 then []
    else
      var init := ps[..|ps| - 1];
      assert PathSet.Keys(ps, Key) == PathSet.Keys(init, Key) + {Key(ps[|ps| - 1])} by {
        forall k | k in PathSet.Keys(ps, Key) ensures k in PathSet.Keys(init, Key) + {Key(ps[|ps| - 1])} {
          var j :| 0 <= j < |ps| && Key(ps[j]) == k;
          if j < |ps| - 1 {
            assert init[j] == ps[j];
          }
        }
        forall k | k in PathSet.Keys(init, Key) ensures k in PathSet.Keys(ps, Key) {
          var j :| 0 <= j < |init| && Key(init[j]) == k;
          assert ps[j] == init[j];
        }
      }
      PathSet.Replace(FromPairs(init), Key, ps[|ps| - 1]).0
  }

  /** The last entry read under a key. */
  function LastWith(ps: seq<Extra>, k: seq<byte>): Option<Extra>
    decreases |ps|
  {
    if |ps| == 0 then None
    else if ps[|ps| - 1].key == k then Some(ps[|ps| - 1])
    else LastWith(ps[..|ps| - 1], k)
  }

  /** For a key read more than once the last value read wins. */
  lemma {:induction false} FromPairsLastWins(ps: seq<Extra>, k: seq<byte>)
    ensures PathSet.Get(FromPairs(ps), Key, k) == LastWith(ps, k)
    decreases |ps|
  {
    if |ps| > 0 {
      var init := ps[..|ps| - 1];
      FromPairsLastWins(init, k);
      PathSet.GetReplace(FromPairs(init), Key, ps[|ps| - 1], k);
    }
  }

  /** Entries read in ascending key order build the same sequence. */
  lemma {:induction false} FromPairsSorted(ps: seq<Extra>)
    requires PathSet.Sorted(ps, Key)
    ensures FromPairs(ps) == ps
    decreases |ps|
  {
    if |ps| > 0 {
      var init := ps[..|ps| - 1];
      assert init + [ps[|ps| - 1]] == ps;
      PathSet.ReplaceLast(init, Key, ps[|ps| - 1]);
      FromPairsSorted(init);
    }
  }

  /** `nom_parse_extras`: as many entries as follow, inserted in the map
      in the order read. */
  function Parse(i: seq<byte>): (r: Parsed<Extras>)
    ensures r.Done? ==> ValidExtras(r.value) && |r.rest| <= |i|
    ensures !r.Error?
    ensures |i| >= 1 && !ModRefs.IsEncodingChar(i[0]) ==> r == Done(i, Extras([]))
  {
    var (rest, ps) :- Many0(ParseExtra, i);
    Done(rest, Extras(FromPairs(ps)))
  }

  predicate WellFormed(x: Extras) {
    ValidExtras(x) && forall k | 0 <= k < |x.extras| :: WellFormedExtra(x.extras[k])
  }

  /** The display of well-formed extras reads back as the same extras;
      what follows must not start another entry. */
  lemma ParseDisplay(x: Extras, rest: seq<byte>)
    requires WellFormed(x)
    requires |rest| == 0 || !ModRefs.IsEncodingChar(rest[0])
    ensures Parse(Display(x) + rest) == Done(rest, x)
  {
    var chunks := DisplayChunks(x.extras);
    forall k | 0 <= k < |chunks|
      ensures ParseExtra(Flatten(chunks[k..]) + rest) == Done(Flatten(chunks[k + 1..]) + rest, x.extras[k])
    {
      FlattenFrom(chunks, k);
      var after := Flatten(chunks[k + 1..]) + rest;
      assert Flatten(chunks[k..]) + rest == chunks[k] + after;
      if k + 1 < |chunks| {
        assert chunks[k + 1..][0] == DisplayExtra(x.extras[k + 1]);
        assert after[0] == x.extras[k + 1].key[0];
      } else {
        assert chunks[k + 1..] == [];
      }
      ParseExtraOf(x.extras[k], after);
    }
    forall k | 0 <= k < |chunks| ensures |chunks[k]| > 0 {
    }
    if |rest| > 0 {
      assert ParseExtra(rest).Error?;
    }
    Many0Chunks(ParseExtra, chunks, x.extras, rest);
    FromPairsSorted(x.extras);
  }
}
