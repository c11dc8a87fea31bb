/** The parser-combinator vocabulary the object parsers are built from:
    results and the primitive recognisers, with the conventions of the
    nom 1 library (an input that is a strict prefix of what a recogniser
    wants is Incomplete; anything else that does not match is an Error). */
module Nom {
  import opened Bytes
  import Decimal
  import opened Wrappers

  /** How much more input a parser asks for. */
  datatype Needed = Unknown | Size(n: nat)

  /** Outcome of a parser. `Abort` stands for a Rust panic (an
      out-of-range slice). */
  datatype Parsed<T> =
    | Done(rest: seq<byte>, value: T)
    | Error
    | Incomplete(needed: Needed)
    | Abort
  {
    predicate IsFailure() { !Done? }

    function PropagateFailure<U>(): Parsed<U>
      requires IsFailure()
    {
      match this
      case Error => Error
      case Incomplete(n) => Incomplete(n)
      case Abort => Abort
    }

    function Extract(): (seq<byte>, T)
      requires Done?
    {
      (rest, value)
    }
  }

  /** `tag!`: the literal `t` at the front of the input. */
  function Tag(i: seq<byte>, t: seq<byte>): (r: Parsed<seq<byte>>)
    ensures r.Done? <==> |t| <= |i| && i[..|t|] == t
    ensures r.Done? ==> r.rest == i[|t|..] && r.value == t
    ensures r.Incomplete? <==> |i| < |t| && i == t[..|i|]
    ensures r.Incomplete? ==> r.needed == Size(|t|)
    ensures !r.Abort?
  {
    if |i| < |t| then
      if i == t[..|i|] then Incomplete(Size(|t|)) else Error
    else if i[..|t|] == t then Done(i[|t|..], t)
    else Error
  }

  lemma TagPrefix(t: seq<byte>, rest: seq<byte>)
    ensures Tag(t + rest, t) == Done(rest, t)
  {
    assert (t + rest)[..|t|] == t;
    assert (t + rest)[|t|..] == rest;
  }

  /** `char!`: one given byte. */
  function Char(i: seq<byte>, c: byte): (r: Parsed<byte>)
    ensures r.Done? <==> |i| >= 1 && i[0] == c
    ensures r.Done? ==> r.rest == i[1..] && r.value == c
    ensures r.Incomplete? <==> |i| == 0
    ensures r.Incomplete? ==> r.needed == Size(1)
    ensures !r.Abort?
  {
    if |i| == 0 then Incomplete(Size(1))
    else if i[0] == c then Done(i[1..], c)
    else Error
  }

  /** Length of the longest prefix of `s` whose bytes all satisfy `p`. */
  function Span(s: seq<byte>, p: byte -> bool): (n: nat)
    ensures n <= |s|
    ensures forall k | 0 <= k < n :: p(s[k])
    ensures n < |s| ==> !p(s[n])
  {
    if |s| == 0 || !p(s[0]) then 0 else 1 + Span(s[1..], p)
  }

  /** The longest run is determined by where it stops. */
  lemma {:induction false} SpanUnique(s: seq<byte>, p: byte -> bool, n: nat)
    requires n <= |s|
    requires forall k | 0 <= k < n :: p(s[k])
    requires n < |s| ==> !p(s[n])
    ensures Span(s, p) == n
    decreases n
  {
    if n > 0 {
      assert p(s[0]);
      SpanUnique(s[1..], p, n - 1);
    }
  }

  /** `take_while1!`: at least one byte satisfying `p`, as many as there are. */
  function TakeWhile1(i: seq<byte>, p: byte -> bool): (r: Parsed<seq<byte>>)
    ensures r.Done? <==> |i| >= 1 && p(i[0])
    ensures r.Done? ==> |r.value| >= 1 && i == r.value + r.rest
    ensures r.Done? ==> forall k | 0 <= k < |r.value| :: p(r.value[k])
    ensures r.Done? && |r.rest| > 0 ==> !p(r.rest[0])
    ensures r.Incomplete? <==> |i| == 0
    ensures r.Incomplete? ==> r.needed == Size(1)
    ensures !r.Abort?
  {
    if |i| == 0 then Incomplete(Size(1))
    else
      var n := Span(i, p);
      if n == 0 then Error else Done(i[n..], i[..n])
  }

  lemma TakeWhile1Run(run: seq<byte>, rest: seq<byte>, p: byte -> bool)
    requires |run| >= 1
    requires forall k | 0 <= k < |run| :: p(run[k])
    requires |rest| == 0 || !p(rest[0])
    ensures TakeWhile1(run + rest, p) == Done(rest, run)
  {
    var i := run + rest;
    SpanUnique(i, p, |run|);
    assert i[..|run|] == run && i[|run|..] == rest;
  }

  /** `digit`: a non-empty run of decimal digits. */
  function Digit(i: seq<byte>): (r: Parsed<seq<byte>>)
    ensures r.Done? <==> |i| >= 1 && IsDigit(i[0])
    ensures r.Done? ==> |r.value| >= 1 && AllDigits(r.value) && i == r.value + r.rest
    ensures r.Done? && |r.rest| > 0 ==> !IsDigit(r.rest[0])
    ensures r.Incomplete? <==> |i| == 0
    ensures r.Incomplete? ==> r.needed == Unknown
    ensures !r.Abort?
  {
    if |i| == 0 then Incomplete(Unknown)
    else
      var n := Span(i, IsDigit);
      if n == 0 then Error else Done(i[n..], i[..n])
  }

  lemma DigitRun(run: seq<byte>, rest: seq<byte>)
    requires |run| >= 1 && AllDigits(run)
    requires |rest| == 0 || !IsDigit(rest[0])
    ensures Digit(run + rest) == Done(rest, run)
  {
    var i := run + rest;
    SpanUnique(i, IsDigit, |run|);
    assert i[..|run|] == run && i[|run|..] == rest;
  }

  /** `map_res!(digit, parse::<N>)` for an unsigned target whose largest
      value is `max`: a digit run whose value overflows is an Error. */
  function Number(i: seq<byte>, max: nat): (r: Parsed<nat>)
    ensures r.Done? ==> r.value <= max && |r.rest| < |i|
    ensures r.Done? ==> exists ds :: |ds| >= 1 && AllDigits(ds) && i == ds + r.rest && Decimal.Value(ds) == r.value
    ensures r.Incomplete? <==> |i| == 0
    ensures !r.Abort?
  {
    var (rest, ds) :- Digit(i);
    var v := Decimal.Value(ds);
    if v <= max then Done(rest, v) else Error
  }

  /** Reading back a digit run whose value fits. */
  lemma NumberRun(run: seq<byte>, rest: seq<byte>, max: nat)
    requires |run| >= 1 && AllDigits(run) && Decimal.Value(run) <= max
    requires |rest| == 0 || !IsDigit(rest[0])
    ensures Number(run + rest, max) == Done(rest, Decimal.Value(run))
  {
    DigitRun(run, rest);
  }

  /** Reading back a rendered number that fits. */
  lemma NumberRender(n: nat, max: nat, rest: seq<byte>)
    requires n <= max
    requires |rest| == 0 || !IsDigit(rest[0])
    ensures Number(Decimal.Render(n) + rest, max) == Done(rest, n)
  {
    DigitRun(Decimal.Render(n), rest);
  }

  /** First position at or after `from` where `t` occurs in `s`. */
  function Find(s: seq<byte>, t: seq<byte>, from: nat): (r: Option<nat>)
    ensures r.Some? ==> from <= r.value && OccursAt(s, t, r.value)
    ensures r.Some? ==> forall k: nat | from <= k < r.value :: !OccursAt(s, t, k)
    ensures r.None? ==> forall k: nat | from <= k :: !OccursAt(s, t, k)
    decreases |s| - from
  {
    if from + |t| > |s| then None
    else if s[from..from + |t|] == t then Some(from)
    else Find(s, t, from + 1)
  }

  /** `take_until_and_consume!`: everything before the first `t`, and `t`
      itself is dropped. */
  function TakeUntilAndConsume(i: seq<byte>, t: seq<byte>): (r: Parsed<seq<byte>>)
    ensures r.Incomplete? <==> |i| < |t|
    ensures r.Incomplete? ==> r.needed == Size(|t|)
    ensures r.Done? ==> i == r.value + t + r.rest
    ensures r.Done? ==> forall k: nat | k < |r.value| :: !OccursAt(i, t, k)
    ensures r.Done? && |t| > 0 ==> Avoids(r.value, t)
    ensures r.Error? <==> |t| <= |i| && Avoids(i, t)
    ensures !r.Abort?
  {
    if |i| < |t| then Incomplete(Size(|t|))
    else match Find(i, t, 0)
      case None => Error
      case Some(k) =>
        assert i == i[..k] + t + i[k + |t|..];
        assert |t| > 0 ==> Avoids(i[..k], t) by {
          forall j: nat | j + |t| <= k && |t| > 0 ensures !OccursAt(i[..k], t, j) {
            assert i[..k][j..j + |t|] == i[j..j + |t|];
            assert !OccursAt(i, t, j);
          }
        }
        Done(i[k + |t|..], i[..k])
  }

  /** A two-byte separator whose bytes differ cannot straddle the end of
      a text that avoids it, so the text is what is taken. */
  lemma TakeUntilAndConsumeSep(a: seq<byte>, t: seq<byte>, rest: seq<byte>)
    requires |t| == 2 && t[0] != t[1] && Avoids(a, t)
    ensures TakeUntilAndConsume(a + t + rest, t) == Done(rest, a)
  {
    var i := a + t + rest;
    assert OccursAt(i, t, |a|) by {
      assert i[|a|..|a| + 2] == t;
    }
    forall k: nat | k < |a|
      ensures !OccursAt(i, t, k)
    {
      if k + 2 <= |a| {
        assert i[k..k + 2] == a[k..k + 2];
        assert !OccursAt(a, t, k);
      } else {
        assert i[k + 1] == t[0];
      }
    }
    assert i[|a| + |t|..] == rest;
  }

  /** Up to a one-byte terminator, which is consumed: a text without it is
      taken whole. */
  lemma TakeUntilAndConsumeByte(a: seq<byte>, b: byte, rest: seq<byte>)
    requires NoByte(a, b)
    ensures TakeUntilAndConsume(a + [b] + rest, [b]) == Done(rest, a)
  {
    var i := a + [b] + rest;
    assert OccursAt(i, [b], |a|) by {
      assert i[|a|..|a| + 1] == [b];
    }
    forall k: nat | k < |a|
      ensures !OccursAt(i, [b], k)
    {
      assert i[k..k + 1] == [a[k]];
    }
    assert i[..|a|] == a && i[|a| + 1..] == rest;
  }

  /** `take_until!`: everything before the first `t`, which stays in the input. */
  function TakeUntil(i: seq<byte>, t: seq<byte>): (r: Parsed<seq<byte>>)
    ensures r.Incomplete? <==> |i| < |t|
    ensures r.Incomplete? ==> r.needed == Size(|t|)
    ensures r.Done? ==> i == r.value + r.rest && OccursAt(r.rest, t, 0)
    ensures r.Done? ==> forall k: nat | k < |r.value| :: !OccursAt(i, t, k)
    ensures r.Error? <==> |t| <= |i| && Avoids(i, t)
    ensures !r.Abort?
  {
    if |i| < |t| then Incomplete(Size(|t|))
    else match Find(i, t, 0)
      case None => Error
      case Some(k) => Done(i[k..], i[..k])
  }

  /** Up to a one-byte terminator: a text without it is taken whole and
      the terminator stays in the input. */
  lemma TakeUntilByte(a: seq<byte>, b: byte, rest: seq<byte>)
    requires NoByte(a, b)
    ensures TakeUntil(a + [b] + rest, [b]) == Done([b] + rest, a)
  {
    var i := a + [b] + rest;
    assert OccursAt(i, [b], |a|) by {
      assert i[|a|..|a| + 1] == [b];
    }
    forall k: nat | k < |a|
      ensures !OccursAt(i, [b], k)
    {
      assert i[k..k + 1] == [a[k]];
    }
    assert i[..|a|] == a && i[|a|..] == [b] + rest;
  }

  /** `take!(n)`: exactly `n` bytes. */
  function Take(i: seq<byte>, n: nat): (r: Parsed<seq<byte>>)
    ensures r.Done? <==> n <= |i|
    ensures r.Done? ==> |r.value| == n && i == r.value + r.rest
    ensures r.Incomplete? ==> r.needed == Size(n)
    ensures !r.Error? && !r.Abort?
  {
    if |i| < n then Incomplete(Size(n)) else Done(i[n..], i[..n])
  }

  /** `opt!`: an Error becomes "absent" and consumes nothing. */
  function Opt<T>(r: Parsed<T>, i: seq<byte>): (o: Parsed<Option<T>>)
    ensures r.Done? ==> o == Done(r.rest, Some(r.value))
    ensures r.Error? ==> o == Done(i, None)
    ensures r.Incomplete? ==> o == Incomplete(r.needed)
    ensures r.Abort? ==> o.Abort?
  {
    match r
    case Done(rest, v) => Done(rest, Some(v))
    case Error => Done(i, None)
    case Incomplete(n) => Incomplete(n)
    case Abort => Abort
  }

  /** Adds `k` consumed bytes to a request for more input. */
  function Shift<T>(r: Parsed<T>, k: nat): (o: Parsed<T>)
    ensures r.Incomplete? && r.needed.Size? ==> o == Incomplete(Size(r.needed.n + k))
    ensures !(r.Incomplete? && r.needed.Size?) ==> o == r
  {
    match r
    case Incomplete(Size(n)) => Incomplete(Size(n + k))
    case _ => r
  }

  /** `many0!`: as many items as the parser `p` reads, stopping at the
      first Error, at the end of the input, or when an item consumes
      nothing; a request for more input is passed on. */
  function Many0<T>(p: seq<byte> -> Parsed<T>, i: seq<byte>): (r: Parsed<seq<T>>)
    ensures r.Done? ==> |r.rest| <= |i|
    ensures !r.Error?
    decreases |i|
  {
    if |i| == 0 then Done(i, [])
    else match p(i)
      case Error => Done(i, [])
      case Abort => Abort
      case Incomplete(n) => Incomplete(n)
      case Done(rest, x) =>
        if |rest| >= |i| then Done(i, [])
        else
          var more := Shift(Many0(p, rest), |i| - |rest|);
          if more.Done? then Done(more.rest, [x] + more.value) else more.PropagateFailure()
  }

  /** `many0!` over a parser that never aborts never aborts. */
  lemma {:induction false} Many0NoAbort<T>(p: seq<byte> -> Parsed<T>, i: seq<byte>)
    requires forall j :: !p(j).Abort?
    ensures !Many0(p, i).Abort?
    decreases |i|
  {
    if |i| > 0 && p(i).Done? && |p(i).rest| < |i| {
      Many0NoAbort(p, p(i).rest);
    }
  }

  /** Reading back a concatenation of items: each chunk parses to its
      item, and what follows the last one is empty or rejected. */
  lemma {:induction false} Many0Chunks<T>(p: seq<byte> -> Parsed<T>, chunks: seq<seq<byte>>,
                                          items: seq<T>, rest: seq<byte>)
    requires |chunks| == |items|
    requires forall k | 0 <= k < |chunks| :: |chunks[k]| > 0
    requires forall k | 0 <= k < |chunks| ::
      p(Flatten(chunks[k..]) + rest) == Done(Flatten(chunks[k + 1..]) + rest, items[k])
    requires |rest| == 0 || p(rest).Error?
    ensures Many0(p, Flatten(chunks) + rest) == Done(rest, items)
    decreases |chunks|
  {
    if |chunks| == 0 {
      assert Flatten(chunks) + rest == rest;
    } else {
      var i := Flatten(chunks) + rest;
      assert chunks[0..] == chunks;
      assert p(i) == Done(Flatten(chunks[1..]) + rest, items[0]);
      forall k | 0 <= k < |chunks| - 1
        ensures p(Flatten(chunks[1..][k..]) + rest) == Done(Flatten(chunks[1..][k + 1..]) + rest, items[1..][k])
      {
        assert chunks[1..][k..] == chunks[k + 1..];
        assert chunks[1..][k + 1..] == chunks[k + 2..];
      }
      Many0Chunks(p, chunks[1..], items[1..], rest);
      assert [items[0]] + items[1..] == items;
    }
  }

  /** `non_empty!`: the rest of the input, which must not be empty. */
  function NonEmpty(i: seq<byte>): (r: Parsed<seq<byte>>)
    ensures r.Done? <==> |i| > 0
    ensures r.Done? ==> r.rest == [] && r.value == i
    ensures r.Error? <==> |i| == 0
  {
    if |i| == 0 then Error else Done([], i)
  }
}
