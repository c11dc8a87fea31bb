/** Paths as Rust's `std::path` sees them on Unix: a path is the list of
    its components. `/` separates them; empty and `.` segments vanish
    except for a leading `.`; `..` is the parent directory. Two `PathBuf`s
    are equal exactly when their components are, so a path value in this
    model is its component list. */
module Paths {
  import opened Bytes
  import Nom

  datatype Component = RootDir | CurDir | ParentDir | Normal(name: seq<byte>)

  predicate NotSlash(b: byte) { b != SLASH }

  /** The segments `.` and `..`. */
  const DOT: seq<byte> := [46]
  const DOTDOT: seq<byte> := [46, 46]

  /** The `/`-separated segments of `p`, empty ones included. */
  function Split(p: seq<byte>): (r: seq<seq<byte>>)
    ensures |r| >= 1
    ensures forall k | 0 <= k < |r| :: NoByte(r[k], SLASH)
    decreases |p|
  {
    var n := Nom.Span(p, NotSlash);
    if n == |p| then [p] else [p[..n]] + Split(p[n + 1..])
  }

  lemma SplitNoSlash(a: seq<byte>)
    requires NoByte(a, SLASH)
    ensures Split(a) == [a]
  {
    Nom.SpanUnique(a, NotSlash, |a|);
  }

  lemma SplitSlash(a: seq<byte>, b: seq<byte>)
    requires NoByte(a, SLASH)
    ensures Split(a + [SLASH] + b) == [a] + Split(b)
  {
    var p := a + [SLASH] + b;
    Nom.SpanUnique(p, NotSlash, |a|);
    assert p[..|a|] == a && p[|a| + 1..] == b;
  }

  /** A segment that names something: not empty, not `.`, no `/`. */
  predicate IsName(n: seq<byte>) {
    |n| >= 1 && NoByte(n, SLASH) && n != DOT && n != DOTDOT
  }

  /** A component a relative reference name may hold. */
  predicate IsNameComponent(c: Component) {
    c.ParentDir? || (c.Normal? && IsName(c.name))
  }

  predicate IsRelative(cs: seq<Component>) {
    forall k | 0 <= k < |cs| :: IsNameComponent(cs[k])
  }

  /** The component a segment after the first one yields, if any. */
  function Classify(seg: seq<byte>): (r: seq<Component>)
    ensures |r| <= 1
  {
    if seg == [] || seg == DOT then []
    else if seg == DOTDOT then [ParentDir]
    else [Normal(seg)]
  }

  function Body(segs: seq<seq<byte>>): (r: seq<Component>)
    ensures |r| <= |segs|
  {
    if |segs| == 0 then [] else Classify(segs[0]) + Body(segs[1..])
  }

  lemma {:induction false} BodyAppend(a: seq<seq<byte>>, b: seq<seq<byte>>)
    ensures Body(a + b) == Body(a) + Body(b)
    decreases |a|
  {
    if |a| == 0 {
      assert a + b == b;
    } else {
      assert (a + b)[1..] == a[1..] + b;
      BodyAppend(a[1..], b);
    }
  }

  /** `Path::components`. */
  function Components(p: seq<byte>): (r: seq<Component>)
  {
    if |p| > 0 && p[0] == SLASH then [RootDir] + Body(Split(p[1..]))
    else
      var segs := Split(p);
      if segs[0] == DOT then [CurDir] + Body(segs[1..]) else Body(segs)
  }

  /** Every component of a path after the first is a name or `..`; only
      the first may be the root or the current directory. */
  lemma ComponentsShape(p: seq<byte>)
    ensures |Components(p)| == 0 || IsRelative(Components(p)[1..])
    ensures |Components(p)| > 0 && !Components(p)[0].RootDir? && !Components(p)[0].CurDir? ==>
      IsRelative(Components(p))
  {
    var segs := Split(p);
    BodyIsRelative(segs);
    if |p| > 0 && p[0] == SLASH {
      BodyIsRelative(Split(p[1..]));
    } else if segs[0] == DOT {
      BodyIsRelative(segs[1..]);
    }
  }

  lemma {:induction false} BodyIsRelative(segs: seq<seq<byte>>)
    requires forall k | 0 <= k < |segs| :: NoByte(segs[k], SLASH)
    ensures IsRelative(Body(segs))
    decreases |segs|
  {
    if |segs| > 0 {
      BodyIsRelative(segs[1..]);
    }
  }

  function Text(c: Component): seq<byte> {
    match c
    case RootDir => []
    case CurDir => DOT
    case ParentDir => DOTDOT
    case Normal(n) => n
  }

  /** The text of a path made of the components `cs`, `/`-separated. */
  function Render(cs: seq<Component>): seq<byte>
  {
    if cs == [RootDir] then [SLASH]
    else if |cs| == 0 then []
    else if |cs| == 1 then Text(cs[0])
    else Text(cs[0]) + [SLASH] + Render(cs[1..])
  }

  /** Segments of a rendered relative name are the components' texts. */
  lemma {:induction false} SplitRender(cs: seq<Component>)
    requires IsRelative(cs) && |cs| >= 1
    ensures Split(Render(cs)) == seq(|cs|, k requires 0 <= k < |cs| => Text(cs[k]))
    decreases |cs|
  {
    if |cs| == 1 {
      SplitNoSlash(Text(cs[0]));
    } else {
      var tail := cs[1..];
      var ts := seq(|tail|, k requires 0 <= k < |tail| => Text(tail[k]));
      assert Split(Render(cs)) == [Text(cs[0])] + ts by {
        SplitSlash(Text(cs[0]), Render(tail));
        SplitRender(tail);
      }
      assert [Text(cs[0])] + ts == seq(|cs|, k requires 0 <= k < |cs| => Text(cs[k])) by {
        forall k | 1 <= k < |cs| ensures ts[k - 1] == Text(cs[k]) {
          assert tail[k - 1] == cs[k];
        }
      }
    }
  }

  lemma {:induction false} ClassifyText(c: Component)
    requires IsNameComponent(c)
    ensures Classify(Text(c)) == [c]
  {
  }

  /** Reading back a rendered relative name gives its components. */
  lemma {:induction false} BodyRender(cs: seq<Component>)
    requires IsRelative(cs)
    ensures Body(Split(Render(cs))) == cs
    decreases |cs|
  {
    if |cs| == 0 {
      assert Split([]) == [[]] by { SplitNoSlash([]); }
      assert Body([[]]) == Classify([]) + Body([]);
    } else {
      SplitRender(cs);
      BodyOfTexts(cs);
    }
  }

  lemma {:induction false} BodyOfTexts(cs: seq<Component>)
    requires IsRelative(cs)
    ensures Body(seq(|cs|, k requires 0 <= k < |cs| => Text(cs[k]))) == cs
    decreases |cs|
  {
    if |cs| > 0 {
      var ts := seq(|cs|, k requires 0 <= k < |cs| => Text(cs[k]));
      assert ts[1..] == seq(|cs| - 1, k requires 0 <= k < |cs| - 1 => Text(cs[1..][k]));
      ClassifyText(cs[0]);
      BodyOfTexts(cs[1..]);
    }
  }

  /** A relative name reads back as its own components. */
  lemma ComponentsRender(cs: seq<Component>)
    requires IsRelative(cs)
    ensures Components(Render(cs)) == cs
  {
    BodyRender(cs);
    var p := Render(cs);
    if |cs| == 0 {
      SplitNoSlash([]);
    } else {
      var t := Text(cs[0]);
      assert t != DOT && |t| >= 1 && t[0] != SLASH by {
          }
      if |cs| == 1 {
        SplitNoSlash(t);
      } else {
        SplitSlash(t, Render(cs[1..]));
      }
      assert p[0] == t[0];
      assert Split(p)[0] == t;
    }
  }

  /** The components of `a/b` where `a` is one name are `a` followed by
      the components of `b`. */
  lemma ComponentsUnder(a: seq<byte>, b: seq<byte>)
    requires IsName(a)
    requires |b| == 0 || b[0] != SLASH
    ensures Components(a + [SLASH] + b) == [Normal(a)] + Body(Split(b))
  {
    SplitSlash(a, b);
    var p := a + [SLASH] + b;
    assert p[0] == a[0];
    assert Split(p)[0] == a;
    assert Body(Split(p)) == Classify(a) + Body(Split(p)[1..]);
    assert Split(p)[1..] == Split(b);
  }

  lemma {:induction false} SplitTrailingSlash(x: seq<byte>)
    ensures Split(x + [SLASH]) == Split(x) + [[]]
    decreases |x|
  {
    SplitNoSlash([]);
    if NoByte(x, SLASH) {
      SplitNoSlash(x);
      SplitSlash(x, []);
      assert x + [SLASH] + [] == x + [SLASH];
    } else {
      var n := FirstSlash(x);
      var head, tail := x[..n], x[n + 1..];
      assert x + [SLASH] == head + [SLASH] + (tail + [SLASH]);
      SplitSlash(head, tail);
      SplitSlash(head, tail + [SLASH]);
      SplitTrailingSlash(tail);
      assert [head] + (Split(tail) + [[]]) == [head] + Split(tail) + [[]];
    }
  }

  /** Where the first `/` of a path holding one is. */
  lemma FirstSlash(x: seq<byte>) returns (n: nat)
    requires !NoByte(x, SLASH)
    ensures n < |x| && NoByte(x[..n], SLASH) && x == x[..n] + [SLASH] + x[n + 1..]
  {
    n := Nom.Span(x, NotSlash);
    assert x == x[..n] + [x[n]] + x[n + 1..];
  }

  /** A trailing `/` does not change a path's components. */
  lemma ComponentsTrailingSlash(x: seq<byte>)
    requires |x| >= 1
    ensures Components(x + [SLASH]) == Components(x)
  {
    var y := x + [SLASH];
    assert y[0] == x[0];
    assert Body([[]]) == [];
    if x[0] == SLASH {
      assert y[1..] == x[1..] + [SLASH];
      assert Body(Split(y[1..])) == Body(Split(x[1..])) by {
        SplitTrailingSlash(x[1..]);
        BodyAppend(Split(x[1..]), [[]]);
      }
    } else {
      var segs := Split(x);
      assert Split(y) == segs + [[]] by {
        SplitTrailingSlash(x);
      }
      assert Split(y)[0] == segs[0];
      assert Body(Split(y)) == Body(segs) by {
        BodyAppend(segs, [[]]);
      }
      assert Body(Split(y)[1..]) == Body(segs[1..]) by {
        assert (segs + [[]])[1..] == segs[1..] + [[]];
        BodyAppend(segs[1..], [[]]);
      }
    }
  }
}
