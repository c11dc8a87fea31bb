/** References: the symbolic names of `refs/`, `HEAD` and friends
    (`SpecRef`), and the content of a reference file, which is either an
    object identifier or `ref: ` followed by another name (`Ref`). */
module Refs {
  import opened Bytes
  import opened Wrappers
  import opened Paths
  import opened Errors
  import opened Whitespace
  import ElementsHash
  import Hex

  /** A reference name is a path, compared by components. */
  type RefName = seq<Component>

  datatype SpecRef =
    | Tag(name: RefName)
    | Branch(name: RefName)
    | Remote(remote: RefName, name: RefName)
    | Patch(name: RefName)
    | Stash
    | Head
    | OriginHead
    | FetchHead

  /** Byte strings of the keywords, spelled out; `Spelling` shows the text. */
  function REFS(): seq<byte> { [114, 101, 102, 115] }
  function TAGS(): seq<byte> { [116, 97, 103, 115] }
  function HEADS(): seq<byte> { [104, 101, 97, 100, 115] }
  function PATCHES(): seq<byte> { [112, 97, 116, 99, 104, 101, 115] }
  function STASH(): seq<byte> { [115, 116, 97, 115, 104] }
  function REMOTES(): seq<byte> { [114, 101, 109, 111, 116, 101, 115] }
  function HEAD(): seq<byte> { [72, 69, 65, 68] }
  function ORIG_HEAD(): seq<byte> { [79, 82, 73, 71, 95, 72, 69, 65, 68] }
  function FETCH_HEAD(): seq<byte> { [70, 69, 84, 67, 72, 95, 72, 69, 65, 68] }

  lemma Spelling()
    ensures REFS() == Lit("refs") && TAGS() == Lit("tags") && HEADS() == Lit("heads")
    ensures PATCHES() == Lit("patches") && STASH() == Lit("stash") && REMOTES() == Lit("remotes")
    ensures HEAD() == Lit("HEAD") && ORIG_HEAD() == Lit("ORIG_HEAD") && FETCH_HEAD() == Lit("FETCH_HEAD")
  {
  }

  /** What follows a leading `refs` component. */
  function UnderRefs(cs: seq<Component>): (r: Option<SpecRef>)
    ensures r.Some? ==> |cs| >= 1 && cs[0].Normal?
    ensures r.Some? && (r.value.Tag? || r.value.Branch? || r.value.Patch?) ==> r.value.name == cs[1..]
    ensures r.Some? && r.value.Tag? <==> |cs| >= 1 && cs[0] == Normal(TAGS())
    ensures r.Some? && r.value.Branch? <==> |cs| >= 1 && cs[0] == Normal(HEADS())
    ensures r.Some? && r.value.Patch? <==> |cs| >= 1 && cs[0] == Normal(PATCHES())
    ensures r.Some? && r.value.Stash? <==> |cs| >= 1 && cs[0] == Normal(STASH())
    ensures r.Some? && r.value.Remote? <==>
      |cs| >= 2 && cs[0] == Normal(REMOTES()) && cs[1].Normal?
    ensures r.Some? && r.value.Remote? ==> r.value.remote == [cs[1]] && r.value.name == cs[2..]
    ensures r.Some? ==> !r.value.Head? && !r.value.OriginHead? && !r.value.FetchHead?
  {
    KeywordsDiffer();
    if |cs| == 0 || !cs[0].Normal? then None
    else
      var t := cs[0].name;
      var rest := cs[1..];
      if t == TAGS() then Some(Tag(rest))
      else if t == HEADS() then Some(Branch(rest))
      else if t == PATCHES() then Some(Patch(rest))
      else if t == STASH() then Some(Stash)
      else if t == REMOTES() && |rest| >= 1 && rest[0].Normal? then Some(Remote([rest[0]], rest[1..]))
      else None
  }

  lemma KeywordsDiffer()
    ensures TAGS() != HEADS() && TAGS() != PATCHES() && TAGS() != STASH() && TAGS() != REMOTES()
    ensures HEADS() != PATCHES() && HEADS() != STASH() && HEADS() != REMOTES()
    ensures PATCHES() != STASH() && PATCHES() != REMOTES() && STASH() != REMOTES()
    ensures REFS() != HEAD() && REFS() != ORIG_HEAD() && REFS() != FETCH_HEAD()
    ensures HEAD() != ORIG_HEAD() && HEAD() != FETCH_HEAD() && ORIG_HEAD() != FETCH_HEAD()
  {
  }

  /** `SpecRef::from_str` once the name is split into components. */
  function FromComponents(cs: seq<Component>): (r: Result<SpecRef, GitError>)
    ensures r.Err? ==> r.error == InvalidRef(cs)
    ensures r == Ok(Head) <==> |cs| >= 1 && cs[0] == Normal(HEAD())
    ensures r == Ok(OriginHead) <==> |cs| >= 1 && cs[0] == Normal(ORIG_HEAD())
    ensures r == Ok(FetchHead) <==> |cs| >= 1 && cs[0] == Normal(FETCH_HEAD())
    ensures r.Ok? && r.value.Branch? ==> cs == [Normal(REFS()), Normal(HEADS())] + r.value.name
    ensures r.Ok? && r.value.Tag? ==> cs == [Normal(REFS()), Normal(TAGS())] + r.value.name
    ensures r.Ok? && r.value.Patch? ==> cs == [Normal(REFS()), Normal(PATCHES())] + r.value.name
    ensures r.Ok? && r.value.Remote? ==>
      |r.value.remote| == 1 && r.value.remote[0].Normal? &&
      cs == [Normal(REFS()), Normal(REMOTES())] + r.value.remote + r.value.name
    ensures r.Ok? && r.value.Stash? ==> |cs| >= 2 && cs[..2] == [Normal(REFS()), Normal(STASH())]
  {
    KeywordsDiffer();
    if |cs| == 0 || !cs[0].Normal? then Err(InvalidRef(cs))
    else
      var r := cs[0].name;
      var known := if r == REFS() then UnderRefs(cs[1..]) else None;
      if known.Some? then
        assert cs == [cs[0]] + cs[1..];
        assert cs[1..][1..] == cs[2..];
        Ok(known.value)
      else if r == HEAD() then Ok(Head)
      else if r == ORIG_HEAD() then Ok(OriginHead)
      else if r == FETCH_HEAD() then Ok(FetchHead)
      else Err(InvalidRef(cs))
  }

  /** `SpecRef::from_str`: trailing white space is ignored and the name is
      read component by component. `HEAD`, `ORIG_HEAD` and `FETCH_HEAD`
      are recognised by their first component alone. */
  function FromStr(s: seq<byte>): (r: Result<SpecRef, GitError>)
    ensures r.Err? ==> r.error == InvalidRef(Components(TrimEnd(s)))
    ensures r == Ok(Head) <==>
      |Components(TrimEnd(s))| >= 1 && Components(TrimEnd(s))[0] == Normal(HEAD())
    ensures r == Ok(OriginHead) <==>
      |Components(TrimEnd(s))| >= 1 && Components(TrimEnd(s))[0] == Normal(ORIG_HEAD())
    ensures r == Ok(FetchHead) <==>
      |Components(TrimEnd(s))| >= 1 && Components(TrimEnd(s))[0] == Normal(FETCH_HEAD())
    ensures r.Ok? && r.value.Branch? ==>
      Components(TrimEnd(s)) == [Normal(REFS()), Normal(HEADS())] + r.value.name
    ensures r.Ok? && r.value.Tag? ==>
      Components(TrimEnd(s)) == [Normal(REFS()), Normal(TAGS())] + r.value.name
    ensures r.Ok? && r.value.Patch? ==>
      Components(TrimEnd(s)) == [Normal(REFS()), Normal(PATCHES())] + r.value.name
    ensures r.Ok? && r.value.Remote? ==>
      |r.value.remote| == 1 && r.value.remote[0].Normal? &&
      Components(TrimEnd(s)) == [Normal(REFS()), Normal(REMOTES())] + r.value.remote + r.value.name
    ensures r.Ok? && r.value.Stash? ==>
      |Components(TrimEnd(s))| >= 2 && Components(TrimEnd(s))[..2] == [Normal(REFS()), Normal(STASH())]
  {
    FromComponents(Components(TrimEnd(s)))
  }

  /** `Display`: the name as stored under `.git`. */
  function Display(sr: SpecRef): (r: seq<byte>)
    ensures |r| >= 5 && r[..5] == REFS() + [SLASH] <==> !(sr.Head? || sr.OriginHead? || sr.FetchHead?)
  {
    match sr
    case Tag(t) => REFS() + [SLASH] + TAGS() + [SLASH] + Render(t)
    case Branch(b) => REFS() + [SLASH] + HEADS() + [SLASH] + Render(b)
    case Remote(r, b) => REFS() + [SLASH] + REMOTES() + [SLASH] + Render(r) + [SLASH] + Render(b)
    case Patch(p) => REFS() + [SLASH] + PATCHES() + [SLASH] + Render(p)
    case Stash => REFS() + [SLASH] + STASH()
    case Head => HEAD()
    case OriginHead =>
      assert ORIG_HEAD()[0] != REFS()[0];
      ORIG_HEAD()
    case FetchHead =>
      assert FETCH_HEAD()[0] != REFS()[0];
      FETCH_HEAD()
  }

  /** The last component of a name does not end in white space, which
      `from_str` would trim. */
  predicate NoTrailingBlank(cs: RefName)
    requires IsRelative(cs)
  {
    |cs| == 0 || SpaceWidth(Text(cs[|cs| - 1])) == 0
  }

  function Last(s: seq<byte>): byte
    requires |s| >= 1
  {
    s[|s| - 1]
  }

  predicate WellFormedName(cs: RefName) {
    IsRelative(cs) && NoTrailingBlank(cs)
  }

  /** The names that survive being written and read back. */
  predicate WellFormed(sr: SpecRef) {
    match sr
    case Tag(t) => WellFormedName(t)
    case Branch(b) => WellFormedName(b)
    case Patch(p) => WellFormedName(p)
    case Remote(r, b) => |r| == 1 && r[0].Normal? && IsName(r[0].name) && WellFormedName(b)
    case _ => true
  }

  lemma KeywordNames()
    ensures IsName(REFS()) && IsName(TAGS()) && IsName(HEADS()) && IsName(PATCHES())
    ensures IsName(STASH()) && IsName(REMOTES())
    ensures IsName(HEAD()) && IsName(ORIG_HEAD()) && IsName(FETCH_HEAD())
  {
  }

  lemma {:induction false} RenderLast(cs: RefName)
    requires IsRelative(cs) && |cs| >= 1
    ensures |Render(cs)| >= 1 && Last(Render(cs)) == Last(Text(cs[|cs| - 1]))
    decreases |cs|
  {
        if |cs| > 1 {
      RenderLast(cs[1..]);
    }
  }

  /** `k1/k2/` followed by a rendered name. */
  lemma ComponentsKeyed(k1: seq<byte>, k2: seq<byte>, cs: RefName)
    requires IsName(k1) && IsName(k2) && IsRelative(cs)
    ensures Components(k1 + [SLASH] + k2 + [SLASH] + Render(cs)) == [Normal(k1), Normal(k2)] + cs
  {
    var tail := k2 + [SLASH] + Render(cs);
    assert k1 + [SLASH] + k2 + [SLASH] + Render(cs) == k1 + [SLASH] + tail;
    ComponentsUnder(k1, tail);
    BodyKeyed(k2, cs);
  }

  lemma BodyKeyed(k: seq<byte>, cs: RefName)
    requires IsName(k) && IsRelative(cs)
    ensures Body(Split(k + [SLASH] + Render(cs))) == [Normal(k)] + cs
  {
    var segs := Split(k + [SLASH] + Render(cs));
    assert segs[0] == k && segs[1..] == Split(Render(cs)) by {
      SplitSlash(k, Render(cs));
    }
    assert Body(segs) == Classify(segs[0]) + Body(segs[1..]);
    BodyRender(cs);
  }

  lemma TrimKeyed(prefix: seq<byte>, cs: RefName)
    requires |prefix| >= 1 && Last(prefix) == SLASH
    requires WellFormedName(cs)
    ensures TrimEnd(prefix + Render(cs)) == prefix + Render(cs)
  {
    if |cs| >= 1 {
      var init := RenderEnds(cs);
      TrimAfterSlash(prefix, init, Text(cs[|cs| - 1]));
    } else {
      assert prefix + Render(cs) == prefix;
      TrimEndUnspaced(prefix);
    }
  }

  /** A rendered name is its last component's text behind nothing or a
      `/`. */
  lemma {:induction false} RenderEnds(cs: RefName) returns (init: seq<byte>)
    requires IsRelative(cs) && |cs| >= 1
    ensures Render(cs) == init + Text(cs[|cs| - 1]) && |Text(cs[|cs| - 1])| >= 1
    ensures |init| == 0 || Last(init) == SLASH
    decreases |cs|
  {
    if |cs| == 1 {
      init := [];
    } else {
      var more := RenderEnds(cs[1..]);
      init := Text(cs[0]) + [SLASH] + more;
      assert cs[1..][|cs[1..]| - 1] == cs[|cs| - 1];
    }
  }

  /** The directory a `refs/<kind>/<name>` reference sits in. */
  function Kind(sr: SpecRef): seq<byte>
    requires sr.Tag? || sr.Branch? || sr.Patch?
  {
    if sr.Tag? then TAGS() else if sr.Branch? then HEADS() else PATCHES()
  }

  lemma FromStrKeyed(sr: SpecRef)
    requires WellFormed(sr) && (sr.Tag? || sr.Branch? || sr.Patch?)
    ensures TrimEnd(Display(sr)) == Display(sr)
    ensures FromStr(Display(sr)) == Ok(sr)
  {
    var cs := [Normal(REFS()), Normal(Kind(sr))] + sr.name;
    assert TrimEnd(Display(sr)) == Display(sr) && Components(Display(sr)) == cs by {
      KeywordNames();
      var k := Kind(sr);
      assert Display(sr) == REFS() + [SLASH] + k + [SLASH] + Render(sr.name);
      TrimKeyed(REFS() + [SLASH] + k + [SLASH], sr.name);
      ComponentsKeyed(REFS(), k, sr.name);
    }
    FromComponentsKeyed(sr, cs);
  }

  lemma FromComponentsKeyed(sr: SpecRef, cs: seq<Component>)
    requires sr.Tag? || sr.Branch? || sr.Patch?
    requires cs == [Normal(REFS()), Normal(Kind(sr))] + sr.name
    ensures FromComponents(cs) == Ok(sr)
  {
    assert cs[1..][0] == Normal(Kind(sr)) && cs[1..][1..] == sr.name;
  }

  lemma RemoteComponents(n: seq<byte>, b: RefName)
    requires IsName(n) && WellFormedName(b)
    ensures TrimEnd(Display(Remote([Normal(n)], b))) == Display(Remote([Normal(n)], b))
    ensures Components(Display(Remote([Normal(n)], b))) ==
            [Normal(REFS()), Normal(REMOTES()), Normal(n)] + b
  {
    var prefix := REFS() + [SLASH] + REMOTES() + [SLASH] + n + [SLASH];
    assert Display(Remote([Normal(n)], b)) == prefix + Render(b);
    TrimKeyed(prefix, b);
    if |b| == 0 {
      assert Display(Remote([Normal(n)], b)) == prefix;
      ComponentsRemoteEmpty(n);
    } else {
      ComponentsRemoteNonEmpty(n, b);
    }
  }

  lemma ComponentsRemoteNonEmpty(n: seq<byte>, b: RefName)
    requires IsName(n) && WellFormedName(b) && |b| >= 1
    ensures Components(Display(Remote([Normal(n)], b))) ==
            [Normal(REFS()), Normal(REMOTES()), Normal(n)] + b
  {
    var cs := [Normal(n)] + b;
    var keys := REFS() + [SLASH] + REMOTES() + [SLASH];
    assert Display(Remote([Normal(n)], b)) == keys + Render(cs) by {
      assert cs[1..] == b;
      assert Render(cs) == n + [SLASH] + Render(b);
      assert Render([Normal(n)]) == n;
      assert Display(Remote([Normal(n)], b)) == keys + n + [SLASH] + Render(b);
      Regroup3(keys, n, [SLASH], Render(b));
    }
    assert Components(keys + Render(cs)) == [Normal(REFS()), Normal(REMOTES())] + cs by {
      assert cs[1..] == b;
      KeywordNames();
      ComponentsKeyed(REFS(), REMOTES(), cs);
    }
    assert [Normal(REFS()), Normal(REMOTES())] + cs == [Normal(REFS()), Normal(REMOTES()), Normal(n)] + b;
  }

  lemma FromStrRemote(sr: SpecRef)
    requires WellFormed(sr) && sr.Remote?
    ensures TrimEnd(Display(sr)) == Display(sr)
    ensures FromStr(Display(sr)) == Ok(sr)
  {
    var n := sr.remote[0].name;
    assert sr.remote == [Normal(n)];
    RemoteComponents(n, sr.name);
    var cs := Components(Display(sr));
    assert cs[1..][0] == Normal(REMOTES()) && cs[1..][1..][0] == Normal(n) && cs[1..][1..][1..] == sr.name;
  }

  /** A well-formed reference name reads back from its text: the property
      `encode_decode_specref` checks on examples. */
  lemma FromStrDisplay(sr: SpecRef)
    requires WellFormed(sr)
    ensures TrimEnd(Display(sr)) == Display(sr)
    ensures FromStr(Display(sr)) == Ok(sr)
  {
    KeywordNames();
    KeywordsDiffer();
    match sr
    case Tag(_) => FromStrKeyed(sr);
    case Branch(_) => FromStrKeyed(sr);
    case Patch(_) => FromStrKeyed(sr);
    case Remote(_, _) => FromStrRemote(sr);
    case Stash => FromStrStash();
    case Head =>
      ComponentsName(HEAD());
    case OriginHead =>
      ComponentsName(ORIG_HEAD());
    case FetchHead =>
      ComponentsName(FETCH_HEAD());
  }

  lemma FromStrStash()
    ensures TrimEnd(Display(Stash)) == Display(Stash)
    ensures FromStr(Display(Stash)) == Ok(Stash)
  {
    var cs := [Normal(REFS()), Normal(STASH())];
    StashComponents();
    FromComponentsStash(cs);
  }

  lemma StashComponents()
    ensures TrimEnd(Display(Stash)) == Display(Stash)
    ensures Components(Display(Stash)) == [Normal(REFS()), Normal(STASH())]
  {
    var d := REFS() + [SLASH] + STASH();
    assert Display(Stash) == d;
    assert !IsWhitespace(d[|d| - 1]) by {
      assert d[|d| - 1] == STASH()[4];
    }
    assert Components(d) == [Normal(REFS()), Normal(STASH())] by {
      KeywordNames();
      ComponentsUnder(REFS(), STASH());
      SplitNoSlash(STASH());
    }
  }

  lemma FromComponentsStash(cs: seq<Component>)
    requires cs == [Normal(REFS()), Normal(STASH())]
    ensures FromComponents(cs) == Ok(Stash)
  {
    assert cs[1..][0] == Normal(STASH());
  }

  lemma ComponentsRemoteEmpty(n: seq<byte>)
    requires IsName(n)
    ensures Components(REFS() + [SLASH] + REMOTES() + [SLASH] + n + [SLASH]) ==
            [Normal(REFS()), Normal(REMOTES()), Normal(n)]
  {
    KeywordNames();
    ComponentsKeyed(REFS(), REMOTES(), [Normal(n)]);
    ComponentsTrailingSlash(REFS() + [SLASH] + REMOTES() + [SLASH] + n);
  }

  lemma ComponentsName(n: seq<byte>)
    requires IsName(n) && SpaceWidth(n) == 0
    ensures TrimEnd(n) == n
    ensures Components(n) == [Normal(n)]
  {
    SplitNoSlash(n);
    assert n[0] != SLASH;
  }

  /** `From<SpecRef> for PathBuf`: where the reference file lives. */
  function PathOf(sr: SpecRef): seq<Component> {
    Components(Display(sr))
  }

  /** A well-formed name's file is the name under its directory. */
  lemma PathOfWellFormed(sr: SpecRef)
    requires WellFormed(sr)
    ensures sr.Branch? ==> PathOf(sr) == [Normal(REFS()), Normal(HEADS())] + sr.name
    ensures sr.Tag? ==> PathOf(sr) == [Normal(REFS()), Normal(TAGS())] + sr.name
    ensures sr.Patch? ==> PathOf(sr) == [Normal(REFS()), Normal(PATCHES())] + sr.name
    ensures sr.Remote? ==> PathOf(sr) == [Normal(REFS()), Normal(REMOTES())] + sr.remote + sr.name
    ensures sr.Head? ==> PathOf(sr) == [Normal(HEAD())]
  {
    FromStrDisplay(sr);
  }

  /** The content of a reference file: an object identifier, or a link
      to another reference. */
  datatype Ref = Hash(hash: ElementsHash.HashRef) | Link(target: SpecRef)

  /** `ref: ` */
  function LINK_PREFIX(): seq<byte> { [114, 101, 102, 58, 32] }
  /** `objects` */
  function OBJECTS(): seq<byte> { [111, 98, 106, 101, 99, 116, 115] }

  predicate IsLinkText(s: seq<byte>) {
    |s| >= 5 && s[..5] == LINK_PREFIX()
  }

  /** `Ref::from_str`: a link when the text starts with `ref: `, an object
      identifier in hex otherwise. */
  function RefFromStr(s: seq<byte>): (r: Result<Ref, GitError>)
    ensures IsLinkText(s) && FromStr(s[5..]).Ok? ==> r == Ok(Link(FromStr(s[5..]).value))
    ensures IsLinkText(s) && FromStr(s[5..]).Err? ==> r == Err(FromStr(s[5..]).error)
    ensures !IsLinkText(s) && ElementsHash.FromStr(s).Ok? ==> r == Ok(Hash(ElementsHash.FromStr(s).value))
    ensures !IsLinkText(s) && ElementsHash.FromStr(s).Err? ==> r == Err(ElementsHash.FromStr(s).error)
  {
    if IsLinkText(s) then
      var sr :- FromStr(s[5..]);
      Ok(Link(sr))
    else
      var h :- ElementsHash.FromStr(s);
      Ok(Hash(h))
  }

  /** `Display` of a reference file's content. */
  function RefDisplay(r: Ref): seq<byte> {
    match r
    case Hash(h) => ElementsHash.Display(h)
    case Link(sr) => LINK_PREFIX() + Display(sr)
  }

  predicate RefWellFormed(r: Ref) {
    match r
    case Hash(h) => ElementsHash.Valid(h)
    case Link(sr) => WellFormed(sr)
  }

  /** Writing and reading back a reference file's content: the property
      `encode_decode_ref` checks on examples. */
  lemma RefFromStrDisplay(r: Ref)
    requires RefWellFormed(r)
    ensures RefFromStr(RefDisplay(r)) == Ok(r)
  {
    var d := RefDisplay(r);
    match r
    case Link(sr) =>
      assert d[..5] == LINK_PREFIX() && d[5..] == Display(sr);
      FromStrDisplay(sr);
    case Hash(h) =>
      assert Hex.IsLowerHexDigit(d[0]);
      assert d[..5][0] != LINK_PREFIX()[0];
      ElementsHash.FromStrDisplay(h);
  }

  /** `From<Ref> for PathBuf`: an object identifier names the loose object
      file `objects/<prefix>/<rest>`, a link names the reference's file. */
  function RefPath(r: Ref): (p: seq<Component>)
    requires r.Hash? ==> |r.hash.hash| >= ElementsHash.PREFIX_SIZE
    ensures r.Hash? ==> p == [Normal(OBJECTS())] + ElementsHash.Path(r.hash)
    ensures r.Hash? && ElementsHash.Valid(r.hash) ==>
      |p| == 3 && p[1].Normal? && p[2].Normal? && |p[1].name| == 2 &&
      p[1].name + p[2].name == RefDisplay(r)
    ensures r.Link? ==> p == PathOf(r.target)
  {
    match r
    case Hash(h) => [Normal(OBJECTS())] + ElementsHash.Path(h)
    case Link(sr) => PathOf(sr)
  }
}
