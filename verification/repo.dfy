/** The default methods of the `Repo` traits: following reference links
    to an object identifier over a store of references. The store's
    `get_ref` and `get_object` are parameters. Nothing stops a cycle of
    links, so the model gives the resolution a number of steps and
    reports running out of them as `None`. */
module Repo {
  import opened Wrappers
  import opened Errors
  import opened Refs
  import ElementsHash

  /** What a reference file gives once it is not a link: the identifier,
      or the error met reading it. */
  function Outcome(got: Result<Ref, GitError>): Result<ElementsHash.HashRef, GitError>
    requires !(got.Ok? && got.value.Link?)
  {
    match got
    case Ok(Hash(h)) => Ok(h)
    case Err(e) => Err(e)
  }

  /** `get_ref_follow_links`, allowed `fuel` reference reads: an error
      from `get_ref` is passed on unchanged, an identifier is the
      answer, and a link is followed. */
  function FollowLinks(getRef: SpecRef -> Result<Ref, GitError>, r: SpecRef, fuel: nat): (res: Option<Result<ElementsHash.HashRef, GitError>>)
    ensures fuel == 0 ==> res.None?
    ensures fuel > 0 && !(getRef(r).Ok? && getRef(r).value.Link?) ==> res == Some(Outcome(getRef(r)))
    decreases fuel
  {
    if fuel == 0 then None
    else match getRef(r)
      case Err(e) => Some(Err(e))
      case Ok(Hash(h)) => Some(Ok(h))
      case Ok(Link(s)) => FollowLinks(getRef, s, fuel - 1)
  }

  /** The reference reached from `r` after `n` links, if the first `n`
      reads all give links. */
  function Target(getRef: SpecRef -> Result<Ref, GitError>, r: SpecRef, n: nat): Option<SpecRef>
    decreases n
  {
    if n == 0 then Some(r)
    else match getRef(r)
      case Ok(Link(s)) => Target(getRef, s, n - 1)
      case _ => None
  }

  /** An answer is the outcome of reading the end of the link chain,
      found within the steps allowed. */
  lemma {:induction false} ResolvedAlongChain(getRef: SpecRef -> Result<Ref, GitError>, r: SpecRef, fuel: nat) returns (n: nat)
    requires FollowLinks(getRef, r, fuel).Some?
    ensures n < fuel && Target(getRef, r, n).Some?
    ensures !(getRef(Target(getRef, r, n).value).Ok? && getRef(Target(getRef, r, n).value).value.Link?)
    ensures FollowLinks(getRef, r, fuel) == Some(Outcome(getRef(Target(getRef, r, n).value)))
    decreases fuel
  {
    match getRef(r)
    case Ok(Link(s)) =>
      var m := ResolvedAlongChain(getRef, s, fuel - 1);
      n := m + 1;
    case _ =>
      n := 0;
  }

  /** Conversely, a chain of `n` links ending in an identifier or an
      error resolves with `n + 1` reads. */
  lemma {:induction false} ChainResolves(getRef: SpecRef -> Result<Ref, GitError>, r: SpecRef, n: nat)
    requires Target(getRef, r, n).Some?
    requires !(getRef(Target(getRef, r, n).value).Ok? && getRef(Target(getRef, r, n).value).value.Link?)
    ensures FollowLinks(getRef, r, n + 1) == Some(Outcome(getRef(Target(getRef, r, n).value)))
    decreases n
  {
    if n > 0 {
      match getRef(r)
      case Ok(Link(s)) =>
        ChainResolves(getRef, s, n - 1);
    }
  }

  /** More steps change nothing once an answer is found. */
  lemma {:induction false} FollowLinksMonotone(getRef: SpecRef -> Result<Ref, GitError>, r: SpecRef, f1: nat, f2: nat)
    requires f1 <= f2 && FollowLinks(getRef, r, f1).Some?
    ensures FollowLinks(getRef, r, f2) == FollowLinks(getRef, r, f1)
    decreases f1
  {
    match getRef(r)
    case Ok(Link(s)) =>
      FollowLinksMonotone(getRef, s, f1 - 1, f2 - 1);
    case _ =>
  }

  /** A reference that links to itself is never resolved. */
  lemma {:induction false} SelfLinkUnresolved(getRef: SpecRef -> Result<Ref, GitError>, r: SpecRef, fuel: nat)
    requires getRef(r) == Ok(Link(r))
    ensures FollowLinks(getRef, r, fuel).None?
    decreases fuel
  {
    if fuel > 0 {
      SelfLinkUnresolved(getRef, r, fuel - 1);
    }
  }

  /** `get_object_ref`: an identifier is looked up directly, without
      reading any reference; a link is resolved first, and an error on
      the way is the answer. */
  function GetObjectRef<O>(getRef: SpecRef -> Result<Ref, GitError>, getObject: ElementsHash.HashRef -> Result<O, GitError>,
                           r: Ref, fuel: nat): (res: Option<Result<O, GitError>>)
    ensures r.Hash? ==> res == Some(getObject(r.hash))
    ensures r.Link? ==> (res.None? <==> FollowLinks(getRef, r.target, fuel).None?)
  {
    match r
    case Hash(h) => Some(getObject(h))
    case Link(s) =>
      match FollowLinks(getRef, s, fuel)
      case None => None
      case Some(Err(e)) => Some(Err(e))
      case Some(Ok(h)) => Some(getObject(h))
  }

  /** A link gives the object of the identifier it resolves to, and a
      failed resolution gives its error. */
  lemma GetObjectRefLink<O>(getRef: SpecRef -> Result<Ref, GitError>, getObject: ElementsHash.HashRef -> Result<O, GitError>,
                            s: SpecRef, fuel: nat)
    requires FollowLinks(getRef, s, fuel).Some?
    ensures FollowLinks(getRef, s, fuel).value.Ok? ==>
      GetObjectRef(getRef, getObject, Link(s), fuel) == GetObjectRef(getRef, getObject, Hash(FollowLinks(getRef, s, fuel).value.value), 0)
    ensures FollowLinks(getRef, s, fuel).value.Err? ==>
      GetObjectRef(getRef, getObject, Link(s), fuel) == Some(Err(FollowLinks(getRef, s, fuel).value.error))
  {
  }

  /** `get_head`: the reference `HEAD` as read, a link not followed. */
  function GetHead(getRef: SpecRef -> Result<Ref, GitError>): (res: Result<Ref, GitError>)
    ensures res.Ok? && res.value.Hash? ==> FollowLinks(getRef, Head, 1) == Some(Ok(res.value.hash))
    ensures res.Ok? && res.value.Link? ==> FollowLinks(getRef, Head, 1).None?
    ensures res.Err? ==> FollowLinks(getRef, Head, 1) == Some(Err(res.error))
  {
    getRef(Head)
  }
}
