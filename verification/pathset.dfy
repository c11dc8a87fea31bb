/** An ordered set whose elements are identified and ordered by a byte
    string key, as a Rust `BTreeSet` of elements whose `Eq` and `Ord`
    look only at a path: a sequence strictly ascending by key. Lookups
    take a key; insertion keeps an element already present under the
    same key; the set operations return the receiver's element when both
    sides hold the key. */
module PathSet {
  import opened Bytes
  import opened Wrappers
  import Lex

  predicate Sorted<T>(s: seq<T>, key: T -> seq<byte>) {
    forall i, j | 0 <= i < j < |s| :: Lex.Less(key(s[i]), key(s[j]))
  }

  function Keys<T>(s: seq<T>, key: T -> seq<byte>): set<seq<byte>> {
    set i | 0 <= i < |s| :: key(s[i])
  }

  function Elems<T(==)>(s: seq<T>): set<T> {
    set i | 0 <= i < |s| :: s[i]
  }

  /** Every key of `s` comes after `k`. */
  predicate Above<T>(k: seq<byte>, s: seq<T>, key: T -> seq<byte>) {
    forall i | 0 <= i < |s| :: Lex.Less(k, key(s[i]))
  }

  lemma SortedCons<T>(x: T, s: seq<T>, key: T -> seq<byte>)
    requires Sorted(s, key) && Above(key(x), s, key)
    ensures Sorted([x] + s, key)
  {
    var r := [x] + s;
    forall i, j | 0 <= i < j < |r|
      ensures Lex.Less(key(r[i]), key(r[j]))
    {
      if i > 0 {
        assert r[i] == s[i - 1] && r[j] == s[j - 1];
      } else {
        assert r[j] == s[j - 1];
      }
    }
  }

  lemma SortedTail<T>(s: seq<T>, key: T -> seq<byte>)
    requires Sorted(s, key) && |s| >= 1
    ensures Sorted(s[1..], key) && Above(key(s[0]), s[1..], key)
  {
    forall i | 0 <= i < |s| - 1
      ensures Lex.Less(key(s[0]), key(s[1..][i]))
    {
      assert s[1..][i] == s[i + 1];
    }
  }

  /** The element stored under key `k`, if any. */
  function Get<T(==)>(s: seq<T>, key: T -> seq<byte>, k: seq<byte>): (r: Option<T>)
    ensures r.Some? ==> r.value in Elems(s) && key(r.value) == k
    ensures r.None? <==> k !in Keys(s, key)
  {
    if |s| == 0 then None
    else if key(s[0]) == k then Some(s[0])
    else
      var r := Get(s[1..], key, k);
      assert Keys(s, key) == {key(s[0])} + Keys(s[1..], key) by {
        KeysCons(s, key);
      }
      assert Elems(s[1..]) <= Elems(s) by {
        forall e | e in Elems(s[1..]) ensures e in Elems(s) {
          var i :| 0 <= i < |s[1..]| && s[1..][i] == e;
          assert s[i + 1] == e;
        }
      }
      r
  }

  lemma KeysCons<T>(s: seq<T>, key: T -> seq<byte>)
    requires |s| >= 1
    ensures Keys(s, key) == {key(s[0])} + Keys(s[1..], key)
  {
    forall k | k in Keys(s, key) ensures k in {key(s[0])} + Keys(s[1..], key) {
      var i :| 0 <= i < |s| && key(s[i]) == k;
      if i > 0 {
        assert s[1..][i - 1] == s[i];
      }
    }
    forall k | k in Keys(s[1..], key) ensures k in Keys(s, key) {
      var i :| 0 <= i < |s[1..]| && key(s[1..][i]) == k;
      assert s[i + 1] == s[1..][i];
    }
  }

  lemma ElemsCons<T>(x: T, s: seq<T>)
    ensures Elems([x] + s) == {x} + Elems(s)
  {
    var r := [x] + s;
    assert r[0] == x;
    forall e | e in Elems(r) ensures e in {x} + Elems(s) {
      var i :| 0 <= i < |r| && r[i] == e;
      if i > 0 {
        assert s[i - 1] == r[i];
      }
    }
    forall e | e in Elems(s) ensures e in Elems(r) {
      var i :| 0 <= i < |s| && s[i] == e;
      assert r[i + 1] == s[i];
    }
  }

  lemma KeysOfCons<T>(x: T, s: seq<T>, key: T -> seq<byte>)
    ensures Keys([x] + s, key) == {key(x)} + Keys(s, key)
  {
    var r := [x] + s;
    KeysCons(r, key);
    assert r[1..] == s;
  }

  /** A key above the set's first key is above all of them. */
  lemma AboveAll<T>(k: seq<byte>, s: seq<T>, key: T -> seq<byte>)
    requires Sorted(s, key) && |s| >= 1 && (k == key(s[0]) || Lex.Less(k, key(s[0])))
    ensures Above(k, s[1..], key)
  {
    forall i | 0 <= i < |s| - 1
      ensures Lex.Less(k, key(s[1..][i]))
    {
      assert s[1..][i] == s[i + 1];
      if k != key(s[0]) {
        Lex.Transitive(k, key(s[0]), key(s[i + 1]));
      }
    }
  }

  lemma NotInAbove<T>(k: seq<byte>, s: seq<T>, key: T -> seq<byte>)
    requires Above(k, s, key)
    ensures k !in Keys(s, key)
  {
    forall i | 0 <= i < |s| ensures key(s[i]) != k {
      Lex.Irreflexive(k);
    }
  }

  lemma AboveFromKeys<T>(k: seq<byte>, s: seq<T>, t: seq<T>, key: T -> seq<byte>)
    requires Above(k, s, key)
    requires forall e | e in Keys(t, key) :: e in Keys(s, key) || Lex.Less(k, e)
    ensures Above(k, t, key)
  {
    forall i | 0 <= i < |t|
      ensures Lex.Less(k, key(t[i]))
    {
      assert key(t[i]) in Keys(t, key);
      if key(t[i]) in Keys(s, key) {
        var j :| 0 <= j < |s| && key(s[j]) == key(t[i]);
      }
    }
  }

  /** `insert`: adds `x` unless its key is already present, in which case
      the set is unchanged; reports whether it added. */
  function Insert<T(==)>(s: seq<T>, key: T -> seq<byte>, x: T): (r: (seq<T>, bool))
    requires Sorted(s, key)
    ensures Sorted(r.0, key)
    ensures r.1 <==> key(x) !in Keys(s, key)
    ensures r.1 ==> Elems(r.0) == Elems(s) + {x} && Keys(r.0, key) == Keys(s, key) + {key(x)}
    ensures !r.1 ==> r.0 == s
    ensures |r.0| == |s| + (if r.1 then 1 else 0)
    decreases |s|
  {
    if |s| == 0 then
      ElemsCons(x, []);
      KeysOfCons(x, [], key);
      ([x], true)
    else if key(x) == key(s[0]) then (s, false)
    else if Lex.Less(key(x), key(s[0])) then
      AboveAll(key(x), s, key);
      SortedCons(x, s, key);
      ElemsCons(x, s);
      KeysOfCons(x, s, key);
      NotInAbove(key(x), s, key);
      ([x] + s, true)
    else
      SortedTail(s, key);
      var (t, added) := Insert(s[1..], key, x);
      Lex.Total(key(x), key(s[0]));
      KeysCons(s, key);
      AboveFromKeys(key(s[0]), s[1..], t, key);
      SortedCons(s[0], t, key);
      ElemsCons(s[0], t);
      ElemsCons(s[0], s[1..]);
      KeysOfCons(s[0], t, key);
      assert [s[0]] + s[1..] == s;
      ([s[0]] + t, added)
  }

  /** Appending an element whose key is above all the others is an
      insertion: reading entries in ascending order builds the set. */
  lemma InsertLast<T>(s: seq<T>, key: T -> seq<byte>, x: T)
    requires Sorted(s + [x], key)
    ensures Sorted(s, key)
    ensures Insert(s, key, x) == (s + [x], true)
    decreases |s|
  {
    assert Sorted(s, key) by {
      forall i, j | 0 <= i < j < |s| ensures Lex.Less(key(s[i]), key(s[j])) {
        assert (s + [x])[i] == s[i] && (s + [x])[j] == s[j];
      }
    }
    if |s| == 0 {
      assert s + [x] == [x];
    } else {
      assert (s + [x])[0] == s[0] && (s + [x])[|s|] == x;
      Lex.Asymmetric(key(s[0]), key(x));
      Lex.Irreflexive(key(x));
      assert (s + [x])[1..] == s[1..] + [x];
      assert Sorted(s[1..] + [x], key) by {
        forall i, j | 0 <= i < j < |s| ensures Lex.Less(key((s[1..] + [x])[i]), key((s[1..] + [x])[j])) {
          assert (s[1..] + [x])[i] == (s + [x])[i + 1];
          assert (s[1..] + [x])[j] == (s + [x])[j + 1];
        }
      }
      InsertLast(s[1..], key, x);
      assert [s[0]] + (s[1..] + [x]) == s + [x];
    }
  }

  /** After `insert`, a key finds what it found before, or the new
      element when the key was absent. */
  lemma GetInsert<T>(s: seq<T>, key: T -> seq<byte>, x: T, k: seq<byte>)
    requires Sorted(s, key)
    ensures Get(Insert(s, key, x).0, key, k) ==
            if k == key(x) && k !in Keys(s, key) then Some(x) else Get(s, key, k)
  {
    var (t, added) := Insert(s, key, x);
    var g := Get(t, key, k);
    if added && k == key(x) {
      assert x in Elems(t);
      SortedKeyUnique(t, key, x);
    } else if added && g.Some? {
      var w := Get(s, key, k);
      assert w.Some?;
      assert w.value in Elems(t);
      SortedKeyUnique(t, key, g.value);
    }
  }

  /** The first element of `xs` under the key `k`. */
  function FirstWith<T>(xs: seq<T>, key: T -> seq<byte>, k: seq<byte>): Option<T>
    decreases |xs|
  {
    if |xs| == 0 then None
    else if key(xs[0]) == k then Some(xs[0])
    else FirstWith(xs[1..], key, k)
  }

  /** Where no earlier element shares its key, an element is the first
      one under that key. */
  lemma {:induction false} FirstWithDistinct<T>(xs: seq<T>, key: T -> seq<byte>, k: nat)
    requires k < |xs|
    requires forall j | 0 <= j < k :: key(xs[j]) != key(xs[k])
    ensures FirstWith(xs, key, key(xs[k])) == Some(xs[k])
    decreases k
  {
    if k > 0 {
      assert key(xs[0]) != key(xs[k]);
      FirstWithDistinct(xs[1..], key, k - 1);
    }
  }

  /** Inserting the elements of `xs` one after the other (`extend`). */
  function InsertAll<T(==)>(s: seq<T>, key: T -> seq<byte>, xs: seq<T>): (r: seq<T>)
    requires Sorted(s, key)
    ensures Sorted(r, key)
    ensures Keys(r, key) == Keys(s, key) + Keys(xs, key)
    ensures Elems(s) <= Elems(r) <= Elems(s) + Elems(xs)
    decreases |xs|
  {
    if |xs| == 0 then s
    else
      var (t, _) := Insert(s, key, xs[0]);
      KeysCons(xs, key);
      ElemsCons(xs[0], xs[1..]);
      assert [xs[0]] + xs[1..] == xs;
      InsertAll(t, key, xs[1..])
  }

  /** Inserting one element after the other keeps, for every key, the
      element already stored or else the first one offered. */
  lemma {:induction false} InsertAllFirstWins<T>(s: seq<T>, key: T -> seq<byte>, xs: seq<T>, k: seq<byte>)
    requires Sorted(s, key)
    ensures Get(InsertAll(s, key, xs), key, k) ==
            if k in Keys(s, key) then Get(s, key, k) else FirstWith(xs, key, k)
    decreases |xs|
  {
    if |xs| > 0 {
      var (t, added) := Insert(s, key, xs[0]);
      GetInsert(s, key, xs[0], k);
      InsertAllFirstWins(t, key, xs[1..], k);
      assert k in Keys(t, key) <==> k in Keys(s, key) || k == key(xs[0]);
    }
  }

  lemma {:induction false} InsertAllAscending<T>(s: seq<T>, key: T -> seq<byte>, xs: seq<T>)
    requires Sorted(s + xs, key)
    ensures Sorted(s, key)
    ensures InsertAll(s, key, xs) == s + xs
    decreases |xs|
  {
    assert Sorted(s, key) by {
      forall i, j | 0 <= i < j < |s| ensures Lex.Less(key(s[i]), key(s[j])) {
        assert (s + xs)[i] == s[i] && (s + xs)[j] == s[j];
      }
    }
    if |xs| > 0 {
      var s' := s + [xs[0]];
      assert s' + xs[1..] == s + xs;
      assert s' == (s + xs)[..|s| + 1];
      assert Sorted(s', key) by {
        forall i, j | 0 <= i < j < |s'| ensures Lex.Less(key(s'[i]), key(s'[j])) {
          assert s'[i] == (s + xs)[i] && s'[j] == (s + xs)[j];
        }
      }
      InsertLast(s, key, xs[0]);
      InsertAllAscending(s', key, xs[1..]);
    }
  }

  /** The elements whose key satisfies `keep`, in order. */
  function Filter<T(==)>(s: seq<T>, key: T -> seq<byte>, keep: seq<byte> -> bool): (r: seq<T>)
    requires Sorted(s, key)
    ensures Sorted(r, key)
    ensures Elems(r) == set e | e in Elems(s) && keep(key(e))
    ensures Keys(r, key) <= Keys(s, key)
    decreases |s|
  {
    if |s| == 0 then []
    else
      SortedTail(s, key);
      var t := Filter(s[1..], key, keep);
      ElemsCons(s[0], s[1..]);
      assert [s[0]] + s[1..] == s;
      KeysCons(s, key);
      if keep(key(s[0])) then
        AboveFromKeys(key(s[0]), s[1..], t, key);
        SortedCons(s[0], t, key);
        ElemsCons(s[0], t);
        KeysOfCons(s[0], t, key);
        [s[0]] + t
      else t
  }

  /** `contains`. */
  function Contains<T(==)>(s: seq<T>, key: T -> seq<byte>, k: seq<byte>): (r: bool)
    ensures r <==> k in Keys(s, key)
  {
    Get(s, key, k).Some?
  }

  /** `take`: removes the element stored under `k` and returns it. */
  function Take<T(==)>(s: seq<T>, key: T -> seq<byte>, k: seq<byte>): (r: (seq<T>, Option<T>))
    requires Sorted(s, key)
    ensures Sorted(r.0, key)
    ensures r.1 == Get(s, key, k)
    ensures Keys(r.0, key) == Keys(s, key) - {k}
    ensures r.1.Some? ==> Elems(r.0) == Elems(s) - {r.1.value}
    ensures r.1.None? ==> r.0 == s
  {
    var r := Filter(s, key, j => j != k);
    var found := Get(s, key, k);
    FilterKeys(s, key, k);
    if found.None? then
      FilterNone(s, key, k);
      (s, found)
    else
      SortedKeyUnique(s, key, found.value);
      (r, found)
  }

  lemma FilterKeys<T>(s: seq<T>, key: T -> seq<byte>, k: seq<byte>)
    requires Sorted(s, key)
    ensures Keys(Filter(s, key, j => j != k), key) == Keys(s, key) - {k}
  {
    var r := Filter(s, key, j => j != k);
    forall e | e in Keys(s, key) - {k} ensures e in Keys(r, key) {
      var i :| 0 <= i < |s| && key(s[i]) == e;
      assert s[i] in Elems(s);
      assert s[i] in Elems(r);
      var m :| 0 <= m < |r| && r[m] == s[i];
    }
    forall e | e in Keys(r, key) ensures e != k {
      var i :| 0 <= i < |r| && key(r[i]) == e;
      assert r[i] in Elems(r);
    }
  }

  lemma FilterNone<T>(s: seq<T>, key: T -> seq<byte>, k: seq<byte>)
    requires Sorted(s, key) && k !in Keys(s, key)
    ensures Filter(s, key, j => j != k) == s
    decreases |s|
  {
    if |s| > 0 {
      SortedTail(s, key);
      KeysCons(s, key);
      FilterNone(s[1..], key, k);
      assert [s[0]] + s[1..] == s;
    }
  }

  /** In a sorted set one key names one element. */
  lemma SortedKeyUnique<T>(s: seq<T>, key: T -> seq<byte>, x: T)
    requires Sorted(s, key) && x in Elems(s)
    ensures forall e | e in Elems(s) && key(e) == key(x) :: e == x
  {
    forall e | e in Elems(s) && key(e) == key(x) ensures e == x {
      var i :| 0 <= i < |s| && s[i] == e;
      var j :| 0 <= j < |s| && s[j] == x;
      if i < j {
        Lex.Irreflexive(key(x));
      } else if j < i {
        Lex.Irreflexive(key(x));
      }
    }
  }

  /** `remove`: whether an element was stored under `k`. */
  function Remove<T(==)>(s: seq<T>, key: T -> seq<byte>, k: seq<byte>): (r: (seq<T>, bool))
    requires Sorted(s, key)
    ensures Sorted(r.0, key)
    ensures r.1 <==> k in Keys(s, key)
    ensures Keys(r.0, key) == Keys(s, key) - {k}
  {
    var (t, prev) := Take(s, key, k);
    (t, prev.Some?)
  }

  /** `replace`: stores `x`, returning the element it displaces. */
  function Replace<T(==)>(s: seq<T>, key: T -> seq<byte>, x: T): (r: (seq<T>, Option<T>))
    requires Sorted(s, key)
    ensures Sorted(r.0, key)
    ensures r.1 == Get(s, key, key(x))
    ensures x in Elems(r.0)
    ensures Keys(r.0, key) == Keys(s, key) + {key(x)}
    ensures r.1.Some? ==> Elems(r.0) == Elems(s) - {r.1.value} + {x}
    ensures r.1.None? ==> Elems(r.0) == Elems(s) + {x}
  {
    var (t, prev) := Take(s, key, key(x));
    var (u, added) := Insert(t, key, x);
    (u, prev)
  }

  /** Storing an element whose key is above all the others appends it. */
  lemma ReplaceLast<T>(s: seq<T>, key: T -> seq<byte>, x: T)
    requires Sorted(s + [x], key)
    ensures Sorted(s, key)
    ensures Replace(s, key, x) == (s + [x], None)
  {
    InsertLast(s, key, x);
  }

  /** After `replace`, the key of the new element finds it and every other
      key finds what it found before. */
  lemma GetReplace<T>(s: seq<T>, key: T -> seq<byte>, x: T, k: seq<byte>)
    requires Sorted(s, key)
    ensures Get(Replace(s, key, x).0, key, k) == if k == key(x) then Some(x) else Get(s, key, k)
  {
    var (t, prev) := Replace(s, key, x);
    var g := Get(t, key, k);
    if k == key(x) {
      SortedKeyUnique(t, key, x);
    } else if g.Some? {
      var w := Get(s, key, k);
      assert w.Some?;
      assert w.value in Elems(t) by {
        if prev.Some? {
          assert key(prev.value) == key(x);
        }
      }
      SortedKeyUnique(t, key, g.value);
    }
  }

  /** `union`: the receiver's elements, then the other's under new keys. */
  function Union<T(==)>(a: seq<T>, b: seq<T>, key: T -> seq<byte>): (r: seq<T>)
    requires Sorted(a, key) && Sorted(b, key)
    ensures Sorted(r, key)
    ensures Keys(r, key) == Keys(a, key) + Keys(b, key)
    ensures Elems(r) == Elems(a) + Unclaimed(b, a, key)
  {
    var r := InsertAll(a, key, b);
    UnionElems(a, b, key);
    r
  }

  /** The elements of `xs` whose key `s` does not hold. */
  function Unclaimed<T(==)>(xs: seq<T>, s: seq<T>, key: T -> seq<byte>): set<T> {
    set e | e in Elems(xs) && key(e) !in Keys(s, key)
  }

  lemma {:induction false} UnionElems<T>(a: seq<T>, b: seq<T>, key: T -> seq<byte>)
    requires Sorted(a, key) && Sorted(b, key)
    ensures Elems(InsertAll(a, key, b)) == Elems(a) + Unclaimed(b, a, key)
    decreases |b|
  {
    if |b| == 0 {
      assert Elems(b) == {};
    } else {
      var t := Insert(a, key, b[0]).0;
      assert InsertAll(a, key, b) == InsertAll(t, key, b[1..]);
      SortedTail(b, key);
      UnionElems(t, b[1..], key);
      assert Unclaimed(b[1..], t, key) == Unclaimed(b[1..], a, key) by {
        forall i | 0 <= i < |b[1..]| ensures key(b[1..][i]) != key(b[0]) {
          Lex.Irreflexive(key(b[0]));
        }
      }
      var head: set<T> := if key(b[0]) in Keys(a, key) then {} else {b[0]};
      assert Elems(t) == Elems(a) + head;
      UnclaimedCons(a, b, key);
    }
  }

  lemma UnclaimedCons<T>(a: seq<T>, b: seq<T>, key: T -> seq<byte>)
    requires |b| >= 1
    ensures Unclaimed(b, a, key) ==
            (if key(b[0]) in Keys(a, key) then {} else {b[0]}) + Unclaimed(b[1..], a, key)
  {
    ElemsCons(b[0], b[1..]);
    assert [b[0]] + b[1..] == b;
  }

  /** `intersection`: the receiver's elements whose key the other holds. */
  function Intersection<T(==)>(a: seq<T>, b: seq<T>, key: T -> seq<byte>): (r: seq<T>)
    requires Sorted(a, key)
    ensures Sorted(r, key)
    ensures Elems(r) == set e | e in Elems(a) && key(e) in Keys(b, key)
  {
    Filter(a, key, k => k in Keys(b, key))
  }

  /** `difference`: the receiver's elements whose key the other lacks. */
  function Difference<T(==)>(a: seq<T>, b: seq<T>, key: T -> seq<byte>): (r: seq<T>)
    requires Sorted(a, key)
    ensures Sorted(r, key)
    ensures Elems(r) == Unclaimed(a, b, key)
  {
    Filter(a, key, k => k !in Keys(b, key))
  }

  /** `symmetric_difference`: the elements of either side whose key the
      other side lacks. */
  function SymmetricDifference<T(==)>(a: seq<T>, b: seq<T>, key: T -> seq<byte>): (r: seq<T>)
    requires Sorted(a, key) && Sorted(b, key)
    ensures Sorted(r, key)
    ensures Elems(r) == Unclaimed(a, b, key) + Unclaimed(b, a, key)
  {
    var left := Difference(a, b, key);
    var right := Difference(b, a, key);
    var r := Union(left, right, key);
    r
  }

  /** `is_subset`. */
  function IsSubset<T>(a: seq<T>, b: seq<T>, key: T -> seq<byte>): (r: bool)
    ensures r <==> Keys(a, key) <= Keys(b, key)
  {
    forall i | 0 <= i < |a| :: key(a[i]) in Keys(b, key)
  }

  /** `is_disjoint`. */
  function IsDisjoint<T>(a: seq<T>, b: seq<T>, key: T -> seq<byte>): (r: bool)
    ensures r <==> Keys(a, key) !! Keys(b, key)
  {
    forall i | 0 <= i < |a| :: key(a[i]) !in Keys(b, key)
  }

  /** `len`: a sorted set holds one element per key. */
  lemma {:induction false} LenIsKeyCount<T>(s: seq<T>, key: T -> seq<byte>)
    requires Sorted(s, key)
    ensures |Keys(s, key)| == |s|
    decreases |s|
  {
    if |s| > 0 {
      SortedTail(s, key);
      KeysCons(s, key);
      NotInAbove(key(s[0]), s[1..], key);
      LenIsKeyCount(s[1..], key);
    }
  }
}
