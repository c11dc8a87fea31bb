/** Bytes, byte-string literals and the character classes the parsers use.
    Every text in the model (paths, names, ref files) is the byte string of
    its UTF-8 encoding. */
module Bytes {

  type byte = x: int | 0 <= x < 256

  /** The byte string of an ASCII literal. */
  function Lit(s: string): (r: seq<byte>)
    ensures |r| == |s|
  {
    seq(|s|, i requires 0 <= i < |s| => (s[i] as int) % 256)
  }

  const NUL: byte := 0
  const TAB: byte := 9
  const LF: byte := 10
  const CR: byte := 13
  const SPACE: byte := 32
  const SLASH: byte := 47

  predicate IsDigit(b: byte) { 48 <= b <= 57 }

  predicate IsHexDigit(b: byte) {
    IsDigit(b) || 97 <= b <= 102 || 65 <= b <= 70
  }

  predicate IsAlpha(b: byte) { 97 <= b <= 122 || 65 <= b <= 90 }

  predicate IsAlphanumeric(b: byte) { IsAlpha(b) || IsDigit(b) }

  /** ASCII white space as Rust's `char::is_whitespace` sees it. */
  predicate IsWhitespace(b: byte) { 9 <= b <= 13 || b == 32 }

  predicate NoByte(s: seq<byte>, b: byte) {
    forall i | 0 <= i < |s| :: s[i] != b
  }

  predicate AllDigits(s: seq<byte>) {
    forall i | 0 <= i < |s| :: IsDigit(s[i])
  }

  /** True when `p` occurs in `s` starting at index `i`. */
  predicate OccursAt(s: seq<byte>, p: seq<byte>, i: nat) {
    i + |p| <= |s| && s[i..i + |p|] == p
  }

  /** True when `p` occurs nowhere inside `s`. */
  predicate Avoids(s: seq<byte>, p: seq<byte>) {
    forall i: nat | i + |p| <= |s| :: !OccursAt(s, p, i)
  }

  /** Concatenation of a sequence of byte strings. */
  function Flatten(ss: seq<seq<byte>>): (r: seq<byte>)
  {
    if |ss| == 0 then [] else ss[0] + Flatten(ss[1..])
  }

  lemma {:induction false} FlattenAppend(a: seq<seq<byte>>, b: seq<seq<byte>>)
    ensures Flatten(a + b) == Flatten(a) + Flatten(b)
    decreases |a|
  {
    if |a| == 0 {
      assert a + b == b;
    } else {
      assert (a + b)[1..] == a[1..] + b;
      FlattenAppend(a[1..], b);
    }
  }

  /** A suffix of the pieces starts with its first piece. */
  lemma FlattenFrom(ss: seq<seq<byte>>, k: nat)
    requires k < |ss|
    ensures Flatten(ss[k..]) == ss[k] + Flatten(ss[k + 1..])
  {
    assert ss[k..][1..] == ss[k + 1..];
  }

  lemma FlattenSnoc(a: seq<seq<byte>>, x: seq<byte>)
    ensures Flatten(a + [x]) == Flatten(a) + x
  {
    FlattenAppend(a, [x]);
    assert Flatten([x]) == x + Flatten([]);
  }

  /** Concatenation is associative, stated over plain variables. */
  lemma Assoc(x: seq<byte>, y: seq<byte>, z: seq<byte>)
    ensures x + (y + z) == x + y + z
  {
  }

  /** A prefix of the first piece is a prefix of the whole. */
  lemma PrefixOf(x: seq<byte>, y: seq<byte>, k: nat)
    requires k <= |x|
    ensures (x + y)[..k] == x[..k]
  {
  }

  /** Regrouping the last three pieces of a concatenation, stated over
      plain variables so that long literal prefixes stay folded. */
  lemma Regroup3(x: seq<byte>, y: seq<byte>, z: seq<byte>, w: seq<byte>)
    ensures x + y + z + w == x + (y + z + w) == x + (y + (z + w))
  {
  }

  /** Moving a suffix inside a right-nested concatenation. */
  lemma Regroup4(x: seq<byte>, y: seq<byte>, z: seq<byte>, w: seq<byte>, v: seq<byte>)
    ensures x + y + z + w + v == x + (y + (z + (w + v)))
  {
  }

  lemma Regroup5(r: seq<byte>, h: seq<byte>, a: seq<byte>, c: seq<byte>, after: seq<byte>)
    ensures r + (h + (a + c)) + after == r + (h + (a + (c + after)))
  {
  }
}
