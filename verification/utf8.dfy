/** Well-formed UTF-8 byte strings, after the table of section 4 of
    RFC 3629: `str::from_utf8` fails exactly on the byte strings this
    predicate rejects, and `to_str` succeeds exactly on the ones it
    accepts. */
module Utf8 {
  import opened Bytes

  predicate Cont(b: byte) { 0x80 <= b <= 0xBF }

  /** The number of bytes of the well-formed character at the start of
      `s`, or 0 when `s` does not start with one. */
  function Lead(s: seq<byte>): (n: nat)
    ensures n <= 4 && n <= |s|
    ensures |s| > 0 && s[0] < 0x80 ==> n == 1
    ensures n > 0 ==> |s| > 0 && (n == 1 <==> s[0] < 0x80)
  {
    if |s| == 0 then 0
    else if s[0] < 0x80 then 1
    else if 0xC2 <= s[0] <= 0xDF then
      if |s| >= 2 && Cont(s[1]) then 2 else 0
    else if s[0] == 0xE0 then
      if |s| >= 3 && 0xA0 <= s[1] <= 0xBF && Cont(s[2]) then 3 else 0
    else if 0xE1 <= s[0] <= 0xEC || 0xEE <= s[0] <= 0xEF then
      if |s| >= 3 && Cont(s[1]) && Cont(s[2]) then 3 else 0
    else if s[0] == 0xED then
      if |s| >= 3 && 0x80 <= s[1] <= 0x9F && Cont(s[2]) then 3 else 0
    else if s[0] == 0xF0 then
      if |s| >= 4 && 0x90 <= s[1] <= 0xBF && Cont(s[2]) && Cont(s[3]) then 4 else 0
    else if 0xF1 <= s[0] <= 0xF3 then
      if |s| >= 4 && Cont(s[1]) && Cont(s[2]) && Cont(s[3]) then 4 else 0
    else if s[0] == 0xF4 then
      if |s| >= 4 && 0x80 <= s[1] <= 0x8F && Cont(s[2]) && Cont(s[3]) then 4 else 0
    else 0
  }

  /** `s` is a sequence of well-formed characters. */
  predicate Valid(s: seq<byte>)
    decreases |s|
  {
    |s| == 0 || (Lead(s) > 0 && Valid(s[Lead(s)..]))
  }

  /** A character read at the start of `s` is read the same way whatever
      follows it. */
  lemma LeadExtends(s: seq<byte>, t: seq<byte>)
    requires Lead(s) > 0
    ensures Lead(s + t) == Lead(s)
  {
    var n := Lead(s);
    assert (s + t)[..n] == s[..n];
    assert forall k | 0 <= k < n :: (s + t)[k] == s[k];
  }

  /** Joining two well-formed strings gives a well-formed string. */
  lemma {:induction false} ValidConcat(a: seq<byte>, b: seq<byte>)
    requires Valid(a) && Valid(b)
    ensures Valid(a + b)
    decreases |a|
  {
    if |a| == 0 {
      assert a + b == b;
    } else {
      var n := Lead(a);
      LeadExtends(a, b);
      assert (a + b)[n..] == a[n..] + b;
      ValidConcat(a[n..], b);
    }
  }

  /** Text made of ASCII bytes is well formed. */
  lemma {:induction false} AsciiValid(s: seq<byte>)
    requires forall k | 0 <= k < |s| :: s[k] < 0x80
    ensures Valid(s)
    decreases |s|
  {
    if |s| > 0 {
      AsciiValid(s[1..]);
    }
  }

  /** A prefix made of whole characters leaves a well-formed remainder. */
  lemma {:induction false} ValidSplit(a: seq<byte>, b: seq<byte>)
    requires Valid(a) && Valid(a + b)
    ensures Valid(b)
    decreases |a|
  {
    if |a| == 0 {
      assert a + b == b;
    } else {
      var n := Lead(a);
      LeadExtends(a, b);
      assert (a + b)[n..] == a[n..] + b;
      ValidSplit(a[n..], b);
    }
  }
}
