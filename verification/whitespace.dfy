/** White space as Rust's `char::is_whitespace` knows it, the White_Space
    characters of Unicode, found at the end of UTF-8 text, and
    `str::trim_right`, which drops them. */
module Whitespace {
  import opened Bytes

  /** The last two bytes are U+0085 or U+00A0 in UTF-8. */
  predicate TwoByteSpace(s: seq<byte>)
    requires |s| >= 2
  {
    s[|s| - 2] == 0xC2 && (s[|s| - 1] == 0x85 || s[|s| - 1] == 0xA0)
  }

  /** The last three bytes are U+1680, U+2000 to U+200A, U+2028, U+2029,
      U+202F, U+205F or U+3000 in UTF-8. */
  predicate ThreeByteSpace(s: seq<byte>)
    requires |s| >= 3
  {
    var a, b, c := s[|s| - 3], s[|s| - 2], s[|s| - 1];
    (a == 0xE1 && b == 0x9A && c == 0x80)
    || (a == 0xE2 && b == 0x80 && (0x80 <= c <= 0x8A || c == 0xA8 || c == 0xA9 || c == 0xAF))
    || (a == 0xE2 && b == 0x81 && c == 0x9F)
    || (a == 0xE3 && b == 0x80 && c == 0x80)
  }

  /** The width of the white-space character `s` ends in, 0 when it ends
      in none: Unicode's White_Space characters, one byte for the ASCII
      ones, two or three for the others. */
  function SpaceWidth(s: seq<byte>): (n: nat)
    ensures n <= 3 && n <= |s|
    ensures n == 1 <==> |s| >= 1 && IsWhitespace(s[|s| - 1])
    ensures n == 2 <==> |s| >= 2 && TwoByteSpace(s)
    ensures n == 3 <==> |s| >= 3 && ThreeByteSpace(s) && !TwoByteSpace(s)
    ensures n > 1 ==> s[|s| - 1] >= 0x80
  {
    if |s| >= 1 && IsWhitespace(s[|s| - 1]) then 1
    else if |s| >= 2 && TwoByteSpace(s) then 2
    else if |s| >= 3 && ThreeByteSpace(s) then 3
    else 0
  }

  /** Only the character at the end counts: a text ending in the same
      white-space character has the same width. */
  lemma SpaceWidthTail(s: seq<byte>, t: seq<byte>)
    requires SpaceWidth(s) > 0 && SpaceWidth(s) <= |t|
    requires t[|t| - SpaceWidth(s)..] == s[|s| - SpaceWidth(s)..]
    ensures SpaceWidth(t) == SpaceWidth(s)
  {
    var n := SpaceWidth(s);
    assert t[|t| - 1] == s[|s| - 1] by {
      assert t[|t| - n..][n - 1] == s[|s| - n..][n - 1];
    }
    if n >= 2 {
      assert t[|t| - 2] == s[|s| - 2] by {
        assert t[|t| - n..][n - 2] == s[|s| - n..][n - 2];
      }
    }
    if n == 3 {
      assert t[|t| - 3] == s[|s| - 3] by {
        assert t[|t| - n..][0] == s[|s| - n..][0];
      }
    }
  }

  /** Behind an ASCII byte, the width is that of what follows it. */
  lemma SpaceWidthAfterAscii(a: seq<byte>, b: seq<byte>)
    requires |a| >= 1 && a[|a| - 1] < 0x80 && |b| >= 1
    ensures SpaceWidth(a + b) == SpaceWidth(b)
  {
    var s := a + b;
    assert s[|s| - 1] == b[|b| - 1];
    if |b| >= 2 {
      assert s[|s| - 2] == b[|b| - 2];
    } else {
      assert s[|s| - 2] == a[|a| - 1];
    }
    if |b| >= 3 {
      assert s[|s| - 3] == b[|b| - 3];
    }
  }

  /** A run of white-space characters. */
  predicate Spaces(t: seq<byte>)
    decreases |t|
  {
    |t| == 0 || (SpaceWidth(t) > 0 && Spaces(t[..|t| - SpaceWidth(t)]))
  }

  /** `str::trim_right`: every white-space character at the end dropped,
      and nothing else. */
  function TrimEnd(s: seq<byte>): (r: seq<byte>)
    ensures |r| <= |s| && r == s[..|r|]
    ensures SpaceWidth(r) == 0
    ensures Spaces(s[|r|..])
    decreases |s|
  {
    var n := SpaceWidth(s);
    if n == 0 then
      assert s[|s|..] == [];
      s
    else
      var r := TrimEnd(s[..|s| - n]);
      var t := s[|r|..];
      assert t[..|t| - n] == s[..|s| - n][|r|..];
      SpaceWidthTail(s, t);
      r
  }

  /** A no-break space is trimmed like an ASCII one: `x` followed by
      U+00A0 is `x`. */
  lemma TrimsNoBreakSpace()
    ensures TrimEnd([120, 0xC2, 0xA0]) == [120]
  {
    assert SpaceWidth([120, 0xC2, 0xA0]) == 2;
    assert [120, 0xC2, 0xA0][..1] == [120];
    assert SpaceWidth([120]) == 0;
  }

  /** Nothing is trimmed from a text that does not end in white space. */
  lemma TrimEndUnspaced(s: seq<byte>)
    requires SpaceWidth(s) == 0
    ensures TrimEnd(s) == s
  {
  }

  /** Behind a `/`, nothing is trimmed from a last segment that does not
      end in white space. */
  lemma TrimAfterSlash(a: seq<byte>, init: seq<byte>, b: seq<byte>)
    requires |a| >= 1 && a[|a| - 1] == SLASH && (|init| == 0 || init[|init| - 1] == SLASH)
    requires |b| >= 1 && SpaceWidth(b) == 0
    ensures TrimEnd(a + (init + b)) == a + (init + b)
  {
    var c := a + init;
    SlashEnd(a, init);
    Assoc(a, init, b);
    SpaceWidthAfterAscii(c, b);
    TrimEndUnspaced(c + b);
  }

  lemma SlashEnd(a: seq<byte>, init: seq<byte>)
    requires |a| >= 1 && a[|a| - 1] == SLASH && (|init| == 0 || init[|init| - 1] == SLASH)
    ensures |a + init| >= 1 && (a + init)[|a + init| - 1] == SLASH
  {
    if |init| == 0 {
      assert a + init == a;
    }
  }
}
