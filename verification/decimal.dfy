/** Decimal digits: the text Rust's `{}` formatting gives an integer and
    the value `str::parse` reads back from a run of digits. */
module Decimal {
  import opened Bytes

  /** Largest value of a 64-bit `usize`. */
  const USIZE_MAX: nat := 0xFFFF_FFFF_FFFF_FFFF
  /** Largest value of an `i64`. */
  const I64_MAX: nat := 0x7FFF_FFFF_FFFF_FFFF

  const MINUS: byte := 45
  const PLUS: byte := 43

  /** The value of a run of decimal digits (leading zeros allowed). */
  function Value(s: seq<byte>): nat
    requires AllDigits(s)
  {
    if |s| == 0 then 0 else Value(s[..|s| - 1]) * 10 + (s[|s| - 1] - 48)
  }

  /** `format!("{}", n)` for a non-negative integer. */
  function Render(n: nat): (r: seq<byte>)
    ensures |r| >= 1 && AllDigits(r)
    ensures Value(r) == n
    ensures n > 0 ==> r[0] != 48
    ensures n >= 10 ==> |r| >= 2
    ensures n >= 100 ==> |r| >= 3
    ensures n >= 1000 ==> |r| >= 4
  {
    if n < 10 then [48 + n]
    else
      var r := Render(n / 10) + [48 + n % 10];
      assert r[..|r| - 1] == Render(n / 10);
      r
  }

  /** `format!("{}", i)` for a signed integer. */
  function RenderInt(i: int): (r: seq<byte>)
    ensures |r| >= 1
    ensures i < 0 <==> r[0] == MINUS
    ensures i >= 0 ==> AllDigits(r)
  {
    if i < 0 then [MINUS] + Render(-i) else Render(i)
  }

  /** Rendering is injective: equal texts come from equal numbers. */
  lemma RenderInjective(m: nat, n: nat)
    requires Render(m) == Render(n)
    ensures m == n
  {
  }

  /** Value is a left inverse of Render, and Render of the value of a
      digit run without a leading zero gives the run back. */
  lemma {:induction false} RenderValue(s: seq<byte>)
    requires |s| >= 1 && AllDigits(s) && (s[0] != 48 || |s| == 1)
    ensures Render(Value(s)) == s
    decreases |s|
  {
    var init := s[..|s| - 1];
    if |s| == 1 {
    } else {
      assert init[0] == s[0];
      RenderValue(init);
      ValueLeadingNonZero(init);
      assert Value(s) / 10 == Value(init);
      assert Value(s) % 10 == s[|s| - 1] - 48;
    }
  }

  lemma {:induction false} ValueLeadingNonZero(s: seq<byte>)
    requires |s| >= 1 && AllDigits(s) && s[0] != 48
    ensures Value(s) >= 1
    decreases |s|
  {
    if |s| > 1 {
      var init := s[..|s| - 1];
      assert init[0] == s[0];
      ValueLeadingNonZero(init);
    }
  }

  /** A leading zero does not change the value. */
  lemma {:induction false} ValueLeadingZero(s: seq<byte>)
    requires AllDigits(s)
    ensures AllDigits([48] + s) && Value([48] + s) == Value(s)
    decreases |s|
  {
    if |s| > 0 {
      var z := [48] + s;
      assert z[..|z| - 1] == [48] + s[..|s| - 1];
      ValueLeadingZero(s[..|s| - 1]);
    }
  }
}
