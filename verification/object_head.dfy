/** The `<keyword> <size>\0` header in front of a git object, as the tree
    and blob codecs of the protocol generation read and write it and as
    every generation feeds it to the hasher. */
module ObjectHead {
  import opened Bytes
  import opened Nom
  import Decimal

  /** `blob `, the keyword of a blob object with its space. */
  const BLOB: seq<byte> := [98, 108, 111, 98, 32]

  /** The header text for `kw` (the keyword with its trailing space). */
  function Render(kw: seq<byte>, n: nat): (r: seq<byte>)
    ensures |r| == |kw| + |Decimal.Render(n)| + 1
    ensures r[..|kw|] == kw && r[|r| - 1] == NUL
  {
    kw + Decimal.Render(n) + [NUL]
  }

  /** `chain!(tag!(kw) ~ size: usize ~ char!('\0'))`: a request for more
      input is counted from the start of the header. */
  function Parse(i: seq<byte>, kw: seq<byte>): (r: Parsed<nat>)
    ensures r.Done? ==> r.value <= Decimal.USIZE_MAX && |r.rest| < |i|
    ensures r.Done? ==> |i| >= |kw| + 2 && i[..|kw|] == kw
    ensures !r.Abort?
  {
    var (i1, _) :- Tag(i, kw);
    var (i2, n) :- Shift(Number(i1, Decimal.USIZE_MAX), |i| - |i1|);
    var (i3, _) :- Shift(Char(i2, NUL), |i| - |i2|);
    Done(i3, n)
  }

  /** A written header is read back, whatever follows it. */
  lemma ParseRender(kw: seq<byte>, n: nat, rest: seq<byte>)
    requires n <= Decimal.USIZE_MAX
    ensures Parse(Render(kw, n) + rest, kw) == Done(rest, n)
  {
    var digits := Decimal.Render(n);
    var b := Render(kw, n) + rest;
    var afterKw := digits + ([NUL] + rest);
    assert b == kw + afterKw;
    TagPrefix(kw, afterKw);
    NumberRender(n, Decimal.USIZE_MAX, [NUL] + rest);
    assert Shift(Number(afterKw, Decimal.USIZE_MAX), |b| - |afterKw|) == Done([NUL] + rest, n);
    assert Shift(Char([NUL] + rest, NUL), |b| - |rest| - 1) == Done(rest, NUL);
  }
}
