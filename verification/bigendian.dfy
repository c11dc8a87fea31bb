/** Unsigned integers stored most significant byte first. */
module BigEndian {
  import opened Bytes

  function Pow256(k: nat): (r: nat)
    ensures r >= 1
  {
    if k == 0 then 1 else 256 * Pow256(k - 1)
  }

  /** The value of `bs` read most significant byte first. */
  function Value(bs: seq<byte>): (n: nat)
    ensures n < Pow256(|bs|)
  {
    if |bs| == 0 then 0
    else
      var init := bs[..|bs| - 1];
      var v := Value(init);
      assert v * 256 + bs[|bs| - 1] <= (Pow256(|init|) - 1) * 256 + 255;
      v * 256 + bs[|bs| - 1]
  }

  /** `n` written in `w` bytes. */
  function Encode(n: nat, w: nat): (bs: seq<byte>)
    requires n < Pow256(w)
    ensures |bs| == w && Value(bs) == n
  {
    if w == 0 then []
    else
      var bs := Encode(n / 256, w - 1) + [n % 256];
      assert bs[..w - 1] == Encode(n / 256, w - 1);
      bs
  }

  /** Writing the value of `bs` in as many bytes gives `bs` back. */
  lemma {:induction false} EncodeValue(bs: seq<byte>)
    ensures Encode(Value(bs), |bs|) == bs
  {
    if |bs| > 0 {
      var init := bs[..|bs| - 1];
      EncodeValue(init);
      assert Value(bs) / 256 == Value(init);
      assert bs == init + [bs[|bs| - 1]];
    }
  }

  /** A wide number is its high bytes shifted over its low bytes. */
  lemma {:induction false} ValueAppend(a: seq<byte>, b: seq<byte>)
    ensures Value(a + b) == Value(a) * Pow256(|b|) + Value(b)
    decreases |b|
  {
    if |b| == 0 {
      assert a + b == a;
    } else {
      var ab := a + b;
      var binit := b[..|b| - 1];
      assert ab[..|ab| - 1] == a + binit;
      ValueAppend(a, binit);
      assert Value(ab) == Value(a + binit) * 256 + b[|b| - 1];
      assert Value(b) == Value(binit) * 256 + b[|b| - 1];
      assert Pow256(|b|) == 256 * Pow256(|binit|);
      Regroup(Value(a), Pow256(|binit|), Value(binit), b[|b| - 1]);
    }
  }

  lemma Regroup(x: nat, p: nat, y: nat, c: nat)
    ensures (x * p + y) * 256 + c == x * (256 * p) + (y * 256 + c)
  {
  }
}
