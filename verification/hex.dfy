/** Hexadecimal text as the rustc-serialize crate reads and writes it:
    `to_hex` writes two lower-case digits per byte; `from_hex` accepts
    either case, skips blanks (space, CR, LF, tab), reports the first
    byte that is neither, and rejects an odd number of digits. */
module Hex {
  import opened Bytes
  import opened Wrappers
  import Decimal

  /** The error's `Display` text. */
  function ErrorMessage(e: FromHexError): seq<byte> {
    match e
    case InvalidHexCharacter(c, index) =>
      Lit("Invalid character '") + [c] + Lit("' at position ") + Decimal.Render(index)
    case InvalidHexLength => Lit("Invalid input length")
  }

  /** A hexadecimal digit's value. */
  type nibble = n: nat | n < 16

  /** The rejected character is kept as the byte at `index`; the crate
      keeps the character decoded from that position, which is the same
      value for an ASCII byte. */
  datatype FromHexError = InvalidHexCharacter(c: byte, index: nat) | InvalidHexLength

  /** The blanks `from_hex` skips. */
  predicate IsHexBlank(b: byte) { b == SPACE || b == CR || b == LF || b == TAB }

  predicate IsLowerHexDigit(b: byte) { IsDigit(b) || 97 <= b <= 102 }

  predicate IsLowerHex(s: seq<byte>) {
    forall k | 0 <= k < |s| :: IsLowerHexDigit(s[k])
  }

  function NibbleOf(b: byte): nibble
    requires IsHexDigit(b)
  {
    if IsDigit(b) then b - 48 else if b >= 97 then b - 87 else b - 55
  }

  function HexChar(n: nibble): (b: byte)
    ensures IsLowerHexDigit(b) && NibbleOf(b) == n
  {
    if n < 10 then 48 + n else 87 + n
  }

  /** `to_hex`: two lower-case digits per byte, high nibble first. */
  function ToHex(bs: seq<byte>): (r: seq<byte>)
    ensures |r| == 2 * |bs|
    ensures IsLowerHex(r)
  {
    if |bs| == 0 then []
    else
      var last := bs[|bs| - 1];
      ToHex(bs[..|bs| - 1]) + [HexChar(last / 16), HexChar(last % 16)]
  }

  lemma ToHexAppend(a: seq<byte>, b: byte)
    ensures ToHex(a + [b]) == ToHex(a) + [HexChar(b / 16), HexChar(b % 16)]
  {
    assert (a + [b])[..|a|] == a;
  }

  /** Index of the first byte `from_hex` rejects. */
  function FirstBad(s: seq<byte>): (r: Option<nat>)
    ensures r.Some? ==> r.value < |s| && !IsHexDigit(s[r.value]) && !IsHexBlank(s[r.value])
    ensures r.Some? ==> forall k | 0 <= k < r.value :: IsHexDigit(s[k]) || IsHexBlank(s[k])
    ensures r.None? <==> forall k | 0 <= k < |s| :: IsHexDigit(s[k]) || IsHexBlank(s[k])
  {
    if |s| == 0 then None
    else match FirstBad(s[..|s| - 1])
      case Some(k) => Some(k)
      case None =>
        var b := s[|s| - 1];
        if IsHexDigit(b) || IsHexBlank(b) then None else Some(|s| - 1)
  }

  /** Values of the digits of `s`, blanks and rejected bytes dropped. */
  function Nibbles(s: seq<byte>): (r: seq<nibble>)
    ensures |r| <= |s|
  {
    if |s| == 0 then []
    else
      var b := s[|s| - 1];
      Nibbles(s[..|s| - 1]) + (if IsHexDigit(b) then [NibbleOf(b)] else [])
  }

  /** The byte whose high and low halves are `hi` and `lo`. */
  function Join(hi: nibble, lo: nibble): byte {
    (hi as int) * 16 + lo as int
  }

  /** Bytes from consecutive pairs of nibbles, high nibble first. */
  function Pairs(ns: seq<nibble>): (r: seq<byte>)
    requires |ns| % 2 == 0
    ensures 2 * |r| == |ns|
  {
    if |ns| == 0 then []
    else Pairs(ns[..|ns| - 2]) + [Join(ns[|ns| - 2], ns[|ns| - 1])]
  }

  /** `from_hex`: the first rejected byte wins over an odd length. */
  function FromHex(s: seq<byte>): (r: Result<seq<byte>, FromHexError>)
    ensures r.Ok? <==> FirstBad(s).None? && |Nibbles(s)| % 2 == 0
    ensures r.Err? && r.error.InvalidHexCharacter? ==>
      r.error.index < |s| && s[r.error.index] == r.error.c && !IsHexDigit(r.error.c) && !IsHexBlank(r.error.c)
    ensures r.Ok? ==> 2 * |r.value| == |Nibbles(s)|
  {
    match FirstBad(s)
    case Some(k) => Err(InvalidHexCharacter(s[k], k))
    case None =>
      var ns := Nibbles(s);
      if |ns| % 2 == 1 then Err(InvalidHexLength) else Ok(Pairs(ns))
  }

  /** Whether `from_hex`, run on bytes that were never checked to be
      UTF-8, panics: it finds the rejected character again by slicing the
      text at its index, and a slice that starts inside a multi-byte
      character (a byte 0x80-0xBF after the first) panics. The first
      index is always a character boundary. */
  predicate ReportPanics(s: seq<byte>) {
    var r := FromHex(s);
    r.Err? && r.error.InvalidHexCharacter? && r.error.index > 0 && 0x80 <= r.error.c <= 0xBF
  }

  /** The nibbles of `to_hex` text are the high and low halves of each byte. */
  function Halves(bs: seq<byte>): (r: seq<nibble>)
    ensures |r| == 2 * |bs|
  {
    if |bs| == 0 then []
    else
      var last := bs[|bs| - 1];
      Halves(bs[..|bs| - 1]) + [last / 16, last % 16]
  }

  lemma {:induction false} NibblesOfToHex(bs: seq<byte>)
    ensures FirstBad(ToHex(bs)).None?
    ensures Nibbles(ToHex(bs)) == Halves(bs)
    decreases |bs|
  {
    if |bs| > 0 {
      var init := bs[..|bs| - 1];
      var last := bs[|bs| - 1];
      NibblesOfToHex(init);
      var h := ToHex(init);
      var h1 := h + [HexChar(last / 16)];
      var h2 := h1 + [HexChar(last % 16)];
      assert ToHex(bs) == h2;
      DigitAppend(h, HexChar(last / 16));
      DigitAppend(h1, HexChar(last % 16));
    }
  }

  /** A digit appended to the text adds its value and rejects nothing. */
  lemma DigitAppend(s: seq<byte>, d: byte)
    requires IsHexDigit(d)
    ensures FirstBad(s + [d]) == FirstBad(s)
    ensures Nibbles(s + [d]) == Nibbles(s) + [NibbleOf(d)]
  {
    assert (s + [d])[..|s|] == s;
  }

  lemma {:induction false} PairsOfHalves(bs: seq<byte>)
    ensures Pairs(Halves(bs)) == bs
    decreases |bs|
  {
    if |bs| > 0 {
      var hs := Halves(bs);
      assert hs[..|hs| - 2] == Halves(bs[..|bs| - 1]);
      PairsOfHalves(bs[..|bs| - 1]);
    }
  }

  /** Reading back what `to_hex` wrote gives the original bytes. */
  lemma FromHexToHex(bs: seq<byte>)
    ensures FromHex(ToHex(bs)) == Ok(bs)
  {
    NibblesOfToHex(bs);
    PairsOfHalves(bs);
  }

  /** Lower-case hex text with nothing skipped is exactly `to_hex` of what
      it decodes to. */
  lemma ToHexFromHex(s: seq<byte>)
    requires IsLowerHex(s)
    requires FromHex(s).Ok?
    ensures ToHex(FromHex(s).value) == s
  {
    var bs := FromHex(s).value;
    NibblesOfToHex(bs);
    LowerHexNibbles(s);
    HalvesOfPairs(Nibbles(s));
    NibblesInjective(ToHex(bs), s);
  }

  lemma {:induction false} LowerHexNibbles(s: seq<byte>)
    requires IsLowerHex(s)
    ensures |Nibbles(s)| == |s|
    ensures forall k | 0 <= k < |s| :: Nibbles(s)[k] == NibbleOf(s[k])
    decreases |s|
  {
    if |s| > 0 {
      LowerHexNibbles(s[..|s| - 1]);
    }
  }

  lemma {:induction false} HalvesOfPairs(ns: seq<nibble>)
    requires |ns| % 2 == 0
    ensures Halves(Pairs(ns)) == ns
    decreases |ns|
  {
    if |ns| > 0 {
      var init := ns[..|ns| - 2];
      var ps := Pairs(ns);
      var hi, lo := ns[|ns| - 2], ns[|ns| - 1];
      var j := Join(hi, lo);
      assert ps[..|ps| - 1] == Pairs(init) && ps[|ps| - 1] == j;
      HalvesOfPairs(init);
      JoinSplit(hi, lo);
      assert Halves(ps) == init + [hi, lo];
      assert ns == init + [hi, lo];
    }
  }

  lemma JoinSplit(hi: nibble, lo: nibble)
    ensures Join(hi, lo) / 16 == hi && Join(hi, lo) % 16 == lo
  {
  }

  /** Two lower-case hex texts with the same digit values are equal. */
  lemma NibblesInjective(a: seq<byte>, b: seq<byte>)
    requires IsLowerHex(a) && IsLowerHex(b)
    requires Nibbles(a) == Nibbles(b)
    ensures a == b
  {
    LowerHexNibbles(a);
    LowerHexNibbles(b);
    forall k | 0 <= k < |a|
      ensures a[k] == b[k]
    {
      assert NibbleOf(a[k]) == NibbleOf(b[k]);
    }
  }

  lemma ShiftNibble(buf: nat)
    requires buf < 256
    ensures (buf * 16) % 256 == (buf % 16) * 16
  {
    var q := buf / 16;
    var r := buf % 16;
    assert buf * 16 == 256 * q + r * 16;
  }

  lemma PrefixStep(s: seq<byte>, idx: nat)
    requires idx < |s|
    ensures Nibbles(s[..idx + 1]) ==
      Nibbles(s[..idx]) + (if IsHexDigit(s[idx]) then [NibbleOf(s[idx])] else [])
    ensures FirstBad(s[..idx]).None? ==>
      FirstBad(s[..idx + 1]) == (if IsHexDigit(s[idx]) || IsHexBlank(s[idx]) then None else Some(idx))
  {
    assert s[..idx + 1][..idx] == s[..idx];
  }

  lemma PairsSnoc(ns: seq<nibble>, hi: nibble, lo: nibble)
    requires |ns| % 2 == 0
    ensures Pairs(ns + [hi, lo]) == Pairs(ns) + [Join(hi, lo)]
  {
    assert (ns + [hi, lo])[..|ns|] == ns;
  }

  /** The loop state after reading the digits `ns`: the parity, the low
      nibble of the buffer and the bytes emitted so far. */
  predicate LoopState(ns: seq<nibble>, modulus: nat, buf: byte, out: seq<byte>) {
    && modulus == |ns| % 2
    && (modulus == 1 ==> buf % 16 == ns[|ns| - 1])
    && out == Pairs(ns[..|ns| - modulus])
  }

  lemma DigitStep(ns: seq<nibble>, modulus: nat, buf: byte, out: seq<byte>, nibble: nibble)
    requires LoopState(ns, modulus, buf, out)
    ensures (buf * 16) % 256 + nibble < 256
    ensures modulus == 1 ==>
      LoopState(ns + [nibble], 0, (buf * 16) % 256 + nibble, out + [(buf * 16) % 256 + nibble])
    ensures modulus == 0 ==>
      LoopState(ns + [nibble], 1, (buf * 16) % 256 + nibble, out)
  {
    ShiftIn(buf, nibble);
    if modulus == 1 {
      OddStep(ns, buf, out, nibble);
    } else {
      EvenStep(ns, buf, out, nibble);
    }
  }

  /** Shifting a nibble into the buffer keeps the old low nibble as the
      high one. */
  lemma ShiftIn(buf: byte, nibble: nibble)
    ensures (buf * 16) % 256 + nibble == Join((buf % 16) as nibble, nibble)
    ensures ((buf * 16) % 256 + nibble) % 16 == nibble
  {
    ShiftNibble(buf);
  }

  lemma OddStep(ns: seq<nibble>, buf: byte, out: seq<byte>, nibble: nibble)
    requires LoopState(ns, 1, buf, out)
    requires (buf * 16) % 256 + nibble == Join(ns[|ns| - 1], nibble)
    ensures LoopState(ns + [nibble], 0, Join(ns[|ns| - 1], nibble), out + [Join(ns[|ns| - 1], nibble)])
  {
    var ns' := ns + [nibble];
    PairsSnoc(ns[..|ns| - 1], ns[|ns| - 1], nibble);
    assert ns[..|ns| - 1] + [ns[|ns| - 1], nibble] == ns';
    assert ns'[..|ns'| - 0] == ns';
  }

  lemma EvenStep(ns: seq<nibble>, buf: byte, out: seq<byte>, nibble: nibble)
    requires LoopState(ns, 0, buf, out)
    requires ((buf * 16) % 256 + nibble) % 16 == nibble
    ensures LoopState(ns + [nibble], 1, (buf * 16) % 256 + nibble, out)
  {
    var ns' := ns + [nibble];
    assert ns'[..|ns'| - 1] == ns;
    assert ns[..|ns| - 0] == ns;
  }

  lemma BlankStep(ns: seq<nibble>, modulus: nat, buf: byte, out: seq<byte>)
    requires LoopState(ns, modulus, buf, out)
    ensures LoopState(ns, modulus, ((buf * 16) % 256) / 16, out)
  {
    ShiftNibble(buf);
  }

  /** The loop's state after the first `idx` bytes: none rejected, and
      the buffer and output agree with the nibbles read. */
  predicate DecodeState(s: seq<byte>, idx: nat, ns: seq<nibble>, modulus: nat, buf: byte, out: seq<byte>) {
    idx <= |s| && FirstBad(s[..idx]).None? && ns == Nibbles(s[..idx]) && LoopState(ns, modulus, buf, out)
  }

  /** A digit read: one more nibble, shifted into the buffer, and one
      more byte out on every second digit. */
  lemma DigitAdvance(s: seq<byte>, idx: nat, ns: seq<nibble>, modulus: nat, buf: byte, out: seq<byte>,
                     buf': byte, modulus': nat, out': seq<byte>)
    requires idx < |s| && IsHexDigit(s[idx]) && DecodeState(s, idx, ns, modulus, buf, out)
    requires buf' == (buf * 16) % 256 + NibbleOf(s[idx])
    requires modulus' == 1 - modulus && out' == if modulus == 1 then out + [buf'] else out
    ensures DecodeState(s, idx + 1, ns + [NibbleOf(s[idx])], modulus', buf', out')
  {
    PrefixStep(s, idx);
    DigitStep(ns, modulus, buf, out, NibbleOf(s[idx]));
  }

  /** A blank read: no nibble, and the buffer shifted out and back. */
  lemma BlankAdvance(s: seq<byte>, idx: nat, ns: seq<nibble>, modulus: nat, buf: byte, out: seq<byte>, buf': byte)
    requires idx < |s| && IsHexBlank(s[idx]) && DecodeState(s, idx, ns, modulus, buf, out)
    requires buf' == ((buf * 16) % 256) / 16
    ensures DecodeState(s, idx + 1, ns, modulus, buf', out)
  {
    PrefixStep(s, idx);
    BlankStep(ns, modulus, buf, out);
  }

  /** One turn of the decoding loop: a digit shifts into the buffer (and
      completes a byte every second time), a blank shifts the buffer out
      and back, and any other byte stops the decoding. */
  method DecodeByte(s: seq<byte>, idx: nat, ghost ns: seq<nibble>, modulus: nat, buf: byte, out: seq<byte>)
    returns (ok: bool, ghost ns': seq<nibble>, modulus': nat, buf': byte, out': seq<byte>)
    requires idx < |s| && DecodeState(s, idx, ns, modulus, buf, out)
    ensures ok ==> DecodeState(s, idx + 1, ns', modulus', buf', out')
    ensures !ok ==> FromHex(s) == Err(InvalidHexCharacter(s[idx], idx))
  {
    var b := s[idx];
    if IsHexDigit(b) {
      var nibble := NibbleOf(b);
      DigitStep(ns, modulus, buf, out, nibble);
      buf' := (buf * 16) % 256 + nibble;
      if modulus == 1 {
        modulus' := 0;
        out' := out + [buf'];
      } else {
        modulus' := 1;
        out' := out;
      }
      ns' := ns + [nibble];
      DigitAdvance(s, idx, ns, modulus, buf, out, buf', modulus', out');
      return true, ns', modulus', buf', out';
    } else if IsHexBlank(b) {
      buf' := ((buf * 16) % 256) / 16;
      BlankAdvance(s, idx, ns, modulus, buf, out, buf');
      return true, ns, modulus, buf', out;
    } else {
      PrefixStep(s, idx);
      FirstBadExtends(s, idx + 1);
      return false, ns, modulus, buf, out;
    }
  }

  /** The decoding loop as `from_hex` writes it: an 8-bit buffer shifted
      left by four for every byte (and back for a blank) and a digit count
      modulo two; a byte is emitted every second digit. */
  method DecodeHex(s: seq<byte>) returns (r: Result<seq<byte>, FromHexError>)
    ensures r == FromHex(s)
  {
    var out: seq<byte> := [];
    var modulus := 0;
    var buf: byte := 0;
    var idx := 0;
    ghost var ns: seq<nibble> := [];
    while idx < |s|
      invariant DecodeState(s, idx, ns, modulus, buf, out)
    {
      var ok;
      ok, ns, modulus, buf, out := DecodeByte(s, idx, ns, modulus, buf, out);
      if !ok {
        return Err(InvalidHexCharacter(s[idx], idx));
      }
      idx := idx + 1;
    }
    assert s[..idx] == s;
    if modulus != 0 {
      return Err(InvalidHexLength);
    }
    assert ns[..|ns| - 0] == ns;
    return Ok(out);
  }

  /** A rejected byte stays the first rejected byte as the text grows. */
  lemma {:induction false} FirstBadExtends(s: seq<byte>, n: nat)
    requires n <= |s|
    requires FirstBad(s[..n]).Some?
    ensures FirstBad(s) == FirstBad(s[..n])
    decreases |s| - n
  {
    if n == |s| {
      assert s[..n] == s;
    } else {
      assert s[..n + 1][..n] == s[..n];
      FirstBadExtends(s, n + 1);
    }
  }
}
