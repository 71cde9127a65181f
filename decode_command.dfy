/** Unpacking the stored bytes into the encoded bits (DecodeCommand.execute, the byte loop and filler removal). */
module DecodeCommand {
  import opened Base
  import opened JavaLib
  import opened EncodeCommand

  /** The n-digit binary rendering of v, most significant digit first (v below 2^n). */
  function FixedBinary(v: nat, n: nat): (s: string)
    ensures |s| == n && AllDigits(s, 2)
  {
    if n == 0 then ""
    else FixedBinary(v / 2, n - 1) + [Bit(v % 2)]
  }

  /** The character of one binary digit. */
  function Bit(d: int): (ch: char)
    requires 0 <= d < 2
    ensures DigitOf(ch) == d
  {
    if d == 0 then '0' else '1'
  }

  /** Below 2^n, the n-digit rendering reads back as the value. */
  lemma {:induction false} FixedBinaryValue(v: nat, n: nat)
    requires v < Pow2(n)
    ensures DigitsValue(FixedBinary(v, n), 2) == v
  {
    if n > 0 {
      var init := FixedBinary(v / 2, n - 1);
      Halve(v, Pow2(n - 1));
      FixedBinaryValue(v / 2, n - 1);
      SnocDigit(init, v % 2);
    }
  }

  /** The eight-digit, zero-padded rendering that DecodeCommandTest expects of stringifyEncodedText. */
  function Render8(b: Int8): (s: string)
    ensures |s| == 8 && IsBits(s)
    ensures AllDigits(s, 2) && DigitsValue(s, 2) == b % 256
  {
    assert Pow2(8) == 256;
    BitsOfDigits(FixedBinary(b % 256, 8));
    FixedBinaryValue(b % 256, 8);
    FixedBinary(b % 256, 8)
  }

  /** Rendering and then reading back eight bits gives the byte again. */
  lemma Render8Parse(b: Int8)
    ensures ParseInt(Render8(b), 2).Some? && ToByte(ParseInt(Render8(b), 2).value) == b
  {
    var g := Render8(b);
    ParseGroup(g);
    var v := DigitsValue(g, 2);
    assert v == b % 256;
    SmallMod(v);
    assert ToByte(v) % 256 == b % 256;
    ByteUnique(ToByte(v), b);
  }

  lemma SmallMod(v: int)
    requires 0 <= v < 256
    ensures v % 256 == v
  {
  }

  /** Two bytes with the same low eight bits are the same byte. */
  lemma ByteUnique(x: Int8, y: Int8)
    requires x % 256 == y % 256
    ensures x == y
  {
  }

  /** Eight bits read as a byte and rendered again are the same eight bits. */
  lemma {:induction false} FixedBinaryDigits(g: string)
    requires AllDigits(g, 2)
    ensures FixedBinary(DigitsValue(g, 2), |g|) == g
  {
    if g != [] {
      var init, d := g[..|g| - 1], DigitOf(g[|g| - 1]);
      LastDigit(g);
      FixedBinaryDigits(init);
      SnocDigit(init, d);
      FixedBinarySnoc(DigitsValue(init, 2), d, |init|);
    }
  }

  lemma Halve(v: nat, p: nat)
    ensures v == (v / 2) * 2 + v % 2 && 0 <= v % 2 < 2
    ensures v < 2 * p ==> v / 2 < p
  {
  }

  /** A binary string is its first digits followed by its last one. */
  lemma LastDigit(g: string)
    requires AllDigits(g, 2) && g != []
    ensures AllDigits(g[..|g| - 1], 2) && 0 <= DigitOf(g[|g| - 1]) < 2
    ensures g == g[..|g| - 1] + [Bit(DigitOf(g[|g| - 1]))]
  {
  }

  /** Reading one more binary digit doubles the value and adds the digit. */
  lemma SnocDigit(init: string, d: int)
    requires AllDigits(init, 2) && 0 <= d < 2
    ensures AllDigits(init + [Bit(d)], 2)
    ensures DigitsValue(init + [Bit(d)], 2) == DigitsValue(init, 2) * 2 + d
  {
    var g := init + [Bit(d)];
    assert g[..|g| - 1] == init;
  }

  /** Rendering one more digit appends the low bit. */
  lemma FixedBinarySnoc(high: nat, d: int, n: nat)
    requires 0 <= d < 2
    ensures FixedBinary(high * 2 + d, n + 1) == FixedBinary(high, n) + [Bit(d)]
  {
    HalfDigit(high, d);
  }

  lemma HalfDigit(high: nat, d: int)
    requires 0 <= d < 2
    ensures (high * 2 + d) / 2 == high && (high * 2 + d) % 2 == d
  {
  }

  lemma RenderGroup(g: string)
    requires |g| == 8 && IsBits(g)
    ensures AllDigits(g, 2) && Render8(ToByte(DigitsValue(g, 2))) == g
  {
    ParseGroup(g);
    var v := DigitsValue(g, 2);
    assert ToByte(v) % 256 == v;
    FixedBinaryDigits(g);
  }

  /**
   * Integer.toBinaryString of the byte widened to an int, as the decode loop
   * renders each byte: the minimal binary digits of a non-negative byte, the
   * 32-bit two's complement of a negative one.
   */
  function ToBinaryString(b: Int8): (s: string)
    ensures AllDigits(s, 2) && IsBits(s)
    ensures b >= 0 ==> DigitsValue(s, 2) == b && 1 <= |s| <= 7
    ensures b >= 0 && |s| > 1 ==> s[0] == '1'
    ensures b < 0 ==> |s| == 32 && DigitsValue(s, 2) == b + Pow2(32)
  {
    if b >= 0 then
      var s := Digits(b, 2);
      MinimalBinaryLength(s);
      BitsOfDigits(s);
      s
    else
      BitsOfDigits(FixedBinary(b + Pow2(32), 32));
      FixedBinaryValue(b + Pow2(32), 32);
      FixedBinary(b + Pow2(32), 32)
  }

  lemma BitsOfDigits(s: string)
    requires AllDigits(s, 2)
    ensures IsBits(s)
  {
    forall i | 0 <= i < |s|
      ensures s[i] == '0' || s[i] == '1'
    {
      assert 0 <= DigitOf(s[i]) < 2;
    }
  }

  /** Minimal binary digits of a value below 128 are at most seven. */
  lemma MinimalBinaryLength(s: string)
    requires AllDigits(s, 2) && |s| >= 1 && (|s| > 1 ==> s[0] != '0') && DigitsValue(s, 2) < 128
    ensures |s| <= 7
  {
    if |s| > 1 {
      LeadingOneValue(s);
      Pow2AtLeast128(|s| - 1);
    }
  }

  lemma {:induction false} LeadingOneValue(s: string)
    requires AllDigits(s, 2) && |s| >= 1 && s[0] != '0'
    ensures DigitsValue(s, 2) >= Pow2(|s| - 1)
  {
    if |s| > 1 {
      var init := s[..|s| - 1];
      assert init[0] == s[0];
      LeadingOneValue(init);
    }
  }

  lemma {:induction false} Pow2AtLeast128(n: nat)
    ensures n >= 7 ==> Pow2(n) >= 128
  {
    if n > 7 {
      Pow2AtLeast128(n - 1);
    }
  }

  /** toBinaryString never renders a byte in exactly eight characters. */
  lemma ToBinaryStringNeverEight(b: Int8)
    ensures |ToBinaryString(b)| != 8
  {
  }

  /** The bytes rendered one after another. */
  function Concat(bytes: seq<Int8>, render: Int8 -> string): string
  {
    if bytes == [] then "" else render(bytes[0]) + Concat(bytes[1..], render)
  }

  lemma {:induction false} ConcatAppend(bytes: seq<Int8>, b: Int8, render: Int8 -> string)
    ensures Concat(bytes + [b], render) == Concat(bytes, render) + render(b)
  {
    if bytes == [] {
      assert [b][1..] == [];
    } else {
      assert (bytes + [b])[1..] == bytes[1..] + [b];
      ConcatAppend(bytes[1..], b, render);
    }
  }

  /**
   * Filler removal: cut the string at its last '1' (the sentinel); with no '1'
   * the delete from index -1 throws.
   */
  function RemoveFiller(s: string): (r: Result<string>)
    ensures r.Err? <==> '1' !in s
    ensures r.Err? ==> r.error == NoSentinelFound
    ensures r.Ok? ==> |r.value| < |s| && r.value == s[..|r.value|] && s[|r.value|] == '1'
    ensures r.Ok? ==> forall j :: |r.value| < j < |s| ==> s[j] != '1'
  {
    var k := LastIndexOf(s, '1');
    if k < 0 then Err(NoSentinelFound) else Ok(s[..k])
  }

  /** The bits recovered from the stored bytes, rendered eight bits each. */
  function Unpack(bytes: seq<Int8>): (r: Result<string>)
    ensures r.Err? ==> r.error == NoSentinelFound
    ensures r.Ok? ==> IsBits(r.value) && |r.value| < 8 * |bytes|
  {
    RenderedBits(bytes, Render8);
    Render8Length(bytes);
    RemoveFiller(Concat(bytes, Render8))
  }

  /** The same with toBinaryString as the per-byte rendering, as the decode loop is written. */
  function UnpackAsWritten(bytes: seq<Int8>): (r: Result<string>)
    ensures r.Err? ==> r.error == NoSentinelFound
    ensures r.Ok? ==> IsBits(r.value)
  {
    RenderedBits(bytes, ToBinaryString);
    RemoveFiller(Concat(bytes, ToBinaryString))
  }

  /** A rendering that gives bits for every byte gives bits for every byte sequence. */
  lemma {:induction false} RenderedBits(bytes: seq<Int8>, render: Int8 -> string)
    requires forall b :: IsBits(render(b))
    ensures IsBits(Concat(bytes, render))
  {
    if bytes != [] {
      RenderedBits(bytes[1..], render);
      var head, tail := render(bytes[0]), Concat(bytes[1..], render);
      forall i | 0 <= i < |head + tail|
        ensures (head + tail)[i] == '0' || (head + tail)[i] == '1'
      {
        if i >= |head| {
          assert (head + tail)[i] == tail[i - |head|];
        }
      }
    }
  }

  /** Eight characters per byte. */
  lemma {:induction false} Render8Length(bytes: seq<Int8>)
    ensures |Concat(bytes, Render8)| == 8 * |bytes|
  {
    if bytes != [] {
      Render8Length(bytes[1..]);
    }
  }

  /** The decode loop: render each byte into `bitSeq`, then delete from the last '1' to the end. */
  method UnpackBytes(encodedText: array<Int8>) returns (r: Result<string>)
    ensures r == Unpack(encodedText[..])
  {
    var bitSeq := "";
    for i := 0 to encodedText.Length
      invariant bitSeq == Concat(encodedText[..i], Render8)
    {
      ConcatAppend(encodedText[..i], encodedText[i], Render8);
      assert encodedText[..i + 1] == encodedText[..i] + [encodedText[i]];
      bitSeq := bitSeq + Render8(encodedText[i]);
    }
    assert encodedText[..] == encodedText[..encodedText.Length];
    var last := LastIndexOf(bitSeq, '1');
    if last < 0 {
      return Err(NoSentinelFound);
    }
    bitSeq := bitSeq[..last];
    return Ok(bitSeq);
  }

  /** Rendering the bytes of a padded binary string gives that string back. */
  lemma {:induction false} RenderPacked(p: string)
    requires |p| % 8 == 0 && IsBits(p)
    ensures ToBytes(p).Ok? && Concat(ToBytes(p).value, Render8) == p
    decreases |p|
  {
    if p != [] {
      var rest := p[8..];
      ParseGroup(p[..8]);
      RenderPacked(rest);
      var b0 := ToByte(DigitsValue(p[..8], 2));
      assert ToBytes(p) == Prepend([b0], ToBytes(rest));
      var bytes := ToBytes(p).value;
      assert bytes[0] == b0 && bytes[1..] == ToBytes(rest).value;
      RenderGroup(p[..8]);
      assert p == p[..8] + rest;
    }
  }

  /** Unpacking what padEncodedText packed gives back every bit string, the empty one included. */
  lemma PackUnpack(bits: string)
    requires IsBits(bits)
    ensures Pack(bits).Ok? && Unpack(Pack(bits).value) == Ok(bits)
  {
    RenderPacked(Pad(bits));
    PadSentinel(bits);
  }

  /** With no sentinel (no bytes, or only zero bytes) unpacking fails. */
  lemma ZeroBytesUnreadable(n: nat)
    ensures Unpack(seq(n, _ => 0)) == Err(NoSentinelFound)
  {
    ZeroBytesRender(n);
  }

  lemma {:induction false} ZeroBytesRender(n: nat)
    ensures '1' !in Concat(seq(n, _ => 0), Render8)
  {
    if n > 0 {
      var z: seq<Int8> := seq(n, _ => 0);
      assert z[1..] == seq(n - 1, _ => 0);
      ZeroBytesRender(n - 1);
      AllZeros8();
    }
  }

  lemma AllZeros8()
    ensures Render8(0) == "00000000"
  {
    AllZeros("00000000");
    RenderValue("00000000", 0);
  }

  /** A byte whose low eight bits are the group g renders as g. */
  lemma RenderValue(g: string, b: Int8)
    requires |g| == 8 && IsBits(g)
    requires AllDigits(g, 2) && DigitsValue(g, 2) == b % 256
    ensures Render8(b) == g
  {
    FixedBinaryDigits(g);
  }

  /** The stringifyEncodedText examples of the test suite, which the 8-bit rendering meets. */
  lemma RenderExamples()
    ensures Render8(0) == "00000000"
    ensures Render8(-128) == "10000000"
    ensures Render8(127) == "01111111"
  {
    AllZeros8();
    RenderMinExample();
    RenderMaxExample();
  }

  lemma RenderMinExample()
    ensures Render8(-128) == "10000000"
  {
    var g := "10000000";
    LeadingOne(g, 7);
    assert Pow2(7) == 128;
    RenderValue(g, -128);
  }

  lemma RenderMaxExample()
    ensures Render8(127) == "01111111"
  {
    var g := "01111111";
    assert AllDigits(g, 2);
    GroupValue(g);
    RenderValue(g, 127);
  }

  /** Filler removal cuts at the last '1'. */
  lemma CutAt(s: string, k: nat)
    requires k < |s| && s[k] == '1'
    requires forall j :: k < j < |s| ==> s[j] != '1'
    ensures RemoveFiller(s) == Ok(s[..k])
  {
  }

  /** The removeFiller examples of the test suite. */
  lemma RemoveFillerExamples()
    ensures RemoveFiller("11000000") == Ok("1")
    ensures RemoveFiller("01000000") == Ok("0")
    ensures RemoveFiller("1111111") == Ok("111111")
    ensures RemoveFiller("1111111110000000") == Ok("11111111")
  {
    CutAt("11000000", 1);
    assert "11000000"[..1] == "1";
    CutAt("01000000", 1);
    assert "01000000"[..1] == "0";
    CutAt("1111111", 6);
    assert "1111111"[..6] == "111111";
    CutAt("1111111110000000", 8);
    assert "1111111110000000"[..8] == "11111111";
  }

  /**
   * The loop as written loses bits: "0" packs to the byte 64, toBinaryString
   * renders it as "1000000", and filler removal leaves the empty string.
   */
  lemma AsWrittenLosesBits()
    ensures Pack("0") == Ok([64])
    ensures UnpackAsWritten([64]) == Ok("")
  {
    PackSingleZero();
    UnpackAsWrittenSixtyFour();
  }

  lemma PackSingleZero()
    ensures Pack("0") == Ok([64])
  {
    assert Pad("0") == "01000000";
    PositiveByteExample();
  }

  lemma UnpackAsWrittenSixtyFour()
    ensures UnpackAsWritten([64]) == Ok("")
  {
    BinaryOf64();
    var s := Concat([64], ToBinaryString);
    assert s == "1000000" by {
      assert [64 as Int8][1..] == [];
    }
    CutAt(s, 0);
    assert s[..0] == "";
  }

  /** Doubling a positive value appends a '0' to its minimal binary digits. */
  lemma DigitsDouble(n: nat)
    requires n >= 1
    ensures Digits(2 * n, 2) == Digits(n, 2) + "0"
  {
    assert (2 * n) / 2 == n && (2 * n) % 2 == 0;
  }

  lemma BinaryOf64()
    ensures ToBinaryString(64) == "1000000"
  {
    assert Digits(1, 2) == "1";
    DigitsDouble(1);
    DigitsDouble(2);
    DigitsDouble(4);
    DigitsDouble(8);
    DigitsDouble(16);
    DigitsDouble(32);
  }
}
