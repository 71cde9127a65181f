/** Packing the encoded bits into bytes (EncodeCommand.padEncodedText). */
module EncodeCommand {
  import opened Base
  import opened JavaLib

  /**
   * The padded bit string: the encoded text, a '1' sentinel, then zeros up to
   * the next multiple of eight; when the sentinel already ends a byte a whole
   * zero byte follows.
   */
  function Pad(bits: string): (p: string)
    ensures |p| % 8 == 0 && |bits| < |p|
    ensures p[..|bits|] == bits && p[|bits|] == '1'
    ensures forall j :: |bits| < j < |p| ==> p[j] == '0'
    ensures 1 <= |p| - (|bits| + 1) <= 8
    ensures IsBits(bits) ==> IsBits(p)
  {
    var q := bits + "1";
    q + Zeros(8 - |q| % 8)
  }

  /**
   * The bytes of a padded string: each group of eight characters read by
   * Integer.parseInt(group, 2) and cast to a byte; a group parseInt rejects
   * throws NumberFormatException.
   */
  function ToBytes(p: string): (r: Result<seq<Int8>>)
    requires |p| % 8 == 0
    ensures r.Err? ==> r.error == NotBinary
    ensures r.Ok? ==> |r.value| == |p| / 8
    decreases |p|
  {
    if p == [] then Ok([])
    else
      match ParseInt(p[..8], 2)
      case None => Err(NotBinary)
      case Some(v) => Prepend([ToByte(v)], ToBytes(p[8..]))
  }

  /** What padEncodedText returns for `bits`. */
  function Pack(bits: string): (r: Result<seq<Int8>>)
    ensures r.Err? ==> r.error == NotBinary
    ensures IsBits(bits) ==> r.Ok? && |r.value| == (|bits| + 1) / 8 + 1
  {
    if IsBits(bits) then
      BinaryGroupsParse(Pad(bits), (|bits| + 1) / 8 + 1);
      ToBytes(Pad(bits))
    else ToBytes(Pad(bits))
  }

  /**
   * padEncodedText: append the sentinel and the zeros, then fill a byte array
   * by parsing and deleting eight characters at a time.
   */
  method PadEncodedText(encodedText: string) returns (r: Result<array<Int8>>)
    ensures r.Err? <==> Pack(encodedText).Err?
    ensures r.Err? ==> r.error == NotBinary
    ensures r.Ok? ==> fresh(r.value) && r.value[..] == Pack(encodedText).value
  {
    var paddedEncodedText := encodedText + "1";
    paddedEncodedText := paddedEncodedText + Zeros(8 - |paddedEncodedText| % 8);
    PadShape(encodedText, paddedEncodedText, |paddedEncodedText| / 8);
    r := FillBytes(paddedEncodedText, |paddedEncodedText| / 8);
  }

  /** The filling loop of padEncodedText: parse and delete eight characters at a time. */
  method FillBytes(padded: string, n: nat) returns (r: Result<array<Int8>>)
    requires |padded| == 8 * n
    ensures r.Err? <==> ToBytes(padded).Err?
    ensures r.Err? ==> r.error == NotBinary
    ensures r.Ok? ==> fresh(r.value) && r.value[..] == ToBytes(padded).value
  {
    var paddedEncodedText := padded;
    var encodedBytes := new Int8[n];
    ghost var whole := ToBytes(padded);
    assert encodedBytes[..0] == [];
    PrependEmpty(whole);
    for i := 0 to encodedBytes.Length
      invariant |paddedEncodedText| == 8 * (encodedBytes.Length - i)
      invariant |paddedEncodedText| % 8 == 0
      invariant whole == Prepend(encodedBytes[..i], ToBytes(paddedEncodedText))
    {
      var v := ParseInt(paddedEncodedText[..8], 2);
      PackStep(whole, encodedBytes[..i], paddedEncodedText, encodedBytes.Length - i);
      if v.None? {
        return Err(NotBinary);
      }
      encodedBytes[i] := ToByte(v.value);
      assert encodedBytes[..i + 1] == encodedBytes[..i] + [encodedBytes[i]];
      paddedEncodedText := paddedEncodedText[8..];
    }
    assert encodedBytes[..] + [] == encodedBytes[..];
    return Ok(encodedBytes);
  }

  /** The string the method builds is the padded string, eight characters per byte. */
  lemma PadShape(bits: string, padded: string, n: nat)
    requires padded == (bits + "1") + Zeros(8 - |bits + "1"| % 8) && n == |padded| / 8
    ensures |padded| == 8 * n && Pack(bits) == ToBytes(padded)
  {
    assert padded == Pad(bits);
  }

  /** One round of the packing loop: parse the next group and move its byte to the done part. */
  lemma PackStep(whole: Result<seq<Int8>>, done: seq<Int8>, rest: string, n: nat)
    requires |rest| == 8 * n && n >= 1
    requires whole == Prepend(done, ToBytes(rest))
    ensures ParseInt(rest[..8], 2).None? ==> whole.Err?
    ensures ParseInt(rest[..8], 2).Some? ==>
      whole == Prepend(done + [ToByte(ParseInt(rest[..8], 2).value)], ToBytes(rest[8..]))
  {
    NextGroup(rest, n);
    var v := ParseInt(rest[..8], 2);
    if v.Some? {
      PrependTwice(done, ToByte(v.value), ToBytes(rest[8..]));
    }
  }

  lemma NextGroup(rest: string, n: nat)
    requires |rest| == 8 * n && n >= 1
    ensures |rest[8..]| == 8 * (n - 1)
    ensures ParseInt(rest[..8], 2).None? ==> ToBytes(rest).Err?
    ensures ParseInt(rest[..8], 2).Some? ==> ToBytes(rest) == Prepend([ToByte(ParseInt(rest[..8], 2).value)], ToBytes(rest[8..]))
  {
  }

  /** A group of eight binary digits always parses, to its base-2 value. */
  lemma ParseGroup(g: string)
    requires |g| == 8 && IsBits(g)
    ensures AllDigits(g, 2)
    ensures ParseInt(g, 2) == Some(DigitsValue(g, 2))
    ensures DigitsValue(g, 2) < 256
  {
    assert AllDigits(g, 2) by {
      forall i | 0 <= i < |g|
        ensures 0 <= DigitOf(g[i]) < 2
      {
      }
    }
    DigitsValueBound(g);
    assert Pow2(8) == 256;
  }

  /** Characters [8i, 8i+8) of a padded string: the i-th group that becomes a byte. */
  function Group(p: string, i: nat): (g: string)
    requires 8 * i + 8 <= |p|
    ensures |g| == 8
  {
    p[8 * i..8 * i + 8]
  }

  /** Byte i of a padded binary string of n groups is the signed reading of its group i. */
  lemma {:induction false} BinaryGroupsParse(p: string, n: nat)
    requires |p| == 8 * n && IsBits(p)
    ensures ToBytes(p).Ok? && |ToBytes(p).value| == n
    ensures forall i :: 0 <= i < n ==>
              AllDigits(Group(p, i), 2) && ToBytes(p).value[i] == ToByte(DigitsValue(Group(p, i), 2))
    decreases n
  {
    if n > 0 {
      var rest := p[8..];
      ParseGroup(p[..8]);
      BinaryGroupsParse(rest, n - 1);
      var b0 := ToByte(DigitsValue(p[..8], 2));
      var bs := ToBytes(rest).value;
      assert ToBytes(p) == Ok([b0] + bs);
      ConsGroups(p, n, b0, bs);
    }
  }

  /** The groups of `p` are its first group followed by the groups of the rest. */
  lemma ConsGroups(p: string, n: nat, b0: Int8, bs: seq<Int8>)
    requires n >= 1 && |p| == 8 * n && |bs| == n - 1
    requires AllDigits(p[..8], 2) && b0 == ToByte(DigitsValue(p[..8], 2))
    requires forall i :: 0 <= i < n - 1 ==>
               AllDigits(Group(p[8..], i), 2) && bs[i] == ToByte(DigitsValue(Group(p[8..], i), 2))
    ensures forall i :: 0 <= i < n ==>
              AllDigits(Group(p, i), 2) && ([b0] + bs)[i] == ToByte(DigitsValue(Group(p, i), 2))
  {
    forall i | 0 <= i < n
      ensures AllDigits(Group(p, i), 2) && ([b0] + bs)[i] == ToByte(DigitsValue(Group(p, i), 2))
    {
      if i == 0 {
        assert Group(p, 0) == p[..8];
      } else {
        assert Group(p, i) == Group(p[8..], i - 1);
      }
    }
  }

  /** Byte i of padEncodedText(bits) is the signed base-2 value of padded bits [8i, 8i+8). */
  lemma PackedByte(bits: string, i: nat)
    requires IsBits(bits) && i < (|bits| + 1) / 8 + 1
    ensures Pack(bits).Ok? && 8 * i + 8 <= |Pad(bits)| && AllDigits(Group(Pad(bits), i), 2)
    ensures Pack(bits).value[i] == ToByte(DigitsValue(Group(Pad(bits), i), 2))
  {
    var n := (|bits| + 1) / 8 + 1;
    assert |Pad(bits)| == 8 * n;
    BinaryGroupsParse(Pad(bits), n);
  }

  /** The padding examples of the test suite that the code satisfies. */
  lemma PadExamples()
    ensures Pad("11110000") == "1111000010000000"
    ensures Pad("1111") == "11111000"
  {
  }

  /**
   * With a length of 7 modulo 8 the sentinel fills the byte and a whole zero
   * byte follows ("1111000" pads to "1111000100000000", not the "11110001" the
   * test suite expects).
   */
  lemma SevenBitsGetZeroByte(bits: string)
    requires |bits| % 8 == 7
    ensures |Pad(bits)| == |bits| + 9
    ensures Pad(bits)[|bits| + 1..] == Zeros(8)
  {
  }

  lemma SevenBitsExample()
    ensures Pad("1111000") == "1111000100000000"
  {
  }

  /** The sentinel is the last '1' of the padded string. */
  lemma PadSentinel(bits: string)
    ensures LastIndexOf(Pad(bits), '1') == |bits|
  {
  }

  /** A single group converts to the one byte it is worth. */
  lemma OneGroup(g: string)
    requires |g| == 8 && IsBits(g)
    ensures AllDigits(g, 2) && ToBytes(g) == Ok([ToByte(DigitsValue(g, 2))])
  {
    ParseGroup(g);
    assert g[..8] == g && g[8..] == [];
    assert [ToByte(DigitsValue(g, 2))] + [] == [ToByte(DigitsValue(g, 2))];
  }

  /** Two groups convert to the two bytes they are worth. */
  lemma TwoGroups(p: string)
    requires |p| == 16 && IsBits(p)
    ensures AllDigits(p[..8], 2) && AllDigits(p[8..], 2)
    ensures ToBytes(p) == Ok([ToByte(DigitsValue(p[..8], 2)), ToByte(DigitsValue(p[8..], 2))])
  {
    ParseGroup(p[..8]);
    OneGroup(p[8..]);
    var b0, b1 := ToByte(DigitsValue(p[..8], 2)), ToByte(DigitsValue(p[8..], 2));
    assert ToBytes(p) == Prepend([b0], ToBytes(p[8..]));
    assert [b0] + [b1] == [b0, b1];
  }

  lemma DigitsSnoc(s: string, c: char)
    requires AllDigits(s, 2) && (c == '0' || c == '1')
    ensures AllDigits(s + [c], 2) && DigitsValue(s + [c], 2) == 2 * DigitsValue(s, 2) + DigitOf(c)
  {
    assert (s + [c])[..|s|] == s;
  }

  /** The byte-conversion examples of the test suite. */
  lemma ZeroByteExample()
    ensures ToBytes("00000000") == Ok([0])
    ensures ToBytes("0000000000000000") == Ok([0, 0])
  {
    AllZeros("00000000");
    OneGroup("00000000");
    var p := "0000000000000000";
    assert p[..8] == "00000000" && p[8..] == "00000000";
    TwoGroups(p);
  }

  lemma NegativeByteExample()
    ensures ToBytes("10000000") == Ok([-128])
  {
    LeadingOne("10000000", 7);
    OneGroup("10000000");
    assert Pow2(7) == 128;
  }

  lemma PositiveByteExample()
    ensures ToBytes("01000000") == Ok([64])
  {
    LeadingOne("01000000", 6);
    OneGroup("01000000");
    assert Pow2(6) == 64;
  }

  lemma ZebraBytesExample()
    ensures ToBytes("1010101001010101") == Ok([-86, 85])
  {
    var p := "1010101001010101";
    ZebraHalves(p);
    TwoGroups(p);
    ZebraGroups();
  }

  lemma ZebraHalves(p: string)
    requires p == "1010101001010101"
    ensures p[..8] == "10101010" && p[8..] == "01010101"
  {
  }

  lemma ZebraGroups()
    ensures AllDigits("10101010", 2) && ToByte(DigitsValue("10101010", 2)) == -86
    ensures AllDigits("01010101", 2) && ToByte(DigitsValue("01010101", 2)) == 85
  {
    GroupValue("10101010");
    GroupValue("01010101");
  }

  /** The value of eight binary digits, digit by digit. */
  lemma GroupValue(g: string)
    requires |g| == 8 && AllDigits(g, 2)
    ensures DigitsValue(g, 2) == 128 * DigitOf(g[0]) + 64 * DigitOf(g[1]) + 32 * DigitOf(g[2]) + 16 * DigitOf(g[3])
                                + 8 * DigitOf(g[4]) + 4 * DigitOf(g[5]) + 2 * DigitOf(g[6]) + DigitOf(g[7])
  {
    assert g[..8] == g;
    forall k | 1 <= k <= 8
      ensures AllDigits(g[..k], 2) && DigitsValue(g[..k], 2) == 2 * DigitsValue(g[..k - 1], 2) + DigitOf(g[k - 1])
    {
      assert g[..k][..k - 1] == g[..k - 1];
    }
  }

  /** A one followed by k zeros (after any leading zeros) is worth 2^k. */
  lemma {:induction false} LeadingOne(s: string, k: nat)
    requires k < |s| && s[|s| - 1 - k] == '1'
    requires forall i :: 0 <= i < |s| && i != |s| - 1 - k ==> s[i] == '0'
    ensures AllDigits(s, 2) && DigitsValue(s, 2) == Pow2(k)
  {
    assert AllDigits(s, 2);
    var init := s[..|s| - 1];
    if k == 0 {
      assert AllDigits(init, 2) && DigitsValue(init, 2) == 0 by {
        AllZeros(init);
      }
    } else {
      LeadingOne(init, k - 1);
    }
  }

  lemma {:induction false} AllZeros(s: string)
    requires forall i :: 0 <= i < |s| ==> s[i] == '0'
    ensures AllDigits(s, 2) && DigitsValue(s, 2) == 0
  {
    if s != [] {
      AllZeros(s[..|s| - 1]);
    }
  }
}
