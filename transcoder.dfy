/** Encoding a text with a code table and decoding it back (encodeInput, decodeText). */
module Transcoder {
  import opened Base
  import opened CodeTable

  /** `encoding.get(c)` appended to a StringBuilder: a unit without a code appends "null". */
  function Lookup(table: map<int, string>, c: int): (code: string)
    ensures c in table ==> code == table[c]
  {
    if c in table then table[c] else "null"
  }

  /** Every unit of `text` has a code in `table`. */
  predicate Covers(table: map<int, string>, text: Text)
  {
    forall i :: 0 <= i < |text| ==> text[i] as int in table
  }

  /** The codes of the units of `text`, in order, concatenated. */
  function Encode(table: map<int, string>, text: Text): (bits: string)
    ensures Covers(table, text) && (forall k :: k in table ==> IsBits(table[k])) ==> IsBits(bits)
  {
    if text == [] then ""
    else Lookup(table, text[0]) + Encode(table, text[1..])
  }

  lemma {:induction false} EncodeAppend(table: map<int, string>, text: Text, c: CodeUnit)
    ensures Encode(table, text + [c]) == Encode(table, text) + Lookup(table, c)
  {
    if text == [] {
      assert [c][1..] == [];
    } else {
      assert (text + [c])[1..] == text[1..] + [c];
      EncodeAppend(table, text[1..], c);
    }
  }

  /** encodeInput: append the code of each unit of `input` in turn. */
  method EncodeInput(encoding: map<int, string>, input: Text) returns (encoded: string)
    ensures encoded == Encode(encoding, input)
  {
    encoded := "";
    for i := 0 to |input|
      invariant encoded == Encode(encoding, input[..i])
    {
      EncodeAppend(encoding, input[..i], input[i]);
      assert input[..i + 1] == input[..i] + [input[i]];
      encoded := encoded + Lookup(encoding, input[i]);
    }
    assert input[..|input|] == input;
  }

  /** No two symbols share a code. */
  predicate Injective(table: map<int, string>)
  {
    forall a, b :: a in table && b in table && a != b ==> table[a] != table[b]
  }

  /** The reverse map, code to symbol, of an injective table. */
  function Inverse(table: map<int, string>): (rev: map<string, int>)
    requires Injective(table)
    ensures rev.Keys == table.Values
    ensures forall k :: k in table ==> rev[table[k]] == k
  {
    map k | k in table :: table[k] := k
  }

  /** `toMap(getValue, getKey)`: the reverse map, or IllegalStateException when two symbols share a code. */
  function ReverseEncoding(table: map<int, string>): (r: Result<map<string, int>>)
    ensures r.Ok? <==> Injective(table)
    ensures r.Err? ==> r.error == DuplicateCode
    ensures r.Ok? ==> r.value.Keys == table.Values && forall k :: k in table ==> r.value[table[k]] == k
  {
    if Injective(table) then Ok(Inverse(table)) else Err(DuplicateCode)
  }

  /**
   * Collect the entries of `encoding` into a reverse map, one entry at a time in
   * an unspecified order, failing on the first code already present.
   */
  method BuildReverseEncoding(encoding: map<int, string>) returns (r: Result<map<string, int>>)
    ensures r == ReverseEncoding(encoding)
  {
    var rev: map<string, int> := map[];
    var remaining := encoding.Keys;
    while remaining != {}
      invariant remaining <= encoding.Keys
      invariant rev.Keys == set k | k in encoding.Keys - remaining :: encoding[k]
      invariant forall k :: k in encoding.Keys - remaining ==> rev[encoding[k]] == k
      decreases |remaining|
    {
      assert (forall x :: x !in remaining) ==> remaining == {};
      var k :| k in remaining;
      if encoding[k] in rev {
        var other := rev[encoding[k]];
        assert other in encoding && other != k && encoding[other] == encoding[k];
        return Err(DuplicateCode);
      }
      rev := rev[encoding[k] := k];
      remaining := remaining - {k};
    }
    assert Injective(encoding);
    forall v | v in encoding.Values
      ensures v in rev
    {
      assert (forall k :: k in encoding.Keys ==> encoding[k] != v) ==> v !in encoding.Values;
      var k :| k in encoding.Keys && encoding[k] == v;
      assert k in encoding.Keys - remaining;
    }
    assert encoding.Keys - remaining == encoding.Keys;
    var image := set k | k in encoding.Keys :: encoding[k];
    forall v | v in rev
      ensures v in encoding.Values && Inverse(encoding)[v] == rev[v]
    {
      assert (forall k :: k in encoding.Keys ==> encoding[k] != v) ==> v !in image;
      var k :| k in encoding.Keys && encoding[k] == v;
    }
    assert rev == Inverse(encoding);
    return Ok(rev);
  }

  /** The length of the shortest prefix of `bits`, at least `i` long, that is a code: the inner loop's first hit. */
  function ScanFrom(rev: map<string, int>, bits: string, i: nat): (r: Option<nat>)
    requires 1 <= i <= |bits| + 1
    ensures r.Some? ==> i <= r.value <= |bits| && bits[..r.value] in rev
    ensures r.Some? ==> forall j :: i <= j < r.value ==> bits[..j] !in rev
    ensures r.None? ==> forall j :: i <= j <= |bits| ==> bits[..j] !in rev
    decreases |bits| + 1 - i
  {
    if i > |bits| then None
    else if bits[..i] in rev then Some(i)
    else ScanFrom(rev, bits, i + 1)
  }

  /**
   * The outer loop of decodeText: strip the shortest code prefix and emit its
   * symbol (cast to a char) until nothing is left. Where no prefix is a code the
   * source loops forever; here that is UndecodableSequence.
   */
  function DecodeWith(rev: map<string, int>, bits: string): (r: Result<Text>)
    ensures bits == [] ==> r == Ok([])
    ensures r.Err? ==> r.error == UndecodableSequence
    ensures bits != [] && ScanFrom(rev, bits, 1).None? ==> r == Err(UndecodableSequence)
    ensures r.Ok? ==> |r.value| <= |bits|
    decreases |bits|
  {
    if bits == [] then Ok([])
    else
      match ScanFrom(rev, bits, 1)
      case None => Err(UndecodableSequence)
      case Some(n) =>
        var rest := DecodeWith(rev, bits[n..]);
        if rest.Err? then rest
        else Ok([(rev[bits[..n]] % 0x1_0000) as CodeUnit] + rest.value)
  }

  /** decodeText: build the reverse map (which may fail), then decode. */
  function Decode(table: map<int, string>, bits: string): (r: Result<Text>)
    ensures !Injective(table) ==> r == Err(DuplicateCode)
  {
    match ReverseEncoding(table)
    case Err(e) => Err(e)
    case Ok(rev) => DecodeWith(rev, bits)
  }

  /** One pass of the outer loop: scan prefixes of growing length until one is a code. */
  method StripOne(rev: map<string, int>, bitSeq: string) returns (found: bool, rest: string, unit: CodeUnit)
    requires bitSeq != []
    ensures found <==> ScanFrom(rev, bitSeq, 1).Some?
    ensures found ==> var n := ScanFrom(rev, bitSeq, 1).value;
                      rest == bitSeq[n..] && unit == rev[bitSeq[..n]] % 0x1_0000
  {
    found, rest, unit := false, bitSeq, 0;
    var i := 1;
    while i <= |bitSeq| && !found
      invariant 1 <= i <= |bitSeq| + 1
      invariant !found ==> ScanFrom(rev, bitSeq, i) == ScanFrom(rev, bitSeq, 1)
      invariant found ==> var n := ScanFrom(rev, bitSeq, 1);
                          n.Some? && rest == bitSeq[n.value..] && unit == rev[bitSeq[..n.value]] % 0x1_0000
      decreases |bitSeq| + 1 - i
    {
      var potentialKey := bitSeq[..i];
      if potentialKey in rev {
        unit := rev[potentialKey] % 0x1_0000;
        rest := bitSeq[i..];
        found := true;
      }
      i := i + 1;
    }
  }

  /** decodeText, with the source's endless loop replaced by an UndecodableSequence error. */
  method DecodeText(encoding: map<int, string>, encodedText: string) returns (r: Result<Text>)
    ensures r == Decode(encoding, encodedText)
  {
    var reverse := BuildReverseEncoding(encoding);
    if reverse.Err? {
      return Err(reverse.error);
    }
    var rev := reverse.value;
    var bitSeq := encodedText;
    var decodedText: Text := [];
    PrependEmpty(DecodeWith(rev, bitSeq));
    while bitSeq != []
      invariant DecodeWith(rev, encodedText) == Prepend(decodedText, DecodeWith(rev, bitSeq))
      decreases |bitSeq|
    {
      var found, rest, unit := StripOne(rev, bitSeq);
      if !found {
        return Err(UndecodableSequence);
      }
      assert DecodeWith(rev, bitSeq) == Prepend([unit], DecodeWith(rev, rest));
      PrependTwice(decodedText, unit, DecodeWith(rev, rest));
      decodedText := decodedText + [unit];
      bitSeq := rest;
    }
    assert decodedText + [] == decodedText;
    return Ok(decodedText);
  }

  /** A prefix-free table whose codes are all non-empty: the shape computeEncodingTable gives a branch root. */
  predicate PrefixCode(table: map<int, string>)
  {
    PrefixFree(table) && forall k :: k in table ==> table[k] != []
  }

  /** In a prefix code no two symbols share a code, so building the reverse map cannot fail. */
  lemma PrefixCodeInjective(table: map<int, string>)
    requires PrefixCode(table)
    ensures Injective(table)
  {
    forall a, b | a in table && b in table && a != b
      ensures table[a] != table[b]
    {
      assert !(table[a] <= table[b]);
    }
  }

  /** The shortest code prefix of a code followed by anything is that code. */
  lemma ScanCode(table: map<int, string>, c: int, tail: string)
    requires PrefixCode(table) && c in table
    ensures Injective(table)
    ensures ScanFrom(Inverse(table), table[c] + tail, 1) == Some(|table[c]|)
  {
    PrefixCodeInjective(table);
    var rev, bits, n := Inverse(table), table[c] + tail, |table[c]|;
    assert bits[..n] == table[c];
    forall j | 1 <= j < n
      ensures bits[..j] !in rev
    {
      assert bits[..j] == table[c][..j];
      forall b | b in table
        ensures table[b] != bits[..j]
      {
        if b != c {
          assert !(table[b] <= table[c]);
        }
      }
    }
  }

  /** decodeText inverts encodeInput for a prefix code that covers the text. */
  lemma {:induction false} DecodeEncode(table: map<int, string>, text: Text)
    requires PrefixCode(table) && Covers(table, text)
    ensures Decode(table, Encode(table, text)) == Ok(text)
  {
    PrefixCodeInjective(table);
    DecodeWithEncode(table, text);
  }

  lemma {:induction false} DecodeWithEncode(table: map<int, string>, text: Text)
    requires PrefixCode(table) && Covers(table, text) && Injective(table)
    ensures DecodeWith(Inverse(table), Encode(table, text)) == Ok(text)
  {
    if text != [] {
      var c, tail := text[0], Encode(table, text[1..]);
      var rev, n := Inverse(table), |table[c]|;
      assert text[0] as int in table;
      assert Encode(table, text) == table[c] + tail;
      ScanCode(table, c, tail);
      assert Covers(table, text[1..]) by {
        forall i | 0 <= i < |text[1..]|
          ensures text[1..][i] as int in table
        {
          assert text[1..][i] == text[i + 1];
        }
      }
      DecodeWithEncode(table, text[1..]);
      DecodeStep(rev, table[c], tail, text[1..]);
      assert [c] + text[1..] == text;
    }
  }

  /**
   * The converse of DecodeWithEncode: whatever a reverse map decodes, when it
   * sends each code back to a symbol with that code (as the inverse of a table
   * does), is covered by the table and encodes back to the bits it came from.
   */
  lemma {:induction false} EncodeDecode(table: map<int, string>, rev: map<string, int>, bits: string, text: Text)
    requires forall k :: k in table ==> 0 <= k < 0x1_0000
    requires forall code :: code in rev ==> rev[code] in table && table[rev[code]] == code
    requires DecodeWith(rev, bits) == Ok(text)
    ensures Covers(table, text) && Encode(table, text) == bits
    decreases |bits|
  {
    if bits != [] {
      var n, rest := DecodeHead(rev, bits);
      var code := bits[..n];
      var k := rev[code];
      assert text == [k as CodeUnit] + rest;
      EncodeDecode(table, rev, bits[n..], rest);
      EncodeOne(table, k as CodeUnit, rest, bits[n..]);
      assert bits == code + bits[n..];
    }
  }

  /** A covered unit in front of a covered text: its code in front of the text's encoding. */
  lemma EncodeOne(table: map<int, string>, c: CodeUnit, rest: Text, tail: string)
    requires c as int in table && Covers(table, rest) && Encode(table, rest) == tail
    ensures Covers(table, [c] + rest) && Encode(table, [c] + rest) == table[c as int] + tail
  {
    EncodeCons(table, c, rest);
    forall i | 0 <= i < |[c] + rest|
      ensures ([c] + rest)[i] as int in table
    {
      if i > 0 {
        assert ([c] + rest)[i] == rest[i - 1];
      }
    }
  }

  /** A successful decode of non-empty bits starts with the shortest code prefix. */
  lemma DecodeHead(rev: map<string, int>, bits: string) returns (n: nat, rest: Text)
    requires bits != [] && DecodeWith(rev, bits).Ok?
    ensures ScanFrom(rev, bits, 1) == Some(n) && 1 <= n <= |bits| && bits[..n] in rev
    ensures DecodeWith(rev, bits[n..]) == Ok(rest)
    ensures DecodeWith(rev, bits).value == [(rev[bits[..n]] % 0x1_0000) as CodeUnit] + rest
  {
    n := ScanFrom(rev, bits, 1).value;
    rest := DecodeWith(rev, bits[n..]).value;
  }

  /** A code in the reverse map belongs to the symbol the reverse map gives. */
  lemma CodeOwner(table: map<int, string>, code: string) returns (k: int)
    requires Injective(table) && code in Inverse(table)
    ensures k == Inverse(table)[code] && k in table && table[k] == code
  {
    assert (forall x :: x in table ==> table[x] != code) ==> code !in table.Values;
    var x :| x in table && table[x] == code;
    k := x;
  }

  /**
   * For a prefix code over 16-bit units, decodeText succeeds exactly on the
   * bit strings that are encodings of some text, and on every other bit
   * string it reports UndecodableSequence (where the source loops forever).
   */
  lemma DecodeExactlyEncodings(table: map<int, string>, bits: string)
    requires PrefixCode(table) && forall k :: k in table ==> 0 <= k < 0x1_0000
    ensures Decode(table, bits).Ok? <==> exists text: Text :: Covers(table, text) && Encode(table, text) == bits
    ensures Decode(table, bits).Err? ==> Decode(table, bits).error == UndecodableSequence
  {
    PrefixCodeInjective(table);
    if Decode(table, bits).Ok? {
      var rev := Inverse(table);
      forall code | code in rev
        ensures rev[code] in table && table[rev[code]] == code
      {
        var k := CodeOwner(table, code);
      }
      EncodeDecode(table, rev, bits, Decode(table, bits).value);
    }
    if exists text: Text :: Covers(table, text) && Encode(table, text) == bits {
      var text: Text :| Covers(table, text) && Encode(table, text) == bits;
      DecodeWithEncode(table, text);
    }
  }

  /** One round of the decode loop when the shortest code prefix is `code`. */
  lemma DecodeStep(rev: map<string, int>, code: string, tail: string, rest: Text)
    requires code != [] && ScanFrom(rev, code + tail, 1) == Some(|code|)
    requires DecodeWith(rev, tail) == Ok(rest)
    requires 0 <= rev[code] < 0x1_0000
    ensures DecodeWith(rev, code + tail) == Ok([rev[code] as CodeUnit] + rest)
  {
    var bits := code + tail;
    assert bits[..|code|] == code && bits[|code|..] == tail;
  }

  /** The encodeInput and decodeText test table, with 'a'..'d' as 97..100. */
  function TestTable(): (t: map<int, string>)
    ensures PrefixCode(t)
  {
    var t := map[97 := "1", 98 := "01", 99 := "001", 100 := "0001"];
    forall a, b | a in t && b in t && a != b
      ensures !(t[a] <= t[b])
    {
      assert |t[a]| > |t[b]| || t[b][|t[a]| - 1] == '0';
    }
    t
  }

  lemma EncodeCons(table: map<int, string>, c: CodeUnit, rest: Text)
    ensures Encode(table, [c] + rest) == Lookup(table, c) + Encode(table, rest)
  {
    assert ([c] + rest)[1..] == rest;
  }

  /** Encoding a concatenation concatenates the encodings. */
  lemma {:induction false} EncodeConcat(table: map<int, string>, a: Text, b: Text)
    ensures Encode(table, a + b) == Encode(table, a) + Encode(table, b)
  {
    if a == [] {
      assert a + b == b;
    } else {
      assert (a + b)[1..] == a[1..] + b;
      EncodeConcat(table, a[1..], b);
    }
  }

  /** encodeInput of "abcddcba" under the test table. */
  lemma EncodeExample()
    ensures Encode(TestTable(), [97, 98, 99, 100, 100, 99, 98, 97]) == "10100100010001001011"
  {
    var t := TestTable();
    EncodeAbcd();
    EncodeDcba();
    var abcd: Text, dcba: Text := [97, 98, 99, 100], [100, 99, 98, 97];
    EncodeConcat(t, abcd, dcba);
    ExampleHalves();
  }

  /** The example text and its encoding, each as two halves. */
  lemma ExampleHalves()
    ensures [97 as CodeUnit, 98, 99, 100] + [100 as CodeUnit, 99, 98, 97] == [97 as CodeUnit, 98, 99, 100, 100, 99, 98, 97]
    ensures "1010010001" + "0001001011" == "10100100010001001011"
  {
  }

  lemma EncodeAbcd()
    ensures Encode(TestTable(), [97, 98, 99, 100]) == "1010010001"
  {
    var t := TestTable();
    EncodeCons(t, 100, []);
    EncodeCons(t, 99, [100]);
    EncodeCons(t, 98, [99, 100]);
    EncodeCons(t, 97, [98, 99, 100]);
  }

  lemma EncodeDcba()
    ensures Encode(TestTable(), [100, 99, 98, 97]) == "0001001011"
  {
    var t := TestTable();
    EncodeCons(t, 97, []);
    EncodeCons(t, 98, [97]);
    EncodeCons(t, 99, [98, 97]);
    EncodeCons(t, 100, [99, 98, 97]);
  }

  /** A lone '0' is no code of the test table and no code's prefix ends there: decoding it fails. */
  lemma CorruptedExample()
    ensures Decode(TestTable(), "0") == Err(UndecodableSequence)
  {
    var rev := Inverse(TestTable());
    assert "0"[..1] == "0" && "0" !in rev;
  }

  /** decodeText of the test's bit string gives "abcddcba" back. */
  lemma DecodeExample()
    ensures Decode(TestTable(), "10100100010001001011") == Ok([97, 98, 99, 100, 100, 99, 98, 97])
  {
    var s: Text := [97, 98, 99, 100, 100, 99, 98, 97];
    EncodeExample();
    DecodeEncode(TestTable(), s);
  }
}
