/**
 * The HuffmanEncoding object and the paths through it: built from a plain text
 * (count, build the tree, derive the codes, encode) or from a stored scheme and
 * bit string (parse, decode), and the whole file round trip.
 */
module HuffmanEncoding {
  import opened Base
  import opened JavaLib
  import opened HuffmanTree
  import opened Occurrences
  import opened CodeTable
  import opened Transcoder
  import opened Scheme
  import opened EncodeCommand
  import opened DecodeCommand

  /** The three final fields of a HuffmanEncoding. */
  datatype Encoding = Encoding(plainText: Text, encoding: map<int, string>, encodedText: string)

  /**
   * What the plain-text constructor establishes: a binary prefix code with a
   * non-empty code for exactly the units of the text, and the text encoded with it.
   */
  predicate EncodesText(e: Encoding, text: Text)
  {
    && e.plainText == text
    && e.encoding.Keys == UnitSet(text)
    && PrefixCode(e.encoding)
    && (forall k :: k in e.encoding ==> IsBits(e.encoding[k]))
    && e.encodedText == Encode(e.encoding, text)
  }

  /**
   * fromPlainText / HuffmanEncoding(String): count the units, build the tree,
   * derive the code table (one-bit code for a single-symbol text) and encode.
   * The table is the one derived from the greedy tree of some occurrence list
   * of the text (the list's order is the HashMap's). An empty text throws
   * while building the tree.
   */
  method FromPlainText(plainText: Text) returns (r: Result<Encoding>)
    ensures r.Err? <==> plainText == []
    ensures r.Err? ==> r.error == EmptyInput
    ensures r.Ok? ==> EncodesText(r.value, plainText)
    ensures r.Ok? ==> Decode(r.value.encoding, r.value.encodedText) == Ok(plainText)
    ensures r.Ok? ==> exists items :: IsOccurrenceList(items, plainText) && BuildTree(items).Ok?
                                      && r.value.encoding == CorrectedEncodingTable(BuildTree(items).value)
  {
    var items := BuildOccurrenceTable(plainText);
    OccurrenceListFacts(items, plainText);
    var tree := ComputeEncodingTree(items);
    if tree.Err? {
      return Err(tree.error);
    }
    var root := tree.value;
    BuildTreeLeaves(items);
    var encoding := CorrectedEncodingTable(root);
    assert encoding.Keys == UnitSet(plainText) by {
      forall c
        ensures c in LeafSet(root) <==> c in UnitSet(plainText)
      {
        assert c in Leaves(root) <==> c in multiset(Leaves(root));
      }
    }
    var encodedText := EncodeInput(encoding, plainText);
    assert Covers(encoding, plainText) by {
      forall i | 0 <= i < |plainText|
        ensures plainText[i] as int in encoding
      {
        assert plainText[i] as int in UnitSet(plainText);
      }
    }
    DecodeEncode(encoding, plainText);
    assert IsOccurrenceList(items, plainText) && BuildTree(items) == Ok(root);
    return Ok(Encoding(plainText, encoding, encodedText));
  }

  /** fromEncoding / HuffmanEncoding(Map, String): parse the scheme, then decode the bits. */
  function FromEncodingSpec(scheme: string, encodedText: string): (r: Result<Encoding>)
    ensures r.Ok? ==> r.value.encodedText == encodedText && ParseScheme(scheme) == Ok(r.value.encoding)
  {
    match ParseScheme(scheme)
    case Err(e) => Err(e)
    case Ok(encoding) =>
      match Decode(encoding, encodedText)
      case Err(e) => Err(e)
      case Ok(plainText) => Ok(Encoding(plainText, encoding, encodedText))
  }

  method FromEncoding(scheme: string, encodedText: string) returns (r: Result<Encoding>)
    ensures r == FromEncodingSpec(scheme, encodedText)
  {
    var encodingMap := ReadScheme(scheme);
    if encodingMap.Err? {
      return Err(encodingMap.error);
    }
    var plainText := DecodeText(encodingMap.value, encodedText);
    if plainText.Err? {
      return Err(plainText.error);
    }
    return Ok(Encoding(plainText.value, encodingMap.value, encodedText));
  }

  /** The code table of a text can be written as a scheme and read back. */
  lemma EncodingWritable(e: Encoding, text: Text)
    requires EncodesText(e, text) && text != []
    ensures Writable(e.encoding) && |e.encoding| > 0
  {
    forall k | k in e.encoding
      ensures 0 <= k <= IntMax && e.encoding[k] != [] && '-' !in e.encoding[k] && ':' !in e.encoding[k]
    {
      var i :| 0 <= i < |text| && text[i] as int == k;
    }
    assert text[0] as int in UnitSet(text);
  }

  /**
   * The whole round trip of the two commands: the scheme written in any entry
   * order and the packed bytes give back the encoding and the text.
   */
  lemma FileRoundTrip(e: Encoding, text: Text, order: seq<int>)
    requires EncodesText(e, text) && text != []
    requires Enumerates(order, e.encoding)
    ensures Pack(e.encodedText).Ok?
    ensures Unpack(Pack(e.encodedText).value) == Ok(e.encodedText)
    ensures FromEncodingSpec(Stringify(e.encoding, order), e.encodedText) == Ok(e)
  {
    PackUnpack(e.encodedText);
    EncodingWritable(e, text);
    StringifyParse(e.encoding, order);
    assert Covers(e.encoding, text) by {
      forall i | 0 <= i < |text|
        ensures text[i] as int in e.encoding
      {
        assert text[i] as int in UnitSet(text);
      }
    }
    DecodeEncode(e.encoding, text);
  }

  /** A text of n copies of one unit. */
  function Repeat(c: CodeUnit, n: nat): (t: Text)
    ensures |t| == n && forall i :: 0 <= i < n ==> t[i] == c
  {
    seq(n, _ => c)
  }

  lemma {:induction false} EncodeEmptyCode(c: CodeUnit, n: nat)
    ensures Encode(map[c := ""], Repeat(c, n)) == ""
  {
    if n > 0 {
      assert Repeat(c, n)[1..] == Repeat(c, n - 1);
      EncodeEmptyCode(c, n - 1);
    }
  }

  /**
   * With the table as computed, a text of one repeated unit gets the empty code:
   * its encoding is empty and decodes to the empty text.
   */
  lemma AsWrittenSingleSymbol(c: CodeUnit, n: nat)
    requires n >= 1
    ensures BuildTree([Item(n, Leaf(c))]) == Ok(Leaf(c))
    ensures ComputeEncodingTable(Leaf(c)) == map[c := ""]
    ensures Encode(ComputeEncodingTable(Leaf(c)), Repeat(c, n)) == ""
    ensures Decode(ComputeEncodingTable(Leaf(c)), "") == Ok([])
  {
    EncodeEmptyCode(c, n);
  }

  /** With the corrected table the same text encodes to one '0' per unit and decodes back. */
  lemma CorrectedSingleSymbol(c: CodeUnit, n: nat)
    requires n >= 1
    ensures Decode(CorrectedEncodingTable(Leaf(c)), Encode(CorrectedEncodingTable(Leaf(c)), Repeat(c, n))) == Ok(Repeat(c, n))
  {
    DecodeEncode(CorrectedEncodingTable(Leaf(c)), Repeat(c, n));
  }
}
