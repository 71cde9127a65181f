# Huffman coding of text files, modelled in Dafny

This project models the core of a small Java command-line Huffman coder (`ch.fhnw.huffman`). It also proves what that core promises.

The modelled chain has two directions:

- **Encoding.** A `HuffmanEncoding` is built from a plain text:
  - count every UTF-16 code unit (`buildOccurrenceTable`);
  - repeatedly merge the two lowest-count items of the occurrence list into a branch (`computeEncodingTree`);
  - walk the tree to a table from unit to bit string, '0' for a left step and '1' for a right step (`computeEncodingTable`);
  - concatenate the codes of the text (`encodeInput`).

  The encode command then writes the table as a scheme `key:code-key:code-…` (`stringifiedEncoding`). It pads the bit string with a '1' sentinel and '0' filler to whole bytes and packs them (`padEncodedText`).
- **Decoding.** The decode command turns each byte back into binary digits and cuts the filler at the last '1'. `fromEncoding` parses the scheme, and `decodeText` repeatedly strips the shortest prefix that is a code.

Modules, one per concern of the source:

| module | file | models |
|---|---|---|
| Base | base.dfy | code units, bytes, the error kinds the source throws, `Result`/`Option` |
| JavaLib | java_lib.dfy | the library semantics the core relies on: `Integer.parseInt` (sign, radix, 32-bit range), `String.split` on one character (trailing empty fields dropped), `%d` formatting, `lastIndexOf`, the `(byte)` cast |
| HuffmanTree | huffman_tree.dfy | `OccurrenceItem`, `HuffmanNode`, `computeEncodingTree` (its two scans and the in-list merge) |
| Occurrences | occurrences.dfy | `buildOccurrenceTable` |
| CodeTable | code_table.dfy | `computeEncodingTable` / `recComputeEncodingTable` |
| Transcoder | transcoder.dfy | `encodeInput`, `decodeText` |
| Scheme | scheme.dfy | `stringifiedEncoding`, the parsing half of `fromEncoding` |
| EncodeCommand | encode_command.dfy | `padEncodedText` |
| DecodeCommand | decode_command.dfy | the byte rendering and filler removal of `DecodeCommand.execute` |
| HuffmanEncoding | huffman_encoding.dfy | the two constructors and the whole file round trip |

Where the source updates state step by step, the model is a `method` with a loop:

- the counting loop;
- the two minimum scans and the merge loop;
- the encode loop;
- the reverse-map loop;
- the decode loop with its inner prefix scan;
- the scheme parsing loop;
- the byte packing and unpacking loops.

Each such method is proved equal to a specification function. The properties are proved about that function.

Two things in the source are not deterministic: the iteration order of a `HashMap` and the order of a parallel stream. The model handles them as follows:

- the occurrence list is built by picking keys in an arbitrary order (`:|`), and every order is covered;
- the scheme writer takes the entry order as a parameter.

Code units are `int`s in `0..0xFFFF`. Bit strings, codes and schemes are Dafny `string`s. Bytes are `Int8` (`-128..127`).

## Model

| member | source | states |
|---|---|---|
| Occurrences.CountOccurrences | src/main/ch/fhnw/huffman/HuffmanEncoding.java:102-107 | the occurrence map has exactly the distinct units of the input as keys, each mapped to its number of occurrences |
| Occurrences.BuildOccurrenceTable | src/main/ch/fhnw/huffman/HuffmanEncoding.java:101-113 | in any iteration order, the list holds only leaf items, each carrying the count of its unit, and every distinct unit exactly once |
| Occurrences.OccurrenceListFacts | src/main/ch/fhnw/huffman/HuffmanEncoding.java:101-113 | an occurrence list has one item per distinct unit, no symbol twice, every count at least one and every symbol in the text, and is empty exactly when the text is |
| HuffmanTree.FindLowest | src/main/ch/fhnw/huffman/HuffmanEncoding.java:122-127 | the index found holds a minimal count and is the first such index |
| HuffmanTree.FindSecondLowest | src/main/ch/fhnw/huffman/HuffmanEncoding.java:128-133 | skipping the lowest index, the index found holds a minimal count among the others and is the first such index |
| HuffmanTree.EarliestMin | src/main/ch/fhnw/huffman/HuffmanEncoding.java:122-133 | the earliest index of minimal count, skipping one index, exists whenever a candidate does |
| HuffmanTree.EarliestMinUnique | src/main/ch/fhnw/huffman/HuffmanEncoding.java:122-133 | there is only one earliest minimal index, so the scans are deterministic |
| HuffmanTree.MergeLowest | src/main/ch/fhnw/huffman/HuffmanEncoding.java:135-139 | one round of the merge loop: the lowest item is replaced by the combined branch and the second lowest is removed |
| HuffmanTree.Combine | src/main/ch/fhnw/huffman/HuffmanEncoding.java:135-139 | the list is one shorter; the merged branch sits where the lowest item was, with the summed count; every other item keeps its place, shifted past the removed second item |
| HuffmanTree.CombinePair | src/main/ch/fhnw/huffman/HuffmanEncoding.java:135-141 | a list of two items combines into the single merged item |
| HuffmanTree.CombinePreserves | src/main/ch/fhnw/huffman/HuffmanEncoding.java:135-139 | combining two items keeps the total count and the multiset of leaf symbols of the list |
| HuffmanTree.MergeStep | src/main/ch/fhnw/huffman/HuffmanEncoding.java:121-140 | each round shortens the list by one and keeps the total count and the leaf symbols |
| HuffmanTree.BuildTree | src/main/ch/fhnw/huffman/HuffmanEncoding.java:116-142 | an empty occurrence list is refused with the "no occurrences" error and nothing else is; a single item yields its own node |
| HuffmanTree.ComputeEncodingTree | src/main/ch/fhnw/huffman/HuffmanEncoding.java:116-142 | the loop over the list computes the specified tree (or the error for an empty list) |
| HuffmanTree.MergeStepAt | src/main/ch/fhnw/huffman/HuffmanEncoding.java:121-140 | merging at the two scanned indices gives a list that yields the same tree |
| HuffmanTree.BuildTreeLeaves | src/main/ch/fhnw/huffman/HuffmanEncoding.java:116-142 | the leaves of the tree are exactly the symbols of the occurrence list, as a multiset |
| HuffmanTree.BuildTreeBranch | src/main/ch/fhnw/huffman/HuffmanEncoding.java:121-141 | two or more items always give a branch root |
| HuffmanTree.OrderDictatesTreeStructure | src/test/ch/fhnw/huffman/HuffmanEncodingTest.java:85-99 | counts 1,1,2,3 give the tree with 'd' on the left and a, b, c below the right child, as the test pins down |
| HuffmanTree.OccurrencesSortedHighToLow | src/test/ch/fhnw/huffman/HuffmanEncodingTest.java:101-116 | counts 6,3,1,1 give a, b, c on the left and 'd' as the right child |
| HuffmanTree.OccurrencesUnsorted | src/test/ch/fhnw/huffman/HuffmanEncodingTest.java:118-131 | counts 2,1,4 give ((a,b),c) |
| CodeTable.PathsCodes | src/main/ch/fhnw/huffman/HuffmanEncoding.java:151-160 | the accumulating recursive walk adds exactly the structural codes of the subtree behind the current prefix |
| CodeTable.Paths | src/main/ch/fhnw/huffman/HuffmanEncoding.java:151-160 | the walk adds exactly the subtree's leaf symbols to the map and leaves every other entry as it was |
| CodeTable.ComputeEncodingTable | src/main/ch/fhnw/huffman/HuffmanEncoding.java:145-149 | as written: the table has exactly the tree's leaf symbols as keys, and a lone leaf gets the empty code |
| CodeTable.BranchCodes | src/main/ch/fhnw/huffman/HuffmanEncoding.java:156-159 | the codes of the two subtrees behind "0" and "1" are the branch's codes behind the prefix |
| CodeTable.Codes | src/main/ch/fhnw/huffman/HuffmanEncoding.java:151-160 | the tree's codes cover exactly its leaf symbols, are binary, and are non-empty below a branch |
| CodeTable.CodesPrefixFree | src/main/ch/fhnw/huffman/HuffmanEncoding.java:151-160 | no leaf's code is a prefix of another leaf's code |
| CodeTable.EncodingTableIsPrefixCode | src/main/ch/fhnw/huffman/HuffmanEncoding.java:145-149 | for a branch root the table maps exactly the leaf symbols to non-empty binary codes, is prefix-free, and has one entry per leaf when the leaves are distinct |
| CodeTable.CorrectedEncodingTable | src/main/ch/fhnw/huffman/HuffmanEncoding.java:145-149 | the table with a one-bit code for a leaf root: all leaf symbols, non-empty binary codes, prefix-free |
| CodeTable.OneSidedTree | src/test/ch/fhnw/huffman/HuffmanEncodingTest.java:133-146 | the tree ((a,b),c) gets a:00, b:01, c:1 |
| CodeTable.BalancedTree | src/test/ch/fhnw/huffman/HuffmanEncodingTest.java:148-163 | the tree ((a,b),(c,d)) gets 00, 01, 10, 11 |
| Transcoder.Lookup | src/main/ch/fhnw/huffman/HuffmanEncoding.java:95 | a unit in the table contributes its code |
| Transcoder.Encode | src/main/ch/fhnw/huffman/HuffmanEncoding.java:92-98 | with every unit covered by binary codes, the encoded text is a bit string |
| Transcoder.EncodeAppend | src/main/ch/fhnw/huffman/HuffmanEncoding.java:94-96 | encoding one more unit appends exactly its code |
| Transcoder.EncodeConcat | src/main/ch/fhnw/huffman/HuffmanEncoding.java:92-98 | encoding two texts one after the other is encoding their concatenation |
| Transcoder.EncodeInput | src/main/ch/fhnw/huffman/HuffmanEncoding.java:92-98 | the loop computes the concatenation of the codes of the input |
| Transcoder.Inverse | src/main/ch/fhnw/huffman/HuffmanEncoding.java:71-73 | for an injective table, the reverse map has the codes as keys and sends each code back to its unit |
| Transcoder.ReverseEncoding | src/main/ch/fhnw/huffman/HuffmanEncoding.java:71-73 | the reverse map exists exactly when no two units share a code (else the duplicate-key error of `toMap`) and then inverts the table |
| Transcoder.BuildReverseEncoding | src/main/ch/fhnw/huffman/HuffmanEncoding.java:71-73 | the entry-by-entry collection computes the reverse map, or the duplicate error |
| Transcoder.ScanFrom | src/main/ch/fhnw/huffman/HuffmanEncoding.java:78-86 | the scan finds the shortest prefix of the remaining bits that is a code, and reports none only when no prefix is |
| Transcoder.StripOne | src/main/ch/fhnw/huffman/HuffmanEncoding.java:77-86 | the inner loop finds a code exactly when the scan does, removes it and yields its unit cast to a char |
| Transcoder.DecodeWith | src/main/ch/fhnw/huffman/HuffmanEncoding.java:76-88 | the empty bit string decodes to the empty text; a non-empty one with no code as a prefix is refused; every failure is the undecodable-sequence error (where the source loops forever); a decoded text has no more units than there are bits |
| Transcoder.Decode | src/main/ch/fhnw/huffman/HuffmanEncoding.java:69-89 | a table with a duplicated code is refused before any decoding |
| Transcoder.DecodeText | src/main/ch/fhnw/huffman/HuffmanEncoding.java:69-89 | the decode loop computes the specified decoding, or its error |
| Transcoder.PrefixCodeInjective | src/main/ch/fhnw/huffman/HuffmanEncoding.java:71-73 | a prefix code never trips the duplicate-key error |
| Transcoder.ScanCode | src/main/ch/fhnw/huffman/HuffmanEncoding.java:78-86 | on a prefix code, the scan over a code followed by anything stops exactly at the end of that code |
| Transcoder.DecodeEncode | src/main/ch/fhnw/huffman/HuffmanEncoding.java:69-98 | for a prefix code covering the text, decoding the encoded text gives back the text |
| Transcoder.EncodeDecode | src/main/ch/fhnw/huffman/HuffmanEncoding.java:69-98 | whatever a reverse map decodes, the table encodes back to the same bits |
| Transcoder.DecodeExactlyEncodings | src/main/ch/fhnw/huffman/HuffmanEncoding.java:69-98 | for a prefix code, a bit string decodes exactly when it is the encoding of some text the table covers; otherwise the undecodable-sequence error |
| Transcoder.EncodeOne | src/main/ch/fhnw/huffman/HuffmanEncoding.java:94-96 | encoding a unit before a text puts its code before that text's encoding |
| Transcoder.DecodeHead | src/main/ch/fhnw/huffman/HuffmanEncoding.java:76-87 | a successful decoding starts with the unit of the shortest code prefix, followed by the decoding of the remaining bits |
| Transcoder.TestTable | src/test/ch/fhnw/huffman/HuffmanEncodingTest.java:42-44 | the test's table a:1, b:01, c:001, d:0001 is a prefix code |
| Transcoder.EncodeExample | src/test/ch/fhnw/huffman/HuffmanEncodingTest.java:52-62 | "abcddcba" encodes to "10100100010001001011" |
| Transcoder.DecodeExample | src/test/ch/fhnw/huffman/HuffmanEncodingTest.java:40-50 | "10100100010001001011" decodes to "abcddcba" |
| Transcoder.CorruptedExample | src/main/ch/fhnw/huffman/HuffmanEncoding.java:76-88 | with the test table, the bit string "0" cannot be decoded: no code is a prefix of it |
| Scheme.Entry | src/main/ch/fhnw/huffman/HuffmanEncoding.java:59-60 | a `%d:%s` entry ends with ':' and the code; for a non-negative key the key part holds no ':', and the entry contains '-' exactly when the code does |
| Scheme.Stringify | src/main/ch/fhnw/huffman/HuffmanEncoding.java:57-62 | for a writable table and a non-empty order, splitting the scheme at '-' gives back the written entries, in order |
| Scheme.ParseEntry | src/main/ch/fhnw/huffman/HuffmanEncoding.java:28-29 | an entry is read exactly when it has a second ':'-field and its first field parses as a decimal 32-bit int; the key is that int and the code is the second field, which holds no ':'; every failure is the malformed-scheme error |
| Scheme.ParseEntries | src/main/ch/fhnw/huffman/HuffmanEncoding.java:27-30 | parsing only adds keys; a key not carried over from the map so far is a 32-bit int whose code holds no ':'; every failure is the malformed-scheme error |
| Scheme.ParseScheme | src/main/ch/fhnw/huffman/HuffmanEncoding.java:26-30 | every key read is a 32-bit int whose code holds no ':'; every failure is the malformed-scheme error |
| Scheme.ReadScheme | src/main/ch/fhnw/huffman/HuffmanEncoding.java:26-30 | the parsing loop computes the specified map, or its error |
| Scheme.ParseWrittenEntry | src/main/ch/fhnw/huffman/HuffmanEncoding.java:28-29 | an entry written with `%d:%s` reads back as its key and code |
| Scheme.ParseEntriesOf | src/main/ch/fhnw/huffman/HuffmanEncoding.java:27-30 | reading the written entries adds exactly the written keys and codes |
| Scheme.StringifyParse | src/main/ch/fhnw/huffman/HuffmanEncoding.java:24-32 | in any entry order, reading the written scheme of a non-empty table with non-negative keys and codes free of '-' and ':' gives back the table |
| Scheme.EmptyCodeUnreadable | src/main/ch/fhnw/huffman/HuffmanEncoding.java:28-29 | an entry with an empty code cannot be read back, because split drops the empty field |
| Scheme.EmptySchemeUnreadable | src/main/ch/fhnw/huffman/HuffmanEncoding.java:27-29 | the empty scheme is refused |
| Scheme.StringifyExample | src/test/ch/fhnw/huffman/HuffmanEncodingTest.java:28-38 | {a:0, b:1} is written "97:0-98:1" or "98:1-97:0", depending on the order |
| EncodeCommand.Pad | src/main/ch/fhnw/huffman/commands/EncodeCommand.java:26-28 | the padded text is whole bytes: the bits, a '1' sentinel, then one to eight '0's |
| EncodeCommand.ToBytes | src/main/ch/fhnw/huffman/commands/EncodeCommand.java:29-33 | one byte per group of eight characters, or the parse error, which comes exactly when `Integer.parseInt(group, 2)` rejects a group (a sign such as "+0000001" is accepted) |
| EncodeCommand.PadEncodedText | src/main/ch/fhnw/huffman/commands/EncodeCommand.java:25-35 | the loop fills a fresh array with the packed bytes, or fails exactly when packing does |
| EncodeCommand.FillBytes | src/main/ch/fhnw/huffman/commands/EncodeCommand.java:29-34 | for whole groups of eight, the loop fills a fresh array with the packed bytes, or fails, with the parse error, exactly when `Integer.parseInt(group, 2)` rejects a group |
| EncodeCommand.PackStep | src/main/ch/fhnw/huffman/commands/EncodeCommand.java:30-32 | one round of the loop moves the next group's byte from the unread rest to the filled part, or shows the whole packing fails |
| EncodeCommand.Pack | src/main/ch/fhnw/huffman/commands/EncodeCommand.java:25-35 | a bit string of length n always packs, into (n+1)/8+1 bytes; the only failure is the parse error |
| EncodeCommand.BinaryGroupsParse | src/main/ch/fhnw/huffman/commands/EncodeCommand.java:29-33 | byte i is the (byte) cast of the binary value of the i-th group of eight |
| EncodeCommand.PackedByte | src/main/ch/fhnw/huffman/commands/EncodeCommand.java:25-35 | each packed byte is the cast value of its padded group |
| EncodeCommand.PadSentinel | src/main/ch/fhnw/huffman/commands/EncodeCommand.java:27-28 | the last '1' of the padded text is the sentinel, right after the bits |
| EncodeCommand.SevenBitsGetZeroByte | src/main/ch/fhnw/huffman/commands/EncodeCommand.java:28 | seven bits modulo eight get a whole extra zero byte of filler |
| EncodeCommand.SevenBitsExample | src/test/ch/fhnw/huffman/commands/EncodeCommandTest.java:18-23 | "1111000" pads to "1111000100000000" |
| EncodeCommand.PadExamples | src/test/ch/fhnw/huffman/commands/EncodeCommandTest.java:11-30 | "11110000" pads to "1111000010000000" and "1111" to "11111000" |
| EncodeCommand.ZeroByteExample | src/test/ch/fhnw/huffman/commands/EncodeCommandTest.java:32-65 | "00000000" packs to {0} and sixteen zeros to {0, 0} |
| EncodeCommand.NegativeByteExample | src/test/ch/fhnw/huffman/commands/EncodeCommandTest.java:39-44 | "10000000" packs to {-128} |
| EncodeCommand.PositiveByteExample | src/test/ch/fhnw/huffman/commands/EncodeCommandTest.java:46-51 | "01000000" packs to {64} |
| EncodeCommand.ZebraBytesExample | src/test/ch/fhnw/huffman/commands/EncodeCommandTest.java:53-58 | "1010101001010101" packs to {-86, 85} |
| DecodeCommand.ToBinaryString | src/main/ch/fhnw/huffman/commands/DecodeCommand.java:24-26 | as written: a non-negative byte renders as its value in one to seven digits without leading zeros, a negative one in 32 digits of its sign-extended int |
| DecodeCommand.ToBinaryStringNeverEight | src/main/ch/fhnw/huffman/commands/DecodeCommand.java:24-26 | as written, no byte ever renders as eight digits |
| DecodeCommand.Render8 | src/test/ch/fhnw/huffman/commands/DecodeCommandTest.java:10-35 | the eight-digit rendering the tests expect: exactly eight binary digits worth the byte's unsigned value |
| DecodeCommand.FixedBinaryValue | src/test/ch/fhnw/huffman/commands/DecodeCommandTest.java:10-35 | below 2^n, the n-digit zero-padded binary rendering reads back as the value |
| DecodeCommand.FixedBinaryDigits | src/test/ch/fhnw/huffman/commands/DecodeCommandTest.java:10-35 | any binary digits, read as a value and rendered again at the same width, are the same digits |
| DecodeCommand.Render8Parse | src/main/ch/fhnw/huffman/commands/EncodeCommand.java:31 | the eight-digit rendering parsed and cast back is the byte |
| DecodeCommand.RenderGroup | src/main/ch/fhnw/huffman/commands/EncodeCommand.java:31 | a group of eight bits, parsed, cast and rendered, is the group again |
| DecodeCommand.RemoveFiller | src/main/ch/fhnw/huffman/commands/DecodeCommand.java:28 | the result is everything before the last '1'; without any '1' the cut fails |
| DecodeCommand.UnpackBytes | src/main/ch/fhnw/huffman/commands/DecodeCommand.java:22-28 | the loop renders each byte and removes the filler |
| DecodeCommand.Unpack | src/main/ch/fhnw/huffman/commands/DecodeCommand.java:22-28 | with eight-digit rendering, a result is a bit string shorter than eight bits per byte; the only failure is the missing sentinel |
| DecodeCommand.UnpackAsWritten | src/main/ch/fhnw/huffman/commands/DecodeCommand.java:22-28 | as written, a result is a bit string; the only failure is the missing sentinel |
| DecodeCommand.RenderedBits | src/main/ch/fhnw/huffman/commands/DecodeCommand.java:22-26 | rendering every byte with a renderer that yields bits gives a bit string |
| DecodeCommand.Render8Length | src/main/ch/fhnw/huffman/commands/DecodeCommand.java:22-26 | eight-digit rendering gives eight characters per byte |
| DecodeCommand.RenderPacked | src/main/ch/fhnw/huffman/commands/DecodeCommand.java:22-26 | rendering the packed bytes gives back the padded bit string |
| DecodeCommand.PackUnpack | src/main/ch/fhnw/huffman/commands/DecodeCommand.java:22-28 | every bit string packs, and unpacking its bytes gives it back |
| DecodeCommand.ZeroBytesUnreadable | src/main/ch/fhnw/huffman/commands/DecodeCommand.java:28 | a file of zero bytes has no sentinel and cannot be unpacked |
| DecodeCommand.RenderExamples | src/test/ch/fhnw/huffman/commands/DecodeCommandTest.java:10-35 | 0, -128 and 127 render as "00000000", "10000000", "01111111" |
| DecodeCommand.RemoveFillerExamples | src/test/ch/fhnw/huffman/commands/DecodeCommandTest.java:37-65 | the four filler cases of the tests |
| DecodeCommand.AsWrittenLosesBits | src/main/ch/fhnw/huffman/commands/DecodeCommand.java:24-28 | as written, the single bit "0" packs to {64} and unpacks to the empty string |
| HuffmanEncoding.FromPlainText | src/main/ch/fhnw/huffman/HuffmanEncoding.java:34-40 | an empty text is refused and nothing else is; otherwise the table is a binary prefix code for exactly the text's units, the encoded text is the text's codes, and decoding it gives back the text; the table is the (corrected) code table of the greedy tree of an occurrence list of the text |
| HuffmanEncoding.FromEncodingSpec | src/main/ch/fhnw/huffman/HuffmanEncoding.java:24-46 | a successful result keeps the given bits and the parsed scheme |
| HuffmanEncoding.FromEncoding | src/main/ch/fhnw/huffman/HuffmanEncoding.java:24-46 | parse the scheme, then decode the bits with it |
| HuffmanEncoding.EncodingWritable | src/main/ch/fhnw/huffman/HuffmanEncoding.java:57-62 | the table of a non-empty text can be written as a scheme |
| HuffmanEncoding.FileRoundTrip | src/main/ch/fhnw/huffman/commands/EncodeCommand.java:19-21 | the written scheme in any order and the packed bytes give back the encoding and its text |
| HuffmanEncoding.AsWrittenSingleSymbol | src/main/ch/fhnw/huffman/HuffmanEncoding.java:145-160 | as written, a text of one repeated unit gets the empty code, encodes to nothing and decodes to the empty text |
| HuffmanEncoding.CorrectedSingleSymbol | src/main/ch/fhnw/huffman/HuffmanEncoding.java:145-160 | with the corrected table the same text decodes back |
| JavaLib.ParseInt | src/main/ch/fhnw/huffman/HuffmanEncoding.java:29 | a parsed value fits in 32 bits and digits of such a value parse to it |
| JavaLib.ParseFormatInt | src/main/ch/fhnw/huffman/HuffmanEncoding.java:59 | `%d` formatting of a 32-bit int parses back to it |
| JavaLib.SplitJoin | src/main/ch/fhnw/huffman/HuffmanEncoding.java:27-28 | splitting a join of non-empty, separator-free parts gives back the parts |
| JavaLib.LastIndexOf | src/main/ch/fhnw/huffman/commands/DecodeCommand.java:28 | the index found holds the character and no later one does, or it is -1 |
| JavaLib.ToByte | src/main/ch/fhnw/huffman/commands/EncodeCommand.java:31 | the (byte) cast keeps the value modulo 256 |

## Left out

- Console dialogue, path prompts, file reading and writing (`FileUtil`, `ConsoleUtil`, `CommandUtil`, the `askFor…` helpers) and the program entry `Huffman.java`. These are I/O. The commands are modelled from the text or bytes they read to the text or bytes they write.
- Pair.java is not used by the core and is not part of this model.
- The caller's occurrence list, which `computeEncodingTree` mutates in place, is modelled as a value (`seq`). Aliasing of that list is not modelled.
- Parallel streams are modelled as an arbitrary order; concurrency itself is not modelled.
- HuffmanTree.BuildTree and `Occurrences.Count` use unbounded integers. A count above 2^31-1 would overflow the source's `Integer`; that is not modelled.
- JavaLib.ParseInt accepts ASCII digits only; `Integer.parseInt` also accepts other Unicode decimal digits.
- JavaLib.Split models `String.split` with a single literal character only, which is all the core uses.
- Transcoder.DecodeWith: when no prefix of the remaining bits is a code, `decodeText` loops forever. The model returns an `UndecodableSequence` error instead.
- Transcoder.ReverseEncoding: the `IllegalStateException` that `toMap` throws on a duplicate code is modelled as a `DuplicateCode` error.
- Scheme.ParseEntry: the exceptions of `fromEncoding` (a missing field, a bad number) are modelled as a `MalformedScheme` error.
- EncodeCommand.Pad: for a bit string of length 7 modulo 8, the code appends a whole zero byte after the sentinel. The test `testPadEncodedText_padsOneBit` expects "11110001" instead. The model follows the code (`EncodeCommand.SevenBitsExample`), which still unpacks correctly.
- The command tests call helpers that the commands do not declare (`padEncodedText` returning a string, `binStringToByteArr`, `stringifyEncodedText`, `removeFiller`). They are matched to the corresponding steps of `padEncodedText` and `execute`.
- HuffmanEncoding.FromPlainText uses `CodeTable.CorrectedEncodingTable` (see Findings). The as-written table is `CodeTable.ComputeEncodingTable`.
- DecodeCommand.UnpackBytes uses the eight-digit rendering `DecodeCommand.Render8` (see Findings). The as-written rendering is `DecodeCommand.ToBinaryString`, in `DecodeCommand.UnpackAsWritten`.

## Findings

| source | as written | input that shows it | evidently intended | confidence | as-written member | corrected member |
|---|---|---|---|---|---|---|
| src/main/ch/fhnw/huffman/HuffmanEncoding.java:145-160 | a tree that is a single leaf gives that unit the empty code | the text "aaaa": its code is "", the encoded text is empty and decodes to "" | every unit gets a non-empty code, for example "0" for a lone leaf, so the text round-trips | high (not executed) | `HuffmanEncoding.AsWrittenSingleSymbol` | `CodeTable.CorrectedEncodingTable`, `HuffmanEncoding.CorrectedSingleSymbol` |
| src/main/ch/fhnw/huffman/commands/DecodeCommand.java:24-26 | each byte is rendered with `Integer.toBinaryString`: leading zeros are dropped and negative bytes give 32 digits | the bit string "0" packs to the byte 64, which renders as "1000000", and the filler cut leaves "" | each byte renders as exactly eight digits (as the decode tests expect), so unpacking inverts packing | high (not executed) | `DecodeCommand.AsWrittenLosesBits`, `DecodeCommand.ToBinaryStringNeverEight` | `DecodeCommand.Render8`, `DecodeCommand.PackUnpack` |
