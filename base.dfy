/** Value types shared by every part of the Huffman model. */
module Base {

  /** A UTF-16 code unit, the Java `char`: text is counted, encoded and decoded unit by unit. */
  type CodeUnit = c: int | 0 <= c < 0x1_0000

  /** A Java `String` seen as its sequence of `char`s. */
  type Text = seq<CodeUnit>

  /** A Java `byte`: an 8-bit two's-complement value. */
  type Int8 = b: int | -128 <= b < 128

  /** The ways the core fails; each stands for an exception (or, for one, a hang) of the source. */
  datatype Error =
    | EmptyInput          // IllegalArgumentException: a tree from no occurrences
    | DuplicateCode       // IllegalStateException: two symbols share a code when the reverse map is built
    | UndecodableSequence // a remainder no code is a prefix of: the source loops forever
    | MalformedScheme     // ArrayIndexOutOfBounds- or NumberFormatException while reading a scheme
    | NotBinary           // NumberFormatException: an 8-character group that is not a binary number
    | NoSentinelFound     // StringIndexOutOfBoundsException: unpacked bits hold no '1'

  datatype Result<+T> = Ok(value: T) | Err(error: Error)

  datatype Option<+T> = None | Some(value: T)

  /** A result with `pre` put in front of its value; an error stays as it is. */
  function Prepend<T>(pre: seq<T>, r: Result<seq<T>>): (p: Result<seq<T>>)
    ensures p.Err? <==> r.Err?
    ensures p.Ok? ==> |p.value| == |pre| + |r.value|
    ensures p.Ok? ==> p.value[..|pre|] == pre && p.value[|pre|..] == r.value
  {
    if r.Err? then r else Ok(pre + r.value)
  }

  lemma PrependEmpty<T>(r: Result<seq<T>>)
    ensures Prepend([], r) == r
  {
    if r.Ok? {
      assert [] + r.value == r.value;
    }
  }

  lemma PrependTwice<T>(pre: seq<T>, x: T, r: Result<seq<T>>)
    ensures Prepend(pre, Prepend([x], r)) == Prepend(pre + [x], r)
  {
    if r.Ok? {
      assert pre + ([x] + r.value) == (pre + [x]) + r.value;
    }
  }

  /** A string over the two characters '0' and '1'. */
  predicate IsBits(s: string)
  {
    forall i :: 0 <= i < |s| ==> s[i] == '0' || s[i] == '1'
  }

  /** `"0".repeat(n)` */
  function Zeros(n: nat): (z: string)
    ensures |z| == n && IsBits(z)
    ensures forall i :: 0 <= i < n ==> z[i] == '0'
  {
    seq(n, _ => '0')
  }
}
