/**
 * The parts of the Java library the core leans on, with the semantics the core
 * relies on: Integer.parseInt, Integer.toString / "%d", String.split with a
 * one-character literal delimiter, String.lastIndexOf and the (byte) cast.
 */
module JavaLib {
  import opened Base

  const IntMin: int := -0x8000_0000
  const IntMax: int := 0x7FFF_FFFF

  /** Character.digit for the radixes used here (2 and 10): -1 for a non-digit. */
  function DigitOf(ch: char): int
  {
    if '0' <= ch <= '9' then ch as int - '0' as int else -1
  }

  function DigitChar(d: nat): (ch: char)
    requires d < 10
    ensures DigitOf(ch) == d
  {
    ('0' as int + d) as char
  }

  predicate AllDigits(s: string, radix: nat)
  {
    forall i :: 0 <= i < |s| ==> 0 <= DigitOf(s[i]) < radix
  }

  /** The value of a string of digits, most significant first. */
  function DigitsValue(s: string, radix: nat): nat
    requires AllDigits(s, radix)
  {
    if s == [] then 0
    else
      var high := DigitsValue(s[..|s| - 1], radix);
      MulNonNegative(high, radix);
      high * radix + DigitOf(s[|s| - 1])
  }

  lemma MulNonNegative(a: nat, b: nat)
    ensures a * b >= 0
  {
  }

  lemma DivMod(n: nat, radix: nat)
    requires radix >= 2
    ensures n == (n / radix) * radix + n % radix
    ensures 0 <= n % radix < radix
    ensures n >= radix ==> n / radix < n
  {
  }

  /**
   * Integer.parseInt(s, radix): an optional sign, at least one digit, and a
   * value that fits a 32-bit int; anything else throws NumberFormatException (None).
   */
  function ParseInt(s: string, radix: nat): (r: Option<int>)
    requires 2 <= radix <= 10
    ensures r.Some? ==> IntMin <= r.value <= IntMax
    ensures r.Some? ==> |s| > 0
    ensures |s| > 0 && AllDigits(s, radix) && DigitsValue(s, radix) <= IntMax ==> r == Some(DigitsValue(s, radix))
  {
    if |s| == 0 then None
    else
      var signed := s[0] == '-' || s[0] == '+';
      var digits := if signed then s[1..] else s;
      if |digits| == 0 || !AllDigits(digits, radix) then None
      else
        var magnitude: int := DigitsValue(digits, radix);
        var v := if s[0] == '-' then -magnitude else magnitude;
        if IntMin <= v <= IntMax then Some(v) else None
  }

  /** Integer.toString(n, radix) for n >= 0: the digits without leading zeros ("0" for zero). */
  function Digits(n: nat, radix: nat): (s: string)
    requires 2 <= radix <= 10
    ensures |s| >= 1 && AllDigits(s, radix)
    ensures DigitsValue(s, radix) == n
    ensures |s| > 1 ==> s[0] != '0'
    decreases n
  {
    if n < radix then [DigitChar(n)]
    else
      DivMod(n, radix);
      var high := Digits(n / radix, radix);
      var s := high + [DigitChar(n % radix)];
      assert s[..|s| - 1] == high;
      s
  }

  /** String.format("%d", k) */
  function FormatInt(k: int): (s: string)
    ensures |s| >= 1
  {
    if k < 0 then "-" + Digits(-k, 10) else Digits(k, 10)
  }

  /** "%d" followed by Integer.parseInt gives back every 32-bit int. */
  lemma ParseFormatInt(k: int)
    requires IntMin <= k <= IntMax
    ensures ParseInt(FormatInt(k), 10) == Some(k)
  {
    var s := FormatInt(k);
    if k < 0 {
      assert s[1..] == Digits(-k, 10);
    } else {
      assert DigitOf(s[0]) >= 0;
    }
  }

  /** The decimal rendering of a non-negative int holds neither '-' nor ':'. */
  lemma FormatNonNegative(k: int)
    requires k >= 0
    ensures '-' !in FormatInt(k) && ':' !in FormatInt(k)
  {
    var s := FormatInt(k);
    assert AllDigits(s, 10);
    forall i | 0 <= i < |s|
      ensures s[i] != '-' && s[i] != ':'
    {
      assert DigitOf(s[i]) >= 0;
    }
  }

  /** The pieces of `s` between occurrences of `d`, empty pieces included. */
  function Fields(s: string, d: char): (fs: seq<string>)
    ensures |fs| >= 1
    ensures forall i :: 0 <= i < |fs| ==> d !in fs[i]
  {
    if s == [] then [[]]
    else
      var rest := Fields(s[1..], d);
      if s[0] == d then [[]] + rest else [[s[0]] + rest[0]] + rest[1..]
  }

  function DropTrailingEmpty(fs: seq<string>): (r: seq<string>)
    ensures r <= fs
    ensures r == [] || r[|r| - 1] != []
    ensures forall i :: |r| <= i < |fs| ==> fs[i] == []
  {
    if fs == [] || fs[|fs| - 1] != [] then fs else DropTrailingEmpty(fs[..|fs| - 1])
  }

  /**
   * String.split(d) for a one-character literal delimiter: with no delimiter the
   * whole string is the only field; otherwise the fields with trailing empty
   * ones removed (so the result may be empty).
   */
  function Split(s: string, d: char): (fs: seq<string>)
    ensures forall i :: 0 <= i < |fs| ==> d !in fs[i]
    ensures d !in s ==> fs == [s]
  {
    if d !in s then [s] else DropTrailingEmpty(Fields(s, d))
  }

  /** Collectors.joining(d) */
  function Join(parts: seq<string>, d: char): string
  {
    if parts == [] then []
    else if |parts| == 1 then parts[0]
    else parts[0] + [d] + Join(parts[1..], d)
  }

  lemma {:induction false} FieldsNoDelimiter(s: string, d: char)
    requires d !in s
    ensures Fields(s, d) == [s]
    decreases |s|
  {
    if s != [] {
      FieldsNoDelimiter(s[1..], d);
      assert [s[0]] + s[1..] == s;
    }
  }

  lemma {:induction false} FieldsAfterPiece(p: string, d: char, rest: string)
    requires d !in p
    ensures Fields(p + [d] + rest, d) == [p] + Fields(rest, d)
    decreases |p|
  {
    var s := p + [d] + rest;
    if p == [] {
      assert s[1..] == rest;
    } else {
      assert s[1..] == p[1..] + [d] + rest;
      FieldsAfterPiece(p[1..], d, rest);
      assert [p[0]] + p[1..] == p;
    }
  }

  lemma {:induction false} FieldsJoin(parts: seq<string>, d: char)
    requires |parts| >= 1
    requires forall i :: 0 <= i < |parts| ==> d !in parts[i]
    ensures Fields(Join(parts, d), d) == parts
    decreases |parts|
  {
    if |parts| == 1 {
      FieldsNoDelimiter(parts[0], d);
    } else {
      FieldsJoin(parts[1..], d);
      FieldsAfterPiece(parts[0], d, Join(parts[1..], d));
      assert [parts[0]] + parts[1..] == parts;
    }
  }

  /** Splitting a join of non-empty, delimiter-free pieces gives the pieces back. */
  lemma SplitJoin(parts: seq<string>, d: char)
    requires |parts| >= 1
    requires forall i :: 0 <= i < |parts| ==> parts[i] != [] && d !in parts[i]
    ensures Split(Join(parts, d), d) == parts
  {
    var s := Join(parts, d);
    if |parts| == 1 {
    } else {
      assert s == parts[0] + [d] + Join(parts[1..], d);
      assert s[|parts[0]|] == d;
      FieldsJoin(parts, d);
    }
  }

  /** String.lastIndexOf(ch): the position of the last `ch`, or -1. */
  function LastIndexOf(s: string, ch: char): (k: int)
    ensures -1 <= k < |s|
    ensures k >= 0 ==> s[k] == ch
    ensures forall j :: k < j < |s| ==> s[j] != ch
  {
    if s == [] then -1
    else if s[|s| - 1] == ch then |s| - 1
    else LastIndexOf(s[..|s| - 1], ch)
  }

  function Pow2(n: nat): (p: nat)
    ensures p >= 1
  {
    if n == 0 then 1 else 2 * Pow2(n - 1)
  }

  /** A binary string of length n is worth less than 2^n. */
  lemma {:induction false} DigitsValueBound(s: string)
    requires AllDigits(s, 2)
    ensures DigitsValue(s, 2) < Pow2(|s|)
  {
    if s != [] {
      DigitsValueBound(s[..|s| - 1]);
    }
  }

  /** The (byte) cast: the low eight bits, read as two's complement. */
  function ToByte(v: int): (b: Int8)
    ensures b % 256 == v % 256
  {
    var u := v % 256;
    if u < 128 then u else u - 256
  }
}
