/** The textual code scheme (stringifiedEncoding, fromEncoding's parsing half). */
module Scheme {
  import opened Base
  import opened JavaLib

  /** `String.format("%d:%s", key, code)` */
  function Entry(k: int, code: string): (e: string)
    ensures |e| > |code| && e[|e| - |code| - 1] == ':' && e[|e| - |code|..] == code
    ensures 0 <= k ==> ':' !in e[..|e| - |code| - 1]
    ensures 0 <= k ==> ('-' in e <==> '-' in code)
  {
    var e := FormatInt(k) + ":" + code;
    assert e[..|FormatInt(k)|] == FormatInt(k) && e[|FormatInt(k)|] == ':';
    assert forall x :: x in e <==> x in FormatInt(k) || x == ':' || x in code;
    if 0 <= k then FormatNonNegative(k); e else e
  }

  /** `order` lists every key of `t` exactly once: one iteration order of the map's entry set. */
  predicate Enumerates(order: seq<int>, t: map<int, string>)
  {
    && (forall k :: k in t ==> k in order)
    && (forall i :: 0 <= i < |order| ==> order[i] in t)
    && (forall i, j :: 0 <= i < j < |order| ==> order[i] != order[j])
  }

  function EntriesOf(t: map<int, string>, order: seq<int>): (es: seq<string>)
    requires forall i :: 0 <= i < |order| ==> order[i] in t
    ensures |es| == |order|
    ensures forall i :: 0 <= i < |order| ==> es[i] == Entry(order[i], t[order[i]])
  {
    seq(|order|, i requires 0 <= i < |order| => Entry(order[i], t[order[i]]))
  }

  /** stringifiedEncoding: the entries, in the map's iteration order, joined by '-'. */
  function Stringify(t: map<int, string>, order: seq<int>): (s: string)
    requires Enumerates(order, t)
    ensures Writable(t) && order != [] ==> Split(s, '-') == EntriesOf(t, order)
  {
    var s := Join(EntriesOf(t, order), '-');
    if Writable(t) && order != [] then
      EntriesSeparable(t, order);
      SplitJoin(EntriesOf(t, order), '-');
      s
    else s
  }

  /**
   * One entry of fromEncoding: split on ':', read field 0 as a decimal int and
   * take field 1 as the code (further fields are ignored). A missing field or a
   * bad number throws in the source.
   */
  function ParseEntry(e: string): (r: Result<(int, string)>)
    ensures r.Err? ==> r.error == MalformedScheme
    ensures r.Ok? <==> |Split(e, ':')| >= 2 && ParseInt(Split(e, ':')[0], 10).Some?
    ensures r.Ok? ==> r.value == (ParseInt(Split(e, ':')[0], 10).value, Split(e, ':')[1])
    ensures r.Ok? ==> ':' !in r.value.1 && IntMin <= r.value.0 <= IntMax
  {
    var parts := Split(e, ':');
    if |parts| < 2 then Err(MalformedScheme)
    else
      match ParseInt(parts[0], 10)
      case None => Err(MalformedScheme)
      case Some(k) => Ok((k, parts[1]))
  }

  /** The forEach of fromEncoding: put every entry into the map in turn, a later key overriding. */
  function ParseEntries(fs: seq<string>, acc: map<int, string>): (r: Result<map<int, string>>)
    ensures r.Ok? ==> acc.Keys <= r.value.Keys
    ensures r.Ok? ==> forall k :: k in r.value ==> (k in acc && r.value[k] == acc[k]) || (IntMin <= k <= IntMax && ':' !in r.value[k])
    ensures r.Err? ==> r.error == MalformedScheme
  {
    if fs == [] then Ok(acc)
    else
      match ParseEntry(fs[0])
      case Err(e) => Err(e)
      case Ok(kc) => ParseEntries(fs[1..], acc[kc.0 := kc.1])
  }

  /** The scheme parsed by fromEncoding. */
  function ParseScheme(s: string): (r: Result<map<int, string>>)
    ensures r.Err? ==> r.error == MalformedScheme
    ensures r.Ok? ==> forall k :: k in r.value ==> IntMin <= k <= IntMax && ':' !in r.value[k]
  {
    ParseEntries(Split(s, '-'), map[])
  }

  /** The parsing loop of fromEncoding. */
  method ReadScheme(encoding: string) returns (r: Result<map<int, string>>)
    ensures r == ParseScheme(encoding)
  {
    var entries := Split(encoding, '-');
    var encodingMap: map<int, string> := map[];
    for i := 0 to |entries|
      invariant ParseScheme(encoding) == ParseEntries(entries[i..], encodingMap)
    {
      var part := ParseEntry(entries[i]);
      if part.Err? {
        return Err(part.error);
      }
      encodingMap := encodingMap[part.value.0 := part.value.1];
    }
    return Ok(encodingMap);
  }

  /** The codes of `t` at the keys listed in `order`. */
  function Restrict(t: map<int, string>, order: seq<int>): (r: map<int, string>)
    ensures r.Keys == set k | k in t && k in order
    ensures forall k :: k in r ==> r[k] == t[k]
  {
    map k | k in t && k in order :: t[k]
  }

  /** A key the scheme format can carry and a code it can carry. */
  predicate Writable(t: map<int, string>)
  {
    forall k :: k in t ==> 0 <= k <= IntMax && t[k] != [] && '-' !in t[k] && ':' !in t[k]
  }

  /** An entry the writer produced is read back as its key and code. */
  lemma ParseWrittenEntry(k: int, code: string)
    requires 0 <= k <= IntMax && code != [] && ':' !in code
    ensures ParseEntry(Entry(k, code)) == Ok((k, code))
  {
    FormatNonNegative(k);
    assert Entry(k, code) == Join([FormatInt(k), code], ':');
    SplitJoin([FormatInt(k), code], ':');
    ParseFormatInt(k);
  }

  /** Writing key `order[0]` and then the rest adds up to writing all of `order`. */
  lemma RestrictCons(t: map<int, string>, order: seq<int>, acc: map<int, string>)
    requires order != [] && order[0] in t
    ensures acc[order[0] := t[order[0]]] + Restrict(t, order[1..]) == acc + Restrict(t, order)
  {
    var k := order[0];
    assert forall x :: x in order <==> x == k || x in order[1..];
  }

  lemma {:induction false} ParseEntriesOf(t: map<int, string>, order: seq<int>, acc: map<int, string>)
    requires Writable(t)
    requires forall i :: 0 <= i < |order| ==> order[i] in t
    ensures ParseEntries(EntriesOf(t, order), acc) == Ok(acc + Restrict(t, order))
  {
    if order == [] {
      assert Restrict(t, order) == map[];
      assert acc + map[] == acc;
    } else {
      var k := order[0];
      var es, rest := EntriesOf(t, order), EntriesOf(t, order[1..]);
      assert es[0] == Entry(k, t[k]) && es[1..] == rest;
      ParseWrittenEntry(k, t[k]);
      assert ParseEntries(es, acc) == ParseEntries(rest, acc[k := t[k]]);
      ParseEntriesOf(t, order[1..], acc[k := t[k]]);
      RestrictCons(t, order, acc);
    }
  }

  /** Written entries are non-empty and free of the entry separator. */
  lemma EntriesSeparable(t: map<int, string>, order: seq<int>)
    requires Writable(t)
    requires forall i :: 0 <= i < |order| ==> order[i] in t
    ensures forall i :: 0 <= i < |order| ==> EntriesOf(t, order)[i] != [] && '-' !in EntriesOf(t, order)[i]
  {
    var es := EntriesOf(t, order);
    forall i | 0 <= i < |es|
      ensures es[i] != [] && '-' !in es[i]
    {
      var k := order[i];
      FormatNonNegative(k);
      assert es[i] == FormatInt(k) + [':'] + t[k];
    }
  }

  /**
   * fromEncoding reads back what stringifiedEncoding wrote, whatever the entry
   * order, provided the table is non-empty, its keys are non-negative ints and
   * its codes are non-empty and hold neither '-' nor ':'.
   */
  lemma StringifyParse(t: map<int, string>, order: seq<int>)
    requires Enumerates(order, t) && |t| > 0 && Writable(t)
    ensures ParseScheme(Stringify(t, order)) == Ok(t)
  {
    assert (forall x :: x !in t.Keys) ==> t.Keys == {};
    var k :| k in t.Keys;
    assert k in order;
    EntriesSeparable(t, order);
    SplitJoin(EntriesOf(t, order), '-');
    ParseEntriesOf(t, order, map[]);
    RestrictAll(t, order);
  }

  lemma RestrictAll(t: map<int, string>, order: seq<int>)
    requires forall k :: k in t ==> k in order
    ensures map[] + Restrict(t, order) == t
  {
    var r := Restrict(t, order);
    forall k | k in t
      ensures k in r
    {
      assert k in order;
    }
    assert r.Keys == t.Keys;
    assert forall k :: k in r ==> r[k] == t[k];
    assert r == t;
  }

  /** An entry with an empty code ("97:") cannot be read: splitting drops the empty field. */
  lemma EmptyCodeUnreadable(k: int)
    requires 0 <= k <= IntMax
    ensures ParseScheme(Stringify(map[k := ""], [k])).Err?
  {
    var e := Entry(k, "");
    FormatNonNegative(k);
    assert Stringify(map[k := ""], [k]) == e;
    assert e == FormatInt(k) + [':'] + [];
    FieldsAfterPiece(FormatInt(k), ':', []);
    assert e[|FormatInt(k)|] == ':';
    var fs := Fields(e, ':');
    assert fs == [FormatInt(k), []];
    assert fs[..1] == [FormatInt(k)];
    assert DropTrailingEmpty(fs) == DropTrailingEmpty([FormatInt(k)]);
    assert DropTrailingEmpty([FormatInt(k)]) == [FormatInt(k)];
    assert ':' in e;
    assert Split(e, ':') == [FormatInt(k)];
  }

  /** The empty scheme is not a scheme. */
  lemma EmptySchemeUnreadable()
    ensures ParseScheme("") == Err(MalformedScheme)
  {
    assert Split("", '-') == [""];
    assert Split("", ':') == [""];
  }

  /** The stringifiedEncoding test: {97: "0", 98: "1"} in either order. */
  lemma StringifyExample()
    ensures Stringify(map[97 := "0", 98 := "1"], [97, 98]) == "97:0-98:1"
    ensures Stringify(map[97 := "0", 98 := "1"], [98, 97]) == "98:1-97:0"
  {
    ExampleEntries();
    ExampleJoins();
  }

  lemma ExampleEntries()
    ensures EntriesOf(map[97 := "0", 98 := "1"], [97, 98]) == ["97:0", "98:1"]
    ensures EntriesOf(map[97 := "0", 98 := "1"], [98, 97]) == ["98:1", "97:0"]
  {
    ExampleKeys();
    assert Entry(97, "0") == "97:0" && Entry(98, "1") == "98:1";
  }

  lemma ExampleJoins()
    ensures Join(["97:0", "98:1"], '-') == "97:0-98:1"
    ensures Join(["98:1", "97:0"], '-') == "98:1-97:0"
  {
  }

  lemma ExampleKeys()
    ensures FormatInt(97) == "97" && FormatInt(98) == "98"
  {
    assert Digits(9, 10) == "9";
  }
}
