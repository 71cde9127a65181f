/** Occurrence counting (HuffmanEncoding.buildOccurrenceTable). */
module Occurrences {
  import opened Base
  import opened HuffmanTree

  /** How many times `c` occurs in `text`. */
  function Count(text: Text, c: int): (n: nat)
    ensures n <= |text|
    ensures n > 0 <==> c in text
  {
    if text == [] then 0
    else
      var init := text[..|text| - 1];
      assert text == init + [text[|text| - 1]];
      Count(init, c) + (if text[|text| - 1] == c then 1 else 0)
  }

  /** The distinct code units of `text`. */
  function UnitSet(text: Text): set<int>
  {
    set i | 0 <= i < |text| :: text[i] as int
  }

  /**
   * What buildOccurrenceTable returns, in whatever order the HashMap's entry
   * set yields: leaf items only, each counting its symbol in `text`, and every
   * distinct unit of `text` exactly once.
   */
  predicate IsOccurrenceList(items: seq<Item>, text: Text)
  {
    CountedLeaves(items, text) && ItemsBag(items) == multiset(UnitSet(text))
  }

  /** Every item is a leaf carrying the number of times its unit occurs in `text`. */
  predicate CountedLeaves(items: seq<Item>, text: Text)
  {
    forall i :: 0 <= i < |items| ==> items[i].node.Leaf? && items[i].count == Count(text, items[i].node.c)
  }

  lemma AppendCounted(items: seq<Item>, item: Item, text: Text)
    requires CountedLeaves(items, text)
    requires item.node.Leaf? && item.count == Count(text, item.node.c)
    ensures CountedLeaves(items + [item], text)
  {
    var s := items + [item];
    forall i | 0 <= i < |s|
      ensures s[i].node.Leaf? && s[i].count == Count(text, s[i].node.c)
    {
      if i < |items| {
        assert s[i] == items[i];
      }
    }
  }

  lemma AppendItem(items: seq<Item>, x: Item)
    ensures ItemsBag(items + [x]) == ItemsBag(items) + multiset(Leaves(x.node))
  {
    var s := items + [x];
    SplitOff(s, |items|);
    assert s[..|items|] == items;
    assert s[|items|..] == [x];
    assert [x][1..] == [];
  }

  /** The counting half of buildOccurrenceTable: a map from each unit to its count. */
  method CountOccurrences(input: Text) returns (occurrences: map<int, nat>)
    ensures occurrences.Keys == UnitSet(input)
    ensures forall c :: c in occurrences ==> occurrences[c] == Count(input, c)
  {
    occurrences := map[];
    for i := 0 to |input|
      invariant forall c :: c in occurrences <==> c in input[..i]
      invariant forall c :: c in occurrences ==> occurrences[c] == Count(input[..i], c)
    {
      var c := input[i];
      assert input[..i + 1][..i] == input[..i];
      assert input[..i + 1] == input[..i] + [c];
      if c in occurrences {
        occurrences := occurrences[c := occurrences[c] + 1];
      } else {
        occurrences := occurrences[c := 1];
      }
    }
    assert input[..|input|] == input;
    forall c | c in occurrences.Keys
      ensures c in UnitSet(input)
    {
      var i :| 0 <= i < |input| && input[i] == c;
    }
  }

  /**
   * buildOccurrenceTable: count every unit, then turn each map entry into a
   * leaf item. The map's iteration order is not fixed, so the keys are taken in
   * an arbitrary order.
   */
  method BuildOccurrenceTable(input: Text) returns (items: seq<Item>)
    ensures IsOccurrenceList(items, input)
  {
    var occurrences := CountOccurrences(input);
    items := [];
    var remaining := occurrences.Keys;
    while remaining != {}
      invariant remaining <= occurrences.Keys
      invariant CountedLeaves(items, input)
      invariant ItemsBag(items) == multiset(occurrences.Keys - remaining)
      decreases |remaining|
    {
      assert (forall x :: x !in remaining) ==> remaining == {};
      var c :| c in remaining;
      var item := Item(occurrences[c], Leaf(c));
      AddKey(items, item, occurrences.Keys, remaining);
      AppendCounted(items, item, input);
      items := items + [item];
      remaining := remaining - {c};
    }
  }

  /** Moving one key out of `remaining` adds its leaf to the listed items. */
  lemma AddKey(items: seq<Item>, item: Item, keys: set<int>, remaining: set<int>)
    requires item.node.Leaf? && item.node.c in remaining && remaining <= keys
    requires ItemsBag(items) == multiset(keys - remaining)
    ensures ItemsBag(items + [item]) == multiset(keys - (remaining - {item.node.c}))
  {
    var c := item.node.c;
    AppendItem(items, item);
    assert keys - (remaining - {c}) == (keys - remaining) + {c};
    assert c !in keys - remaining;
  }

  /**
   * An occurrence list has one item per distinct unit, no symbol twice, and
   * every count at least one.
   */
  lemma OccurrenceListFacts(items: seq<Item>, text: Text)
    requires IsOccurrenceList(items, text)
    ensures |items| == |UnitSet(text)|
    ensures forall i :: 0 <= i < |items| ==> items[i].count >= 1 && items[i].node.c in text
    ensures forall i, j :: 0 <= i < j < |items| ==> items[i].node != items[j].node
    ensures text == [] <==> items == []
  {
    LeafItemsSize(items);
    forall i | 0 <= i < |items|
      ensures items[i].count >= 1 && items[i].node.c in text
    {
      SplitAt(items, i);
      assert items[i].node.c in ItemsBag(items);
    }
    forall i, j | 0 <= i < j < |items|
      ensures items[i].node != items[j].node
    {
      var c := items[j].node.c;
      SplitAt(items, j);
      SplitAt(items[..j], i);
      assert ItemsBag(items)[c] == 1;
      assert ItemsBag(items[..j])[c] == 0;
      assert items[i].node.c != c;
    }
    if text != [] {
      assert text[0] as int in UnitSet(text);
    }
  }

  lemma {:induction false} LeafItemsSize(items: seq<Item>)
    requires forall i :: 0 <= i < |items| ==> items[i].node.Leaf?
    ensures |ItemsBag(items)| == |items|
  {
    if items != [] {
      LeafItemsSize(items[1..]);
    }
  }
}
