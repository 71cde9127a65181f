/** Code-table derivation (HuffmanEncoding.computeEncodingTable / recComputeEncodingTable). */
module CodeTable {
  import opened Base
  import opened HuffmanTree

  /**
   * recComputeEncodingTable: walk the tree, writing each leaf's path into the
   * table `e` ('0' for a left step, '1' for a right step, after `prefix`). The
   * map is threaded left to right, so a symbol met twice keeps its right-most path.
   */
  function Paths(node: Node, prefix: string, e: map<int, string>): (t: map<int, string>)
    ensures t.Keys == e.Keys + LeafSet(node)
    ensures forall c :: c in e && c !in LeafSet(node) ==> t[c] == e[c]
  {
    match node
    case Leaf(c) => e[c := prefix]
    case Branch(l, r) =>
      assert LeafSet(node) == LeafSet(l) + LeafSet(r);
      Paths(r, prefix + "1", Paths(l, prefix + "0", e))
  }

  /** computeEncodingTable, as written: a leaf root gets the empty code. */
  function ComputeEncodingTable(root: Node): (t: map<int, string>)
    ensures t.Keys == LeafSet(root)
    ensures root.Leaf? ==> t == map[root.c := ""]
  {
    Paths(root, "", map[])
  }

  function PrefixAll(p: string, m: map<int, string>): (r: map<int, string>)
    ensures r.Keys == m.Keys
    ensures forall k :: k in r ==> r[k] == p + m[k]
  {
    map k | k in m :: p + m[k]
  }

  function LeafSet(node: Node): set<int>
  {
    set c | c in Leaves(node)
  }

  /**
   * The codes of a tree defined by its structure: the left subtree's codes
   * behind '0', the right subtree's behind '1', the right one winning a clash.
   */
  function Codes(node: Node): (t: map<int, string>)
    ensures t.Keys == LeafSet(node)
    ensures forall c :: c in t ==> IsBits(t[c])
    ensures node.Branch? ==> forall c :: c in t ==> t[c] != []
  {
    match node
    case Leaf(c) => map[c := ""]
    case Branch(l, r) =>
      var t := PrefixAll("0", Codes(l)) + PrefixAll("1", Codes(r));
      assert LeafSet(node) == LeafSet(l) + LeafSet(r);
      t
  }

  lemma PrefixAllTwice(p: string, q: string, m: map<int, string>)
    ensures PrefixAll(p + q, m) == PrefixAll(p, PrefixAll(q, m))
  {
    forall k | k in m
      ensures (p + q) + m[k] == p + (q + m[k])
    {
    }
  }

  lemma PrefixAllEmpty(m: map<int, string>)
    ensures PrefixAll("", m) == m
  {
    forall k | k in m
      ensures "" + m[k] == m[k]
    {
    }
  }

  lemma PrefixAllUnion(p: string, x: map<int, string>, y: map<int, string>)
    ensures PrefixAll(p, x + y) == PrefixAll(p, x) + PrefixAll(p, y)
  {
  }

  lemma MergeAssoc(e: map<int, string>, x: map<int, string>, y: map<int, string>)
    ensures (e + x) + y == e + (x + y)
  {
  }

  /** The accumulating walk computes the structural table. */
  lemma {:induction false} PathsCodes(node: Node, prefix: string, e: map<int, string>)
    ensures Paths(node, prefix, e) == e + PrefixAll(prefix, Codes(node))
  {
    match node
    case Leaf(c) =>
      assert prefix + "" == prefix;
      assert PrefixAll(prefix, Codes(node)) == map[c := prefix];
    case Branch(l, r) =>
      var e1 := Paths(l, prefix + "0", e);
      PathsCodes(l, prefix + "0", e);
      PathsCodes(r, prefix + "1", e1);
      var a, b := PrefixAll(prefix + "0", Codes(l)), PrefixAll(prefix + "1", Codes(r));
      MergeAssoc(e, a, b);
      BranchCodes(prefix, Codes(l), Codes(r));
  }

  /** Prefixing both halves of a branch's table is prefixing the branch's table. */
  lemma BranchCodes(prefix: string, cl: map<int, string>, cr: map<int, string>)
    ensures PrefixAll(prefix + "0", cl) + PrefixAll(prefix + "1", cr)
         == PrefixAll(prefix, PrefixAll("0", cl) + PrefixAll("1", cr))
  {
    PrefixAllTwice(prefix, "0", cl);
    PrefixAllTwice(prefix, "1", cr);
    PrefixAllUnion(prefix, PrefixAll("0", cl), PrefixAll("1", cr));
  }

  /** No code is a prefix of another symbol's code. */
  predicate PrefixFree(t: map<int, string>)
  {
    forall a, b :: a in t && b in t && a != b ==> !(t[a] <= t[b])
  }

  lemma PrefixCancel(x: char, u: string, v: string)
    ensures ([x] + u <= [x] + v) == (u <= v)
  {
    if [x] + u <= [x] + v {
      assert u == ([x] + u)[1..] && v[..|u|] == ([x] + v)[1..|u| + 1];
    }
  }

  /** Leaf paths never extend one another, so the structural table is prefix-free. */
  lemma {:induction false} CodesPrefixFree(node: Node)
    ensures PrefixFree(Codes(node))
  {
    match node
    case Leaf(c) =>
    case Branch(l, r) =>
      CodesPrefixFree(l);
      CodesPrefixFree(r);
      var cl, cr := Codes(l), Codes(r);
      var left, right := PrefixAll("0", cl), PrefixAll("1", cr);
      var t := Codes(node);
      forall a, b | a in t && b in t && a != b
        ensures !(t[a] <= t[b])
      {
        if a in right && b in right {
          PrefixCancel('1', cr[a], cr[b]);
        } else if a !in right && b !in right {
          PrefixCancel('0', cl[a], cl[b]);
        } else {
          assert t[a][0] != t[b][0];
        }
      }
  }

  predicate Distinct(s: seq<int>)
  {
    forall i, j :: 0 <= i < j < |s| ==> s[i] != s[j]
  }

  lemma {:induction false} DistinctSize(s: seq<int>)
    requires Distinct(s)
    ensures |set c | c in s| == |s|
  {
    if s != [] {
      DistinctSize(s[1..]);
      assert (set c | c in s) == (set c | c in s[1..]) + {s[0]};
      assert s[0] !in s[1..];
    }
  }

  /**
   * For a branch root the derived table gives every leaf symbol a non-empty
   * binary code, no code is a prefix of another, and with distinct leaf
   * symbols there is one entry per leaf.
   */
  lemma EncodingTableIsPrefixCode(root: Node)
    requires root.Branch?
    ensures ComputeEncodingTable(root).Keys == LeafSet(root)
    ensures forall c :: c in ComputeEncodingTable(root) ==> ComputeEncodingTable(root)[c] != [] && IsBits(ComputeEncodingTable(root)[c])
    ensures PrefixFree(ComputeEncodingTable(root))
    ensures Distinct(Leaves(root)) ==> |ComputeEncodingTable(root)| == |Leaves(root)|
  {
    PathsCodes(root, "", map[]);
    PrefixAllEmpty(Codes(root));
    CodesPrefixFree(root);
    if Distinct(Leaves(root)) {
      DistinctSize(Leaves(root));
    }
  }

  /**
   * The table that gives a lone leaf the one-bit code "0", so that a text of
   * one repeated unit round-trips; for a branch root it is the computed table.
   */
  function CorrectedEncodingTable(root: Node): (t: map<int, string>)
    ensures t.Keys == LeafSet(root)
    ensures forall c :: c in t ==> t[c] != [] && IsBits(t[c])
    ensures PrefixFree(t)
  {
    if root.Leaf? then
      map[root.c := "0"]
    else
      EncodingTableIsPrefixCode(root);
      ComputeEncodingTable(root)
  }

  /** A two-leaf branch below `prefix` adds the two extended codes. */
  lemma PairPaths(a: int, b: int, prefix: string, e: map<int, string>)
    ensures Paths(Branch(Leaf(a), Leaf(b)), prefix, e) == e[a := prefix + "0"][b := prefix + "1"]
  {
    assert Paths(Leaf(a), prefix + "0", e) == e[a := prefix + "0"];
  }

  /** The two tables the test suite pins down (there with 'a'..'d'). */
  lemma OneSidedTree(a: int, b: int, c: int)
    requires a != b && b != c && a != c
    ensures ComputeEncodingTable(Branch(Branch(Leaf(a), Leaf(b)), Leaf(c))) == map[a := "00", b := "01", c := "1"]
  {
    var e0: map<int, string> := map[];
    PairPaths(a, b, "0", e0);
    assert "" + "0" == "0" && "0" + "0" == "00" && "0" + "1" == "01" && "" + "1" == "1";
    assert Paths(Leaf(c), "" + "1", e0[a := "00"][b := "01"]) == map[a := "00", b := "01", c := "1"];
  }

  lemma BalancedTree(a: int, b: int, c: int, d: int)
    requires a != b && a != c && a != d && b != c && b != d && c != d
    ensures ComputeEncodingTable(Branch(Branch(Leaf(a), Leaf(b)), Branch(Leaf(c), Leaf(d))))
         == map[a := "00", b := "01", c := "10", d := "11"]
  {
    var e0: map<int, string> := map[];
    PairPaths(a, b, "0", e0);
    var e1 := e0[a := "00"][b := "01"];
    assert "" + "0" == "0" && "0" + "0" == "00" && "0" + "1" == "01";
    PairPaths(c, d, "1", e1);
    assert "" + "1" == "1" && "1" + "0" == "10" && "1" + "1" == "11";
    assert e1[c := "10"][d := "11"] == map[a := "00", b := "01", c := "10", d := "11"];
  }
}
