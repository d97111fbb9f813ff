/**
 * The HuffmanCodes codec object: it keeps the frequency table of the last
 * text it encoded (`data`) and the node list make_tree returned for it
 * (`nodes`, absent until the first encode). Decoding walks the tree of the
 * last encode.
 *
 * The methods are the source's loops; each is proved against the value-level
 * definitions of HuffmanBuild (Tree) and HuffmanTree (Codes, Walk), about
 * which the round-trip and off-by-one lemmas below are stated.
 */
module Huffman {
  import opened Bits
  import opened Sorting
  import opened HuffmanTree
  import opened HuffmanBuild

  /**
   * The bits encode produces for text: the concatenated codes of its
   * characters in the tree built from text. A text with a single distinct
   * character gets a one-leaf tree and encodes to no bits at all; otherwise
   * every character costs at least one bit.
   */
  function Encoded(text: seq<CodePoint>): (r: seq<Bit>)
    ensures text != [] && Tree(text)[0].Leaf? ==> r == []
    ensures text != [] && Tree(text)[0].Branch? ==> |r| >= |text|
  {
    var tree := Tree(text);
    if tree == [] then []
    else if tree[0].Branch? then
      EveryCharCosts(text);
      Codes(tree[0], text)
    else Codes(tree[0], text)
  }

  lemma EveryCharCosts(text: seq<CodePoint>)
    requires text != [] && Tree(text)[0].Branch?
    ensures |Codes(Tree(text)[0], text)| >= |text|
  {
    TreeShape(text);
    TreeCovers(text);
    CodesLength(Tree(text)[0], text);
  }

  class HuffmanCodes {
    var nodes: Option<seq<Node>>
    var data: seq<Count>

    constructor ()
      ensures nodes == None && data == []
    {
      nodes := None;
      data := [];
    }

    /** A tree is set and decode can restart at its root without looping forever. */
    predicate Ready()
      reads this
    {
      nodes.Some? && nodes.value != [] && Decodable(nodes.value[0])
    }

    /**
     * make_tree: records fill_data(text) in data, makes one leaf per entry,
     * then repeatedly merges the two lowest-frequency nodes of the
     * frequency-sorted list (Merge: codes '0' and '1' on the two, a parent
     * over both) and removes them from the front of the list, until at
     * most one node is left.
     */
    method MakeTree(text: seq<CodePoint>) returns (result: seq<Node>)
      modifies this
      ensures data == FillData(text) && nodes == old(nodes)
      ensures result == Tree(text)
    {
      data := FillData(text);
      var ns: seq<Node> := [];
      var i := 0;
      while i < |data|
        invariant 0 <= i <= |data|
        invariant data == FillData(text) && nodes == old(nodes)
        invariant ns == Leaves(data[..i])
      {
        LeavesSnoc(data, i);
        ns := ns + [Leaf(data[i].1, data[i].0, [])];
        i := i + 1;
      }
      assert data[..|data|] == data;
      while |ns| > 1
        invariant data == FillData(text) && nodes == old(nodes)
        invariant Build(ns) == Tree(text)
        decreases |ns|
      {
        ghost var before := ns;
        ns := SortBy(ns, FreqOf);
        var left := ns[0];
        var right := ns[1];
        var root := Merge(left, right);
        StepDef(before);
        assert ns[1..][1..] == ns[2..];
        ns := ns[1..];
        ns := ns[1..];
        ns := ns + [root];
      }
      result := ns;
    }

    /** encode: builds the tree of text, keeps it in nodes, and concatenates the code of every character. */
    method Encode(text: seq<CodePoint>) returns (bits: seq<Bit>)
      modifies this
      ensures nodes == Some(Tree(text)) && data == FillData(text)
      ensures bits == Encoded(text)
    {
      var tree := MakeTree(text);
      nodes := Some(tree);
      bits := [];
      var i := 0;
      while i < |text|
        invariant 0 <= i <= |text|
        invariant nodes == Some(tree) && data == FillData(text)
        invariant bits == if tree == [] then [] else Codes(tree[0], text[..i])
      {
        var node := tree[0];
        var found := FindCode(node, text[i]);
        CodesSnoc(node, text, i);
        bits := bits + found;
        i := i + 1;
      }
      assert text[..|text|] == text;
    }

    /**
     * decode: walks the tree of the last encode from its root, one bit at a
     * time, emitting a leaf's symbol and restarting at the root whenever the
     * bit cannot be followed, and stopping at the delimiter's leaf or when
     * one bit is left. None stands for the failure when no tree exists (no
     * encode yet, or the last encode was of the empty text).
     */
    method Decode(bits: seq<Bit>) returns (r: Option<seq<CodePoint>>)
      requires nodes.Some? && nodes.value != [] && |bits| >= 2 ==> Decodable(nodes.value[0])
      ensures nodes.None? || nodes.value == [] <==> r.None?
      ensures r.Some? ==> r.value == Walk(nodes.value[0], bits, nodes.value[0], [])
    {
      if nodes.None? || nodes.value == [] {
        return None;
      }
      var root := nodes.value[0];
      var text: seq<CodePoint> := [];
      var p := 0;
      var node := root;
      while p < |bits| - 1
        invariant 0 <= p <= |bits|
        invariant Walk(root, bits[p..], node, text) == Walk(root, bits, root, [])
        decreases |bits| - p, if node.Leaf? && node.ch != Delimiter then 1 else 0
      {
        if bits[p] == 0 && node.Branch? {
          WalkStep(root, bits[p], bits[p + 1..], node, node.left, text);
          assert bits[p..] == [bits[p]] + bits[p + 1..];
          node := node.left;
          p := p + 1;
        } else if bits[p] == 1 && node.Branch? {
          WalkStep(root, bits[p], bits[p + 1..], node, node.right, text);
          assert bits[p..] == [bits[p]] + bits[p + 1..];
          node := node.right;
          p := p + 1;
        } else {
          if node.Symbol() == [Delimiter] {
            break;
          }
          text := text + node.Symbol();
          node := root;
        }
      }
      return Some(text);
    }
  }

  /** Every character of a text is in the symbol of the root built from that text. */
  lemma TreeCovers(text: seq<CodePoint>)
    requires text != []
    ensures |Tree(text)| == 1
    ensures forall c :: c in text <==> c in Tree(text)[0].Symbol()
  {
    TreeShape(text);
    var root := Tree(text)[0];
    forall c
      ensures c in text <==> c in root.Symbol()
    {
      assert c in root.Symbol() <==> multiset(root.Symbol())[c] > 0;
    }
  }

  /**
   * Round trip: encoding a message without '#' followed by the delimiter,
   * then decoding those bits followed by at least one more bit with the
   * tree just built, gives the message back.
   */
  lemma HuffmanRoundTrip(m: seq<CodePoint>, extra: seq<Bit>)
    requires Delimiter !in m && |extra| >= 1
    ensures |Tree(m + [Delimiter])| == 1 && Decodable(Tree(m + [Delimiter])[0])
    ensures var root := Tree(m + [Delimiter])[0];
            Walk(root, Encoded(m + [Delimiter]) + extra, root, []) == m
  {
    var text := m + [Delimiter];
    TreeDecodable(text);
    TreeCovers(text);
    TreeShape(text);
    var root := Tree(text)[0];
    assert Encodable(root, m) by {
      forall c | c in m
        ensures c in root.Symbol() && c != Delimiter
      {
        assert c in text;
      }
    }
    DecodeRoundTrip(root, m, extra);
  }

  /**
   * The decode loop stops one bit early: when the delimiter's code is a
   * single bit, decoding exactly the bits encode produced for m + '#'
   * loses the last character of m.
   */
  lemma HuffmanDropsLast(m: seq<CodePoint>)
    requires Delimiter !in m && m != []
    requires |Tree(m + [Delimiter])| == 1
    requires |FindCode(Tree(m + [Delimiter])[0], Delimiter)| == 1
    ensures var root := Tree(m + [Delimiter])[0];
            Walk(root, Encoded(m + [Delimiter]), root, []) == m[..|m| - 1]
  {
    var text := m + [Delimiter];
    TreeCovers(text);
    TreeShape(text);
    var root := Tree(text)[0];
    assert Delimiter in text && m[0] in text;
    SymbolSize(root);
    assert root.Branch? by {
      assert multiset(root.Symbol())[Delimiter] == 1 && multiset(root.Symbol())[m[0]] == 1;
      assert |root.Symbol()| != 1;
    }
    assert Encodable(root, m) by {
      forall c | c in m
        ensures c in root.Symbol() && c != Delimiter
      {
        assert c in text;
      }
    }
    DecodeDropsLast(root, m);
  }
}

module HuffmanExample {
  import opened Bits
  import opened Sorting
  import opened HuffmanTree
  import opened HuffmanBuild
  import opened Huffman

  /** The root make_tree builds for "a#". */
  const ExampleRoot: Node := Branch(2, [97, Delimiter], Leaf(1, 97, [0]), Leaf(1, Delimiter, [1]), [])

  /** Counting "a#": both characters once, in order of first occurrence. */
  lemma ExampleCounts()
    ensures FillData([97, Delimiter]) == [(97, 1), (Delimiter, 1)]
  {
    var text: seq<CodePoint> := [97, Delimiter];
    assert text[..1] == [97] && [97][..0] == [];
    assert Tally([97]) == [(97, 1)];
    assert [(97, 1)][1..] == [] && text[..|text| - 1] == [97];
    assert Bump([(97, 1)], Delimiter) == [(97, 1), (Delimiter, 1)];
    assert Tally(text) == [(97, 1), (Delimiter, 1)];
    var counts := [(97, 1), (Delimiter, 1)];
    assert SortBy(counts[1..], NegCount) == [(Delimiter, 1)];
  }

  /** The tree of "a#": one branch over 'a' (code 0) and '#' (code 1). */
  lemma ExampleTree()
    ensures Tree([97, Delimiter]) == [ExampleRoot]
  {
    ExampleCounts();
    var counts := [(97, 1), (Delimiter, 1)];
    var leaves := [Leaf(1, 97, []), Leaf(1, Delimiter, [])];
    assert Leaves(counts[1..]) == [Leaf(1, Delimiter, [])];
    assert Leaves(counts) == leaves;
    assert SortBy(leaves[1..], FreqOf) == [Leaf(1, Delimiter, [])];
    assert SortBy(leaves, FreqOf) == leaves;
    var root := ExampleRoot;
    assert Merge(leaves[0], leaves[1]) == root;
    assert leaves[2..] == [];
    assert Step(leaves) == [root];
    assert Build([root]) == [root];
  }

  /** "a#" encodes to 01, and decoding exactly those two bits yields nothing: the 'a' is lost. */
  lemma DropsLastExample()
    ensures Encoded([97, Delimiter]) == [0, 1]
    ensures Walk(ExampleRoot, [0, 1], ExampleRoot, []) == []
  {
    ExampleTree();
    var text: seq<CodePoint> := [97, Delimiter];
    var root := ExampleRoot;
    assert FindCode(root, 97) == [0];
    assert FindCode(root, Delimiter) == [1];
    assert Codes(root, text[1..]) == [1];
    assert Codes(root, text) == [0, 1];
    assert [0, 1][1..] == [1];
  }
}
