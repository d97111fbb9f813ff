/**
 * The Huffman tree of codec.py: the node type, `find_code`, and the
 * cursor walk that `HuffmanCodes.decode` performs over a bit string.
 */
module HuffmanTree {
  import opened Bits
  import opened Seqs

  /**
   * A node of the tree. `make_tree` only ever builds leaves (no children,
   * a one-character symbol) and internal nodes with both children, so the
   * two shapes are two constructors. `code` is the edge label '0'/'1' that
   * `make_tree` assigns when the node becomes a child.
   */
  datatype Node =
    | Leaf(freq: nat, ch: CodePoint, code: seq<Bit>)
    | Branch(freq: nat, symbol: seq<CodePoint>, left: Node, right: Node, code: seq<Bit>)
  {
    /** The node's symbol string: the character of a leaf, the stored string of an internal node. */
    function Symbol(): seq<CodePoint>
    {
      if Leaf? then [ch] else symbol
    }
  }

  /** Every internal node sums its children's frequencies and concatenates their symbols, left first. */
  ghost predicate WellFormed(t: Node)
  {
    match t
    case Leaf(_, _, _) => true
    case Branch(f, s, l, r, _) =>
      WellFormed(l) && WellFormed(r) && f == l.freq + r.freq && s == l.Symbol() + r.Symbol()
  }

  lemma {:induction false} SymbolSize(t: Node)
    requires WellFormed(t)
    ensures |t.Symbol()| >= 1
    ensures t.Leaf? <==> |t.Symbol()| == 1
  {
    if t.Branch? {
      SymbolSize(t.left);
      SymbolSize(t.right);
    }
  }

  /** The number of edges on the longest path from t down to a leaf. */
  function Height(t: Node): nat
  {
    match t
    case Leaf(_, _, _) => 0
    case Branch(_, _, l, r, _) => 1 + if Height(l) < Height(r) then Height(r) else Height(l)
  }

  /**
   * find_code: the path to key, testing the right child's symbol before the
   * left child's. Whatever the key, the path stays inside the tree and is
   * no longer than the tree is high.
   */
  function FindCode(node: Node, key: CodePoint): (r: seq<Bit>)
    ensures |r| <= Height(node)
    ensures Follow(node, r).Some?
  {
    if |node.Symbol()| == 1 then []
    else if key in node.right.Symbol() then [1] + FindCode(node.right, key)
    else if key in node.left.Symbol() then [0] + FindCode(node.left, key)
    else []
  }

  /** The node reached from t by following path (0 = left, 1 = right), if the path stays in the tree. */
  function Follow(t: Node, path: seq<Bit>): Option<Node>
  {
    if path == [] then Some(t)
    else if t.Leaf? then None
    else Follow(if path[0] == 0 then t.left else t.right, path[1..])
  }

  /**
   * find_code returns the 0/1 path from t to the leaf holding key, and the
   * empty code exactly when t is itself a leaf.
   */
  lemma {:induction false} FindCodePath(t: Node, key: CodePoint)
    requires WellFormed(t) && key in t.Symbol()
    ensures Follow(t, FindCode(t, key)).Some?
    ensures Follow(t, FindCode(t, key)).value.Leaf?
    ensures Follow(t, FindCode(t, key)).value.ch == key
    ensures FindCode(t, key) == [] <==> t.Leaf?
  {
    SymbolSize(t);
    if t.Branch? {
      var code := FindCode(t, key);
      if key in t.right.Symbol() {
        FindCodePath(t.right, key);
        assert code[1..] == FindCode(t.right, key);
      } else {
        FindCodePath(t.left, key);
        assert code[1..] == FindCode(t.left, key);
      }
    }
  }

  predicate IsPrefix(u: seq<Bit>, v: seq<Bit>)
  {
    |u| <= |v| && v[..|u|] == u
  }

  /** Two codes that start with different bits are not prefixes of one another; with the same bit, the rests decide. */
  lemma ConsPrefix(d: Bit, e: Bit, u: seq<Bit>, v: seq<Bit>)
    ensures IsPrefix([d] + u, [e] + v) <==> d == e && IsPrefix(u, v)
  {
    if IsPrefix([d] + u, [e] + v) {
      assert ([e] + v)[..|u| + 1][0] == e;
      assert v[..|u|] == ([e] + v)[..|u| + 1][1..];
    }
    if d == e && IsPrefix(u, v) {
      assert ([e] + v)[..|u| + 1] == [e] + v[..|u|];
    }
  }

  /** The codes of two different characters of a tree are prefix-free. */
  lemma {:induction false} PrefixFree(t: Node, a: CodePoint, b: CodePoint)
    requires WellFormed(t) && a in t.Symbol() && b in t.Symbol() && a != b
    ensures !IsPrefix(FindCode(t, a), FindCode(t, b))
  {
    SymbolSize(t);
    if t.Branch? {
      FindCodeStep(t, a);
      FindCodeStep(t, b);
      ConsPrefix(Dir(t, a), Dir(t, b), FindCode(Toward(t, a), a), FindCode(Toward(t, b), b));
      if Dir(t, a) == Dir(t, b) {
        PrefixFree(Toward(t, a), a, b);
      }
    }
  }

  /** The concatenated codes of the characters of text. */
  function Codes(root: Node, text: seq<CodePoint>): (r: seq<Bit>)
    ensures root.Leaf? ==> r == []
    ensures |r| <= |text| * Height(root)
  {
    if text == [] then []
    else
      assert |text| * Height(root) == Height(root) + |text[1..]| * Height(root);
      FindCode(root, text[0]) + Codes(root, text[1..])
  }

  /** A root that the decode loop can restart from without looping forever. */
  predicate Decodable(root: Node)
  {
    root.Branch? || root.ch == Delimiter
  }

  /**
   * The rest of the decode loop, run on the bits data not yet consumed, from
   * node, having produced text; the result is the text the loop returns.
   * The loop runs while at least two bits remain. A 0 (1) bit moves to the
   * left (right) child; at a leaf the loop stops on the delimiter and
   * otherwise emits the leaf's symbol and restarts at root without consuming
   * a bit.
   */
  function Walk(root: Node, data: seq<Bit>, node: Node, text: seq<CodePoint>): (r: seq<CodePoint>)
    requires Decodable(root) || |data| < 2
    ensures |text| <= |r| && r[..|text|] == text
    ensures forall i :: |text| <= i < |r| ==> r[i] != Delimiter
    decreases |data|, if node.Leaf? && node.ch != Delimiter then 1 else 0
  {
    if |data| <= 1 then text
    else if data[0] == 0 && node.Branch? then Walk(root, data[1..], node.left, text)
    else if data[0] == 1 && node.Branch? then Walk(root, data[1..], node.right, text)
    else if node.Symbol() == [Delimiter] then text
    else Walk(root, data, root, text + node.Symbol())
  }

  /** One step of the decode loop at an internal node follows the current bit. */
  lemma WalkStep(root: Node, b: Bit, rest: seq<Bit>, node: Node, child: Node, text: seq<CodePoint>)
    requires Decodable(root) && node.Branch? && |rest| >= 1
    requires child == if b == 0 then node.left else node.right
    ensures Walk(root, [b] + rest, node, text) == Walk(root, rest, child, text)
  {
    assert ([b] + rest)[1..] == rest;
  }

  /** At a leaf the decode loop stops (end of data or delimiter) or emits the leaf and restarts at root. */
  lemma WalkAtLeaf(root: Node, data: seq<Bit>, node: Node, text: seq<CodePoint>)
    requires Decodable(root) && node.Leaf?
    ensures Walk(root, data, node, text)
         == if |data| <= 1 || node.ch == Delimiter then text else Walk(root, data, root, text + [node.ch])
  {
  }

  /** The child of an internal node that find_code descends into for key. */
  function Toward(node: Node, key: CodePoint): (r: Node)
    requires node.Branch?
    ensures r == node.left || r == node.right
  {
    if key in node.right.Symbol() then node.right else node.left
  }

  /** The first bit of key's code at an internal node: 1 for the right child, 0 for the left one. */
  function Dir(node: Node, key: CodePoint): (b: Bit)
    requires node.Branch?
    ensures Toward(node, key) == if b == 0 then node.left else node.right
  {
    if key in node.right.Symbol() then 1 else 0
  }

  /** One step of find_code at an internal node: the bit chosen and the child it leads to. */
  lemma FindCodeStep(node: Node, key: CodePoint)
    requires WellFormed(node) && node.Branch? && key in node.Symbol()
    ensures key in Toward(node, key).Symbol()
    ensures FindCode(node, key) == [Dir(node, key)] + FindCode(Toward(node, key), key)
  {
    SymbolSize(node);
  }

  /** Following the first bit of key's code moves the decode loop to the child find_code chose. */
  lemma WalkDown(root: Node, node: Node, key: CodePoint, tail: seq<Bit>, text: seq<CodePoint>)
    requires Decodable(root) && WellFormed(node) && node.Branch? && key in node.Symbol() && |tail| >= 1
    ensures key in Toward(node, key).Symbol()
    ensures Walk(root, FindCode(node, key) + tail, node, text)
         == Walk(root, FindCode(Toward(node, key), key) + tail, Toward(node, key), text)
  {
    FindCodeStep(node, key);
    ConsAppend(Dir(node, key), FindCode(Toward(node, key), key), tail);
    WalkStep(root, Dir(node, key), FindCode(Toward(node, key), key) + tail, node, Toward(node, key), text);
  }

  /**
   * Walking down from node along the code of key consumes exactly that code
   * and arrives at key's leaf, where the loop stops (at the end of the data
   * or on the delimiter) or emits key and restarts at the root.
   */
  lemma {:induction false} Descend(root: Node, node: Node, key: CodePoint, tail: seq<Bit>, text: seq<CodePoint>)
    requires Decodable(root) && WellFormed(node) && key in node.Symbol() && |tail| >= 1
    ensures Walk(root, FindCode(node, key) + tail, node, text)
         == if |tail| <= 1 || key == Delimiter then text else Walk(root, tail, root, text + [key])
    decreases node
  {
    if node.Leaf? {
      assert FindCode(node, key) + tail == tail;
      WalkAtLeaf(root, tail, node, text);
    } else {
      WalkDown(root, node, key, tail, text);
      Descend(root, Toward(node, key), key, tail, text);
    }
  }

  /** Every character of the tree gets a code of at least one bit when the root is an internal node. */
  lemma {:induction false} CodesLength(root: Node, s: seq<CodePoint>)
    requires WellFormed(root) && root.Branch? && forall c :: c in s ==> c in root.Symbol()
    ensures |Codes(root, s)| >= |s|
  {
    if s != [] {
      FindCodePath(root, s[0]);
      assert forall c :: c in s[1..] ==> c in s;
      CodesLength(root, s[1..]);
    }
  }

  /** The message m without its first character is still encodable. */
  lemma EncodableTail(root: Node, m: seq<CodePoint>)
    requires Encodable(root, m) && m != []
    ensures m[0] in root.Symbol() && m[0] != Delimiter && Encodable(root, m[1..])
  {
    assert m[0] in m;
    assert forall d :: d in m[1..] ==> d in m;
  }

  /** The code of a one-character text is that character's code. */
  lemma CodesSingle(root: Node, c: CodePoint)
    ensures Codes(root, [c]) == FindCode(root, c)
  {
    assert [c][1..] == [];
    AppendEmpty(FindCode(root, c));
  }

  /** The code of a concatenation is the concatenation of the codes. */
  lemma {:induction false} CodesAppend(root: Node, a: seq<CodePoint>, b: seq<CodePoint>)
    ensures Codes(root, a + b) == Codes(root, a) + Codes(root, b)
  {
    if a == [] {
      assert a + b == b;
      EmptyAppend(Codes(root, b));
    } else {
      assert (a + b)[0] == a[0] && (a + b)[1..] == a[1..] + b;
      CodesAppend(root, a[1..], b);
      AppendAssoc(FindCode(root, a[0]), Codes(root, a[1..]), Codes(root, b));
    }
  }

  /** The code of the first i + 1 characters extends the code of the first i by the code of character i. */
  lemma CodesSnoc(root: Node, s: seq<CodePoint>, i: nat)
    requires i < |s|
    ensures Codes(root, s[..i + 1]) == Codes(root, s[..i]) + FindCode(root, s[i])
  {
    assert s[..i + 1] == s[..i] + [s[i]];
    CodesAppend(root, s[..i], [s[i]]);
    CodesSingle(root, s[i]);
  }

  /** The code of a message ending in the delimiter is the code of its first character, then the rest. */
  lemma CodesFirst(root: Node, m: seq<CodePoint>)
    requires m != []
    ensures Codes(root, m + [Delimiter]) == FindCode(root, m[0]) + Codes(root, m[1..] + [Delimiter])
  {
    var s := m + [Delimiter];
    assert s[0] == m[0] && s[1..] == m[1..] + [Delimiter];
  }

  /** The characters of m are characters of the tree other than the delimiter. */
  ghost predicate Encodable(root: Node, m: seq<CodePoint>)
  {
    forall c :: c in m ==> c in root.Symbol() && c != Delimiter
  }

  /**
   * Decoding the code of m followed by the delimiter's code and at least
   * one more bit, from the root, produces m after text.
   */
  lemma {:induction false} WalkMessage(root: Node, m: seq<CodePoint>, extra: seq<Bit>, text: seq<CodePoint>)
    requires WellFormed(root) && Decodable(root) && Delimiter in root.Symbol()
    requires Encodable(root, m) && |extra| >= 1
    ensures Walk(root, Codes(root, m + [Delimiter]) + extra, root, text) == text + m
  {
    if m == [] {
      assert m + [Delimiter] == [Delimiter];
      CodesSingle(root, Delimiter);
      Descend(root, root, Delimiter, extra, text);
      AppendEmpty(text);
    } else {
      var c := m[0];
      EncodableTail(root, m);
      var rest := Codes(root, m[1..] + [Delimiter]);
      CodesFirst(root, m);
      AppendAssoc(FindCode(root, c), rest, extra);
      assert |rest| >= 1 by {
        assert root.Branch?;
        CodesLength(root, m[1..] + [Delimiter]);
      }
      Descend(root, root, c, rest + extra, text);
      WalkMessage(root, m[1..], extra, text + [c]);
      ConsTail(text, m);
    }
  }

  /** The decode loop's round trip: the code of m + '#' with at least one extra bit decodes to m. */
  lemma DecodeRoundTrip(root: Node, m: seq<CodePoint>, extra: seq<Bit>)
    requires WellFormed(root) && Decodable(root) && Delimiter in root.Symbol()
    requires Encodable(root, m) && |extra| >= 1
    ensures Walk(root, Codes(root, m + [Delimiter]) + extra, root, []) == m
  {
    WalkMessage(root, m, extra, []);
  }

  /**
   * With no bits after the delimiter's code and a one-bit delimiter code,
   * the loop bound stops the walk before the last character of m is emitted.
   */
  lemma {:induction false} WalkDropsLast(root: Node, m: seq<CodePoint>, text: seq<CodePoint>)
    requires WellFormed(root) && root.Branch? && Delimiter in root.Symbol()
    requires |FindCode(root, Delimiter)| == 1 && Encodable(root, m) && m != []
    ensures Walk(root, Codes(root, m + [Delimiter]), root, text) == text + m[..|m| - 1]
  {
    var c := m[0];
    EncodableTail(root, m);
    var rest := Codes(root, m[1..] + [Delimiter]);
    CodesFirst(root, m);
    CodesLength(root, m[1..] + [Delimiter]);
    Descend(root, root, c, rest, text);
    if m[1..] == [] {
      assert m[1..] + [Delimiter] == [Delimiter];
      CodesSingle(root, Delimiter);
      assert m[..|m| - 1] == [];
      AppendEmpty(text);
    } else {
      WalkDropsLast(root, m[1..], text + [c]);
      DropLastTail(text, m);
    }
  }

  /** The off-by-one of the loop bound: without extra bits, decoding loses the last character. */
  lemma DecodeDropsLast(root: Node, m: seq<CodePoint>)
    requires WellFormed(root) && root.Branch? && Delimiter in root.Symbol()
    requires |FindCode(root, Delimiter)| == 1 && Encodable(root, m) && m != []
    ensures Walk(root, Codes(root, m + [Delimiter]), root, []) == m[..|m| - 1]
  {
    WalkDropsLast(root, m, []);
  }
}
