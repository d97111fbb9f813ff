/**
 * Building the Huffman tree of codec.py: `fill_data` (character counts in
 * descending order) and the merging loop of `make_tree`, as functions, with
 * the shape of the tree they produce.
 */
module HuffmanBuild {
  import opened Bits
  import opened Sorting
  import opened HuffmanTree
  import opened Seqs

  /** A character with its number of occurrences, as in the items of a Counter. */
  type Count = (CodePoint, nat)

  function KeyOf(p: Count): seq<CodePoint> { [p.0] }
  function CountOf(p: Count): int { p.1 }
  function NegCount(p: Count): int { -(p.1 as int) }
  function FreqOf(n: Node): int { n.freq }
  function SymbolOf(n: Node): seq<CodePoint> { n.Symbol() }

  /** The characters of a count list, in order. */
  function Keys(t: seq<Count>): seq<CodePoint>
  {
    Gather(t, KeyOf)
  }

  /** The distinct characters of s in order of first occurrence (the reference for Counter's order). */
  function Distinct(s: seq<CodePoint>): seq<CodePoint>
  {
    if s == [] then []
    else if s[|s| - 1] in s[..|s| - 1] then Distinct(s[..|s| - 1])
    else Distinct(s[..|s| - 1]) + [s[|s| - 1]]
  }

  /** The count recorded for c (the first entry with key c), or 0. */
  function Lookup(t: seq<Count>, c: CodePoint): nat
  {
    if t == [] then 0 else if t[0].0 == c then t[0].1 else Lookup(t[1..], c)
  }

  /** Counting one more occurrence of c: bump its entry, or append a new entry at the end. */
  function Bump(t: seq<Count>, c: CodePoint): (r: seq<Count>)
    ensures |t| <= |r| <= |t| + 1
    ensures (forall i :: 0 <= i < |t| ==> t[i].1 >= 1) ==> forall i :: 0 <= i < |r| ==> r[i].1 >= 1
  {
    if t == [] then [(c, 1)]
    else if t[0].0 == c then [(c, t[0].1 + 1)] + t[1..]
    else [t[0]] + Bump(t[1..], c)
  }

  /** Counter(s): the characters of s with their counts, in order of first occurrence. */
  function Tally(s: seq<CodePoint>): (r: seq<Count>)
    ensures |r| <= |s| && (r == [] <==> s == [])
    ensures forall i :: 0 <= i < |r| ==> r[i].1 >= 1
  {
    if s == [] then [] else Bump(Tally(s[..|s| - 1]), s[|s| - 1])
  }

  /** fill_data: the counts sorted by count, largest first; equal counts keep Counter's order. */
  function FillData(s: seq<CodePoint>): (r: seq<Count>)
    ensures |r| == |Tally(s)|
    ensures |r| <= |s| && (r == [] <==> s == [])
  {
    SortBy(Tally(s), NegCount)
  }

  // ---------------------------------------------------------------- counting

  lemma KeysCons(p: Count, t: seq<Count>)
    ensures Keys([p] + t) == [p.0] + Keys(t)
  {
    assert ([p] + t)[1..] == t;
  }

  lemma {:induction false} BumpKeys(t: seq<Count>, c: CodePoint)
    ensures Keys(Bump(t, c)) == if c in Keys(t) then Keys(t) else Keys(t) + [c]
  {
    if t == [] {
      assert [(c, 1)][1..] == [];
    } else {
      KeysCons(t[0], t[1..]);
      assert t == [t[0]] + t[1..];
      if t[0].0 == c {
        KeysCons((c, t[0].1 + 1), t[1..]);
      } else {
        BumpKeys(t[1..], c);
        KeysCons(t[0], Bump(t[1..], c));
        assert c in Keys(t) <==> c in Keys(t[1..]);
        if c !in Keys(t[1..]) {
          AppendAssoc([t[0].0], Keys(t[1..]), [c]);
        }
      }
    }
  }

  lemma {:induction false} BumpLookup(t: seq<Count>, c: CodePoint, d: CodePoint)
    ensures Lookup(Bump(t, c), d) == Lookup(t, d) + (if d == c then 1 else 0)
  {
    if t != [] && t[0].0 != c {
      BumpLookup(t[1..], c, d);
      assert ([t[0]] + Bump(t[1..], c))[1..] == Bump(t[1..], c);
    } else if t != [] {
      assert ([(c, t[0].1 + 1)] + t[1..])[1..] == t[1..];
    }
  }

  lemma {:induction false} BumpSum(t: seq<Count>, c: CodePoint)
    ensures SumOf(Bump(t, c), CountOf) == SumOf(t, CountOf) + 1
  {
    if t != [] && t[0].0 != c {
      BumpSum(t[1..], c);
      assert ([t[0]] + Bump(t[1..], c))[1..] == Bump(t[1..], c);
    } else if t != [] {
      assert ([(c, t[0].1 + 1)] + t[1..])[1..] == t[1..];
    }
  }

  /** Counter keeps its keys in order of first occurrence. */
  lemma {:induction false} TallyKeys(s: seq<CodePoint>)
    ensures Keys(Tally(s)) == Distinct(s)
  {
    if s != [] {
      var init, c := s[..|s| - 1], s[|s| - 1];
      TallyKeys(init);
      BumpKeys(Tally(init), c);
      DistinctMembers(init);
    }
  }

  lemma {:induction false} DistinctMembers(s: seq<CodePoint>)
    ensures forall c :: c in Distinct(s) <==> c in s
  {
    if s != [] {
      var init := s[..|s| - 1];
      DistinctMembers(init);
      assert s == init + [s[|s| - 1]];
    }
  }

  /** Each character of s occurs in Distinct(s) exactly once. */
  lemma {:induction false} DistinctOnce(s: seq<CodePoint>)
    ensures forall c :: multiset(Distinct(s))[c] == if c in s then 1 else 0
  {
    if s != [] {
      var init := s[..|s| - 1];
      DistinctOnce(init);
      DistinctMembers(init);
      assert s == init + [s[|s| - 1]];
    }
  }

  /** Counter counts every character. */
  lemma {:induction false} TallyLookup(s: seq<CodePoint>, d: CodePoint)
    ensures Lookup(Tally(s), d) == multiset(s)[d]
  {
    if s != [] {
      var init := s[..|s| - 1];
      TallyLookup(init, d);
      BumpLookup(Tally(init), s[|s| - 1], d);
      assert s == init + [s[|s| - 1]];
    }
  }

  /** The counts add up to the length of the text. */
  lemma {:induction false} TallySum(s: seq<CodePoint>)
    ensures SumOf(Tally(s), CountOf) == |s|
  {
    if s != [] {
      TallySum(s[..|s| - 1]);
      BumpSum(Tally(s[..|s| - 1]), s[|s| - 1]);
    }
  }

  /** In a list with distinct keys, the count looked up for an entry's key is that entry's count. */
  lemma {:induction false} LookupMember(t: seq<Count>, p: Count)
    requires forall c :: multiset(Keys(t))[c] <= 1
    requires p in t
    ensures Lookup(t, p.0) == p.1
  {
    KeysCons(t[0], t[1..]);
    assert t == [t[0]] + t[1..];
    if t[0] != p {
      assert p in t[1..];
      KeysMember(t[1..], p);
      assert t[0].0 != p.0 by {
        assert multiset(Keys(t))[p.0] == multiset([t[0].0])[p.0] + multiset(Keys(t[1..]))[p.0];
      }
      assert forall c :: multiset(Keys(t[1..]))[c] <= multiset(Keys(t))[c];
      LookupMember(t[1..], p);
    }
  }

  lemma {:induction false} KeysMember(t: seq<Count>, p: Count)
    requires p in t
    ensures p.0 in Keys(t)
  {
    KeysCons(t[0], t[1..]);
    assert t == [t[0]] + t[1..];
    if t[0] != p {
      KeysMember(t[1..], p);
    }
  }

  /** Every entry of Counter(s) holds the number of occurrences of its character in s. */
  lemma TallyCounts(s: seq<CodePoint>)
    ensures forall p :: p in Tally(s) ==> p.1 == multiset(s)[p.0]
  {
    TallyKeys(s);
    DistinctOnce(s);
    forall p | p in Tally(s) ensures p.1 == multiset(s)[p.0] {
      LookupMember(Tally(s), p);
      TallyLookup(s, p.0);
    }
  }

  /**
   * fill_data(s): counts are in descending order, each entry holds its
   * character's count, each character of s appears exactly once, and the
   * counts add up to |s|.
   */
  lemma FillDataFacts(s: seq<CodePoint>)
    ensures forall i, j :: 0 <= i < j < |FillData(s)| ==> FillData(s)[i].1 >= FillData(s)[j].1
    ensures forall p :: p in FillData(s) ==> p.1 == multiset(s)[p.0]
    ensures forall c :: multiset(Keys(FillData(s)))[c] == if c in s then 1 else 0
    ensures SumOf(FillData(s), CountOf) == |s|
  {
    var t := Tally(s);
    SortBySorted(t, NegCount);
    SortByPermutes(t, NegCount);
    assert forall p :: p in FillData(s) ==> p in multiset(t);
    TallyCounts(s);
    SortByGather(t, NegCount, KeyOf);
    TallyKeys(s);
    DistinctOnce(s);
    SortBySum(t, NegCount, CountOf);
    TallySum(s);
  }

  /** fill_data is stable: entries with equal counts stay in order of first occurrence. */
  lemma FillDataStable(s: seq<CodePoint>, k: int)
    ensures Filter(FillData(s), NegCount, k) == Filter(Tally(s), NegCount, k)
  {
    SortByStable(Tally(s), NegCount, k);
  }

  // ------------------------------------------------------------ the tree

  /** The node list make_tree starts from: one leaf per entry of fill_data, in order. */
  function Leaves(d: seq<Count>): (r: seq<Node>)
    ensures |r| == |d|
  {
    if d == [] then [] else [Leaf(d[0].1, d[0].0, [])] + Leaves(d[1..])
  }

  lemma {:induction false} LeavesSnoc(d: seq<Count>, i: nat)
    requires i < |d|
    ensures Leaves(d[..i + 1]) == Leaves(d[..i]) + [Leaf(d[i].1, d[i].0, [])]
  {
    if i > 0 {
      assert d[..i + 1][1..] == d[1..][..i];
      assert d[..i][1..] == d[1..][..i - 1];
      LeavesSnoc(d[1..], i - 1);
    }
  }

  /** One merge: the two nodes get the edge codes '0' and '1' and become the children of a new node. */
  function Merge(l: Node, r: Node): (p: Node)
    ensures WellFormed(l) && WellFormed(r) ==> WellFormed(p)
    ensures p.Branch? && p.freq == l.freq + r.freq && p.Symbol() == l.Symbol() + r.Symbol()
    ensures p.left.code == [0] && p.left.freq == l.freq && p.left.Symbol() == l.Symbol()
    ensures p.right.code == [1] && p.right.freq == r.freq && p.right.Symbol() == r.Symbol()
  {
    Branch(l.freq + r.freq, l.Symbol() + r.Symbol(), l.(code := [0]), r.(code := [1]), [])
  }

  /** The merging loop of make_tree: sort stably by frequency, merge the first two, append the parent. */
  function Build(nodes: seq<Node>): (r: seq<Node>)
    ensures |r| == if nodes == [] then 0 else 1
    decreases |nodes|
  {
    if |nodes| <= 1 then nodes else Build(Step(nodes))
  }

  /** The node list make_tree returns for text. */
  function Tree(text: seq<CodePoint>): (r: seq<Node>)
    ensures |r| == if text == [] then 0 else 1
  {
    Build(Leaves(FillData(text)))
  }

  /** Every leaf of t holds the number of occurrences of its character in text. */
  ghost predicate LeafCounts(t: Node, text: seq<CodePoint>)
  {
    match t
    case Leaf(f, c, _) => f == multiset(text)[c]
    case Branch(_, _, l, r, _) => LeafCounts(l, text) && LeafCounts(r, text)
  }

  ghost predicate Good(t: Node, text: seq<CodePoint>)
  {
    WellFormed(t) && LeafCounts(t, text)
  }

  lemma {:induction false} LeavesFacts(d: seq<Count>, text: seq<CodePoint>)
    requires forall p :: p in d ==> p.1 == multiset(text)[p.0]
    ensures forall n :: n in Leaves(d) ==> Good(n, text)
    ensures Gather(Leaves(d), SymbolOf) == Keys(d)
    ensures SumOf(Leaves(d), FreqOf) == SumOf(d, CountOf)
  {
    if d != [] {
      assert d == [d[0]] + d[1..];
      LeavesFacts(d[1..], text);
      var r := Leaves(d);
      assert r[1..] == Leaves(d[1..]);
    }
  }

  /** Setting the edge code of a node changes nothing else about it. */
  lemma WithCode(t: Node, b: seq<Bit>, text: seq<CodePoint>)
    ensures t.(code := b).freq == t.freq && t.(code := b).Symbol() == t.Symbol()
    ensures Good(t, text) ==> Good(t.(code := b), text)
  {
  }

  /** One round of the merging loop, unfolded. */
  lemma StepDef(nodes: seq<Node>)
    requires |nodes| >= 2
    ensures Step(nodes) == SortBy(nodes, FreqOf)[2..] + [Merge(SortBy(nodes, FreqOf)[0], SortBy(nodes, FreqOf)[1])]
  {
  }

  /** A merge of two good nodes is a good node over both symbol strings. */
  lemma MergeGood(l: Node, r: Node, text: seq<CodePoint>)
    requires Good(l, text) && Good(r, text)
    ensures Good(Merge(l, r), text)
    ensures Merge(l, r).freq == l.freq + r.freq
    ensures Merge(l, r).Symbol() == l.Symbol() + r.Symbol()
  {
    WithCode(l, [0], text);
    WithCode(r, [1], text);
  }

  /** The node list after one round of the merging loop. */
  function Step(nodes: seq<Node>): (r: seq<Node>)
    requires |nodes| >= 2
    ensures |r| == |nodes| - 1
  {
    var sorted := SortBy(nodes, FreqOf);
    sorted[2..] + [Merge(sorted[0], sorted[1])]
  }

  /**
   * A round merges two nodes of lowest frequency: the sorted list is a
   * permutation of the nodes, ordered by frequency, and its first two
   * nodes are merged while the rest keep their sorted order.
   */
  lemma StepMergesLowest(nodes: seq<Node>)
    requires |nodes| >= 2
    ensures var sorted := SortBy(nodes, FreqOf);
      multiset(sorted) == multiset(nodes)
      && sorted[0].freq <= sorted[1].freq
      && (forall n :: n in sorted[2..] ==> sorted[1].freq <= n.freq)
      && Step(nodes) == sorted[2..] + [Merge(sorted[0], sorted[1])]
  {
    var sorted := SortBy(nodes, FreqOf);
    SortByPermutes(nodes, FreqOf);
    SortBySorted(nodes, FreqOf);
    StepDef(nodes);
    assert forall k :: 2 <= k < |sorted| ==> FreqOf(sorted[1]) <= FreqOf(sorted[k]);
  }

  /** One round of the merging loop keeps every node good. */
  lemma StepGood(nodes: seq<Node>, text: seq<CodePoint>)
    requires |nodes| >= 2 && forall n :: n in nodes ==> Good(n, text)
    ensures forall n :: n in Step(nodes) ==> Good(n, text)
  {
    var sorted := SortBy(nodes, FreqOf);
    var m := Merge(sorted[0], sorted[1]);
    SortByMembers(nodes, FreqOf);
    assert sorted[0] in sorted && sorted[1] in sorted;
    MergeGood(sorted[0], sorted[1], text);
    assert forall n :: n in sorted[2..] ==> n in sorted;
    assert forall n :: n in Step(nodes) ==> n in sorted[2..] || n == m;
  }

  /** One round of the merging loop keeps the characters of the node list. */
  lemma StepSymbols(nodes: seq<Node>)
    requires |nodes| >= 2
    ensures multiset(Gather(Step(nodes), SymbolOf)) == multiset(Gather(nodes, SymbolOf))
  {
    var sorted := SortBy(nodes, FreqOf);
    var m := Merge(sorted[0], sorted[1]);
    GatherSnoc(sorted[2..], m, SymbolOf);
    GatherTwo(sorted, SymbolOf);
    SortByGather(nodes, FreqOf, SymbolOf);
    assert SymbolOf(m) == SymbolOf(sorted[0]) + SymbolOf(sorted[1]);
  }

  /** One round of the merging loop keeps the total frequency. */
  lemma StepSum(nodes: seq<Node>)
    requires |nodes| >= 2
    ensures SumOf(Step(nodes), FreqOf) == SumOf(nodes, FreqOf)
  {
    var sorted := SortBy(nodes, FreqOf);
    var m := Merge(sorted[0], sorted[1]);
    SumOfSnoc(sorted[2..], m, FreqOf);
    SumOfTwo(sorted, FreqOf);
    SortBySum(nodes, FreqOf, FreqOf);
  }

  /** The merging loop ends with one good node when it starts with at least one. */
  lemma {:induction false} BuildFacts(nodes: seq<Node>, text: seq<CodePoint>)
    requires forall n :: n in nodes ==> Good(n, text)
    ensures |nodes| >= 1 ==> |Build(nodes)| == 1
    ensures |nodes| == 0 ==> Build(nodes) == []
    ensures forall n :: n in Build(nodes) ==> Good(n, text)
    ensures multiset(Gather(Build(nodes), SymbolOf)) == multiset(Gather(nodes, SymbolOf))
    ensures SumOf(Build(nodes), FreqOf) == SumOf(nodes, FreqOf)
    decreases |nodes|
  {
    if |nodes| > 1 {
      assert Build(nodes) == Build(Step(nodes));
      StepGood(nodes, text);
      StepSymbols(nodes);
      StepSum(nodes);
      BuildFacts(Step(nodes), text);
    }
  }

  /**
   * make_tree on non-empty text returns one root: a well-formed tree whose
   * frequency is |text|, whose leaves hold their characters' counts, and
   * whose symbol string holds every character of text exactly once. On
   * empty text it returns no node.
   */
  lemma TreeShape(text: seq<CodePoint>)
    ensures text == [] ==> Tree(text) == []
    ensures text != [] ==> |Tree(text)| == 1
    ensures text != [] ==> WellFormed(Tree(text)[0]) && LeafCounts(Tree(text)[0], text)
    ensures text != [] ==> Tree(text)[0].freq == |text|
    ensures text != [] ==> forall c :: multiset(Tree(text)[0].Symbol())[c] == if c in text then 1 else 0
  {
    var d := FillData(text);
    FillDataFacts(text);
    LeavesFacts(d, text);
    BuildFacts(Leaves(d), text);
    if text != [] {
      assert text[0] in text;
      assert multiset(Keys(d))[text[0]] == 1;
      var root := Tree(text)[0];
      assert Tree(text) == [root];
      assert root in Tree(text);
      GatherSnoc([], root, SymbolOf);
      SumOfSnoc([], root, FreqOf);
      assert [] + [root] == [root];
    } else {
      assert multiset(Keys(d)) == multiset{} by {
        forall c ensures multiset(Keys(d))[c] == 0 { }
      }
    }
  }

  /** The root make_tree builds for a text containing the delimiter never hangs the decode loop. */
  lemma TreeDecodable(text: seq<CodePoint>)
    requires Delimiter in text
    ensures |Tree(text)| == 1 && Decodable(Tree(text)[0]) && Delimiter in Tree(text)[0].Symbol()
  {
    TreeShape(text);
    var root := Tree(text)[0];
    assert multiset(root.Symbol())[Delimiter] == 1;
  }
}

