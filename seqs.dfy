/** Small facts about sequence concatenation used by the Huffman proofs. */
module Seqs {
  lemma AppendAssoc<T>(a: seq<T>, b: seq<T>, c: seq<T>)
    ensures (a + b) + c == a + (b + c)
  {
  }

  lemma AppendEmpty<T>(a: seq<T>)
    ensures a + [] == a
  {
  }

  lemma EmptyAppend<T>(a: seq<T>)
    ensures [] + a == a
  {
  }

  lemma ConsAppend<T>(b: T, rest: seq<T>, tail: seq<T>)
    ensures ([b] + rest) + tail == [b] + (rest + tail)
  {
  }

  lemma ConsTail<T>(text: seq<T>, m: seq<T>)
    requires m != []
    ensures (text + [m[0]]) + m[1..] == text + m
  {
    assert m == [m[0]] + m[1..];
  }

  lemma DropLastTail<T>(text: seq<T>, m: seq<T>)
    requires |m| >= 2
    ensures (text + [m[0]]) + m[1..][..|m| - 2] == text + m[..|m| - 1]
  {
    assert m[..|m| - 1] == [m[0]] + m[1..][..|m| - 2];
  }
}
