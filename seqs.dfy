/** Facts about sequence concatenation and slicing, stated once over any element
    type so that proofs about strings and lists can use them without unfolding
    concrete contents. */
module Seqs {
  /** Concatenation is associative. */
  lemma ConcatAssoc<T>(a: seq<T>, b: seq<T>, c: seq<T>)
    ensures a + b + c == a + (b + c)
  {
  }

  /** Appending two elements one after the other appends the pair. */
  lemma AppendTwo<T>(s: seq<T>, x: T, y: T)
    ensures s + [x] + [y] == s + [x, y]
  {
  }

  /** Both parts of a concatenation are recovered by slicing. */
  lemma AppendSlices<T>(a: seq<T>, b: seq<T>)
    ensures (a + b)[..|a|] == a && (a + b)[|a|..] == b
  {
  }

  /** The parts on either side of a middle piece are recovered by slicing. */
  lemma SplitAround<T>(a: seq<T>, m: seq<T>, b: seq<T>)
    ensures (a + m + b)[..|a|] == a && (a + m + b)[|a| + |m|..] == b
  {
  }

  /** A common prefix cancels. */
  lemma CancelPrefix<T>(h: seq<T>, x: seq<T>, y: seq<T>)
    requires h + x == h + y
    ensures x == y
  {
    assert x == (h + x)[|h|..];
  }
}
