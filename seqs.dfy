/**
 * Small facts about appending to and slicing sequences, stated once for
 * any element type so that the session proofs can cite them.
 */
module Seqs {

  lemma PrefixOfAppend<T>(a: seq<T>, b: seq<T>)
    ensures (a + b)[..|a|] == a
  {
  }

  lemma TailOfAppend<T>(a: seq<T>, b: seq<T>)
    requires |a| >= 1
    ensures (a + b)[1..] == a[1..] + b
  {
  }

  lemma SplitLast<T>(a: seq<T>)
    requires |a| >= 1
    ensures a == a[..|a| - 1] + [a[|a| - 1]]
  {
  }

  lemma AppendTwo<T>(a: seq<T>, x: T, y: T)
    ensures a + [x] + [y] == a + [x, y]
  {
  }

  lemma Singleton<T>(a: seq<T>)
    requires |a| == 1
    ensures a == [a[0]] && a[1..] == []
  {
  }

  lemma AppendToEmpty<T>(x: T)
    ensures [] + [x] == [x]
  {
  }
}
