/** Facts about sequences shared by the other modules. */
module Seqs {

  /** Concatenation regroups; stated once so that callers need not expand three sequences. */
  lemma Assoc<T>(a: seq<T>, b: seq<T>, c: seq<T>)
    ensures a + (b + c) == a + b + c
  {
  }

  /** Cutting a concatenation inside its left part. */
  lemma AppendSlices<T>(a: seq<T>, b: seq<T>, n: nat)
    requires n <= |a|
    ensures (a + b)[..n] == a[..n] && (a + b)[n..] == a[n..] + b
  {
  }

  /** The first element of a non-empty sequence, put back in front of the rest. */
  lemma ConsRegroup<T>(a: seq<T>, x: seq<T>, y: seq<T>)
    requires a != []
    ensures [a[0]] + (a[1..] + x + y) == a + x + y
  {
    assert a == [a[0]] + a[1..];
  }

  /** Cutting a sequence with one element put in front. */
  lemma ConsSlices<T>(x: T, t: seq<T>, n: nat)
    requires n <= |t|
    ensures ([x] + t)[1..] == t
    ensures ([x] + t)[..n + 1] == [x] + t[..n] && ([x] + t)[n + 1..] == t[n..]
  {
  }

  lemma HeadTail<T>(x: T, y: seq<T>)
    ensures ([x] + y)[0] == x && ([x] + y)[1..] == y
  {
  }
}
