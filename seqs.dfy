/** Small facts about sequences that the decoder, the driver and the
    message line share. */
module Seqs {

  /** Concatenation is associative. */
  lemma AppendAssoc<T>(a: seq<T>, b: seq<T>, c: seq<T>)
    ensures (a + b) + c == a + (b + c)
  {
  }

  /** A non-empty sequence is its head followed by its tail. */
  lemma HeadTail<T>(s: seq<T>)
    requires s != []
    ensures s == [s[0]] + s[1..]
  {
  }

  /** Dropping one more element from a suffix that starts with `x`. */
  lemma DropHead<T>(a: seq<T>, n: nat, x: T, t: seq<T>)
    requires 0 < n <= |a| && a[n - 1..] == [x] + t
    ensures a[n..] == t
  {
    assert a[n..] == a[n - 1..][1..];
  }
}
