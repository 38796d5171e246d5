/** Small helpers on sequences shared by both tokenizers. */
module Wrappers {
  datatype Option<T> = None | Some(value: T)
}

module Seqs {

  /** The concatenation of a sequence of sequences (Rust's `concat` / `flatten`). */
  function Concat<T>(ss: seq<seq<T>>): (r: seq<T>)
    decreases |ss|
  {
    if ss == [] then [] else ss[0] + Concat(ss[1..])
  }

  lemma {:induction false} ConcatAppend<T>(a: seq<seq<T>>, b: seq<seq<T>>)
    ensures Concat(a + b) == Concat(a) + Concat(b)
    decreases |a|
  {
    if a == [] {
      assert a + b == b;
    } else {
      assert (a + b)[1..] == a[1..] + b;
      ConcatAppend(a[1..], b);
    }
  }

  /** A slice that ends one further is the shorter slice and one more element. */
  lemma SliceSnoc<T>(s: seq<T>, i: nat, k: nat)
    requires i < k <= |s|
    ensures s[i..k] == s[i..k - 1] + [s[k - 1]]
  {
  }

  /** Concatenating the one-element sequences of the elements of `s` gives `s` back. */
  lemma {:induction false} ConcatSingletons<T>(s: seq<T>)
    ensures Concat(seq(|s|, i requires 0 <= i < |s| => [s[i]])) == s
    decreases |s|
  {
    var ss := seq(|s|, i requires 0 <= i < |s| => [s[i]]);
    if s != [] {
      assert ss[1..] == seq(|s[1..]|, i requires 0 <= i < |s[1..]| => [s[1..][i]]);
      ConcatSingletons(s[1..]);
      assert s == [s[0]] + s[1..];
    }
  }
}
