/** Generic sequence helpers. */
module Seqs {

  /** `s` in reverse order. */
  function Reverse<T>(s: seq<T>): (r: seq<T>)
    ensures |r| == |s|
    ensures forall i :: 0 <= i < |s| ==> r[i] == s[|s| - 1 - i]
  {
    seq(|s|, i requires 0 <= i < |s| => s[|s| - 1 - i])
  }

  /** Index `|a| + t` of `a + b` is index `t` of `b`. */
  lemma ConcatRight<T>(a: seq<T>, b: seq<T>, t: nat)
    requires t < |b|
    ensures |a| + t < |a + b| && (a + b)[|a| + t] == b[t]
  {
  }

  /** Index `i` of `a + b` is index `i` of `a` when `i` is inside `a`. */
  lemma ConcatLeft<T>(a: seq<T>, b: seq<T>, i: nat)
    requires i < |a|
    ensures i < |a + b| && (a + b)[i] == a[i]
  {
  }
}
