/** Small facts about sequences, proved apart from any text-matching context. */
module Seqs {

  lemma AppendAssoc<T>(a: seq<T>, b: seq<T>, x: seq<T>)
    ensures a + (b + x) == a + b + x
  {
  }

  lemma TakeDrop<T>(u: seq<T>, n: nat)
    requires n <= |u|
    ensures u[..n] + u[n..] == u
  {
  }

  lemma DropSlice<T>(u: seq<T>, a: nat, b: nat, c: nat)
    requires a <= |u| && b <= c <= |u| - a
    ensures u[a..][b..c] == u[a + b..a + c]
  {
  }

  /** `u[..i] + b + x` agrees with `u` before `i` and holds `b` from `i` on. */
  lemma SpliceAt<T>(u: seq<T>, i: nat, b: seq<T>, x: seq<T>)
    requires i <= |u|
    ensures |u[..i] + b + x| == i + |b| + |x|
    ensures forall k :: 0 <= k < i ==> (u[..i] + b + x)[k] == u[k]
    ensures forall r :: 0 <= r < |b| ==> (u[..i] + b + x)[i + r] == b[r]
  {
  }

  lemma ConsTail<T>(p: seq<T>, x: seq<T>)
    requires |p| > 0
    ensures [p[0]] + (p[1..] + x) == p + x
  {
    assert p == [p[0]] + p[1..];
  }
}
