/** Regrouping concatenations. */
module Sequences {

  /** Moving the front of s to the end of a changes nothing. */
  lemma MoveFront<T>(a: seq<T>, s: seq<T>, n: nat)
    requires n <= |s|
    ensures (a + s[..n]) + s[n..] == a + s
  {
  }

  lemma Associate<T>(a: seq<T>, b: seq<T>, bc: seq<T>, c: seq<T>)
    requires bc == b + c
    ensures a + bc == (a + b) + c
  {
  }
}
