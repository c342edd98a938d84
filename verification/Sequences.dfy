/** What the other modules share about sequences. */
module Sequences {
  lemma Associates<T>(a: seq<T>, b: seq<T>, c: seq<T>)
    ensures (a + b) + c == a + (b + c)
  {}

  lemma InTheMiddle<T>(s: seq<T>, a: seq<T>, b: seq<T>, c: seq<T>, q: nat)
    requires s == a + (b + c) && q < |b|
    ensures |a| + q < |s| && s[|a| + q] == b[q]
  {}

  ghost predicate Distinct<T>(s: seq<T>) {
    forall i, j :: 0 <= i < j < |s| ==> s[i] != s[j]
  }
}
