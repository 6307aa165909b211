/** What a filter keeps, told by the positions it keeps: they increase, so order and number of the
    entries are those of the sequence. */
module Subsequences {

  ghost predicate Increasing(at: seq<nat>, n: nat) {
    (forall i, j :: 0 <= i < j < |at| ==> at[i] < at[j]) && forall i :: 0 <= i < |at| ==> at[i] < n
  }

  lemma IncreasingSnoc(at: seq<nat>, n: nat)
    requires Increasing(at, n)
    ensures Increasing(at, n + 1) && Increasing(at + [n], n + 1)
    ensures forall j :: j in at + [n] <==> j in at || j == n
  {
  }
}
