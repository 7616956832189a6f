/** Ascending positions in a list: how a selection keeps the list's order. */
module Positions {
  predicate Ascending(at: seq<nat>, n: nat) {
    && (forall j :: 0 <= j < |at| ==> at[j] < n)
    && forall i, j :: 0 <= i < j < |at| ==> at[i] < at[j]
  }

  lemma Extended(at: seq<nat>, n: nat)
    requires Ascending(at, n)
    ensures Ascending(at, n + 1) && Ascending(at + [n], n + 1)
  {
  }
}
