/** Sparse rows: pairs of a 1-based index and a value. */
module Sparse {

  datatype Feature = Feature(index: int, value: real)

  /** Indices within 1 to `n`, strictly ascending. */
  predicate ValidRow(row: seq<Feature>, n: nat) {
    && (forall k :: 0 <= k < |row| ==> 1 <= row[k].index <= n)
    && (forall i, k :: 0 <= i < k < |row| ==> row[i].index < row[k].index)
  }

  predicate Rows(x: seq<seq<Feature>>, n: nat) {
    forall i :: 0 <= i < |x| ==> ValidRow(x[i], n)
  }
}
