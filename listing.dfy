/** Reading a whole table back: the store yields the rows of a table in
    ascending id order, which is the order they were inserted in, since ids
    come from a counter that only goes up. */
module Listing {

  /** The keys of `m` that lie in [lo, hi), in ascending order. */
  function AscendingKeys<V>(m: map<int, V>, lo: int, hi: int): (ks: seq<int>)
    ensures forall i, j :: 0 <= i < j < |ks| ==> ks[i] < ks[j]
    ensures forall i :: 0 <= i < |ks| ==> ks[i] in m && lo <= ks[i] < hi
    decreases hi - lo
  {
    if hi <= lo then []
    else AscendingKeys(m, lo, hi - 1) + if hi - 1 in m then [hi - 1] else []
  }

  /** Every key of `m` in [lo, hi) is listed. */
  lemma {:induction false} AscendingKeysComplete<V>(m: map<int, V>, lo: int, hi: int, k: int)
    requires k in m && lo <= k < hi
    ensures k in KeySet(AscendingKeys(m, lo, hi))
    decreases hi - lo
  {
    var ks, init := AscendingKeys(m, lo, hi), AscendingKeys(m, lo, hi - 1);
    if k == hi - 1 {
      assert ks[|ks| - 1] == k;
    } else {
      AscendingKeysComplete(m, lo, hi - 1, k);
      var i :| 0 <= i < |init| && init[i] == k;
      assert ks[i] == k;
    }
  }

  /** A table whose keys all lie in [lo, hi) is listed in full. */
  lemma AscendingKeysCount<V>(m: map<int, V>, lo: int, hi: int)
    requires forall k :: k in m ==> lo <= k < hi
    ensures |AscendingKeys(m, lo, hi)| == |m|
    ensures KeySet(AscendingKeys(m, lo, hi)) == m.Keys
  {
    var ks := AscendingKeys(m, lo, hi);
    forall k | k in m ensures k in KeySet(ks) {
      AscendingKeysComplete(m, lo, hi, k);
    }
    assert KeySet(ks) == m.Keys;
    DistinctCardinality(ks);
    assert |m.Keys| == |m|;
  }

  /** The elements of a sequence of ids. */
  function KeySet(ks: seq<int>): set<int>
  {
    set i | 0 <= i < |ks| :: ks[i]
  }

  /** A strictly increasing sequence has as many distinct elements as entries. */
  lemma {:induction false} DistinctCardinality(ks: seq<int>)
    requires forall i, j :: 0 <= i < j < |ks| ==> ks[i] < ks[j]
    ensures |KeySet(ks)| == |ks|
  {
    if ks != [] {
      var init := ks[..|ks| - 1];
      DistinctCardinality(init);
      assert KeySet(ks) == KeySet(init) + {ks[|ks| - 1]};
      assert ks[|ks| - 1] !in KeySet(init);
    }
  }
}
