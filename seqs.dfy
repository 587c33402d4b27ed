/** Sequence helpers: duplicate-freedom and Python's `list(set(xs))`. */
module Seqs {

  /** No element occurs twice. */
  ghost predicate Distinct<T>(s: seq<T>) {
    forall i, j :: 0 <= i < j < |s| ==> s[i] != s[j]
  }

  /** The elements of a sequence, forgetting order and multiplicity. */
  function Elems<T>(s: seq<T>): set<T> {
    set x | x in s
  }

  /**
   * `list(set(xs))`: Python leaves the order of the resulting list
   * unspecified, so the element to emit next is picked by `:|`.
   */
  method ListOfSet<T>(xs: set<T>) returns (r: seq<T>)
    ensures Distinct(r)
    ensures Elems(r) == xs
    ensures |r| == |xs|
  {
    r := [];
    var rest := xs;
    while rest != {}
      invariant Distinct(r)
      invariant Elems(r) !! rest && Elems(r) + rest == xs
      invariant |r| + |rest| == |xs|
      decreases |rest|
    {
      var x :| x in rest;
      r := r + [x];
      rest := rest - {x};
    }
  }

  /** A sequence has as many elements as it has distinct ones exactly when it repeats none. */
  lemma {:induction false} DistinctCard<T>(s: seq<T>)
    requires Distinct(s)
    ensures |Elems(s)| == |s|
  {
    if s != [] {
      var t := s[..|s| - 1];
      assert Distinct(t);
      DistinctCard(t);
      assert s == t + [s[|s| - 1]];
      assert Elems(s) == Elems(t) + {s[|s| - 1]};
      assert s[|s| - 1] !in Elems(t);
    }
  }
}
