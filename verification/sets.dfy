/** Cardinality facts for the two name-allocation loops, whose termination measure is the
    number of taken names not yet probed. */
module FiniteSets {
  lemma ShrinkUnprobed(taken: set<string>, probed: set<string>, x: string)
    requires x in taken && x !in probed
    ensures |taken - (probed + {x})| < |taken - probed|
  {
    assert taken - (probed + {x}) == (taken - probed) - {x};
  }

  lemma SubsetSize(a: set<string>, b: set<string>)
    requires a <= b
    ensures |a| <= |b|
  {
    assert b == a + (b - a);
  }
}
