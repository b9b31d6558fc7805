/**
 * Counting facts about finite sets.
 */
module Sets {
  lemma {:induction false} SubsetCount<T>(some: set<T>, all: set<T>)
    requires some <= all
    ensures |some| <= |all|
    decreases |some|
  {
    if some != {} {
      var x :| x in some;
      SubsetCount(some - {x}, all - {x});
    }
  }

  lemma SubsetOfSameSize<T>(some: set<T>, all: set<T>)
    requires some <= all && |some| == |all|
    ensures some == all
  {
    if some != all {
      var x :| x in all && x !in some;
      assert some <= all - {x};
      SubsetCount(some, all - {x});
    }
  }
}
