/** Counting finite sets. */
module Sets {
  lemma {:induction false} SubsetIsNoLarger<T>(a: set<T>, b: set<T>)
    requires a <= b
    ensures |a| <= |b|
  {
    if x :| x in a {
      SubsetIsNoLarger(a - {x}, b - {x});
    }
  }
}
