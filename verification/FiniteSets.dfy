/** Sizes of finite sets. */
module FiniteSets {

  lemma {:induction false} SubsetSize<T>(a: set<T>, b: set<T>)
    requires a <= b
    ensures |a| <= |b| && (a != b ==> |a| < |b|)
    decreases |b|
  {
    if a == b {
    } else {
      var x :| x in b && x !in a;
      SubsetSize(a, b - {x});
    }
  }
}
