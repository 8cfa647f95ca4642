/** Sizes of finite sets. */
module Sets {
  lemma SubsetIsSmaller<T>(a: set<T>, b: set<T>)
    requires a <= b
    ensures |a| <= |b|
  {
    assert b == a + (b - a);
  }

  lemma MajoritiesMeet<T>(all: set<T>, a: set<T>, b: set<T>) returns (x: T)
    requires a <= all && b <= all && 2 * |a| > |all| && 2 * |b| > |all|
    ensures x in a && x in b
  {
    if a * b == {} {
      assert |a + b| == |a| + |b|;
      SubsetIsSmaller(a + b, all);
      assert false;
    }
    x :| x in a * b;
  }
}
