/** Two facts about the size of finite sets. */
module FiniteSets {
  /** A set of naturals below n has at most n members. */
  lemma {:induction false} Bounded(d: set<nat>, n: nat)
    requires forall k :: k in d ==> k < n
    ensures |d| <= n
  {
    if n == 0 {
      assert d == {};
    } else {
      Bounded(d - {n - 1}, n - 1);
      assert d <= (d - {n - 1}) + {n - 1};
    }
  }

  lemma CardinalityGrows(a: set<nat>, b: set<nat>)
    requires a <= b
    ensures |a| <= |b| && (a != b ==> |a| < |b|)
  {
    assert b == a + (b - a);
  }
}
