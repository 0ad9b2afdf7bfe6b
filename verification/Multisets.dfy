/** Arithmetic of multisets. */
module Multisets {

  lemma Cancel<T>(a: multiset<T>, b: multiset<T>, common: multiset<T>, more: multiset<T>)
    requires a + common == b + (common + more)
    ensures a == b + more
  {
    assert a == a + common - common;
    assert b + (common + more) - common == b + more;
  }
}
