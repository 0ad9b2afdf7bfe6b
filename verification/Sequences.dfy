/** Repetition in sequences. */
module Sequences {

  predicate SomeTwice<T(==)>(s: seq<T>) {
    exists i, j :: 0 <= i < j < |s| && s[i] == s[j]
  }

  lemma TwiceForGood<T>(s: seq<T>, t: seq<T>)
    requires SomeTwice(s) && s <= t
    ensures SomeTwice(t)
  {
    var i, j :| 0 <= i < j < |s| && s[i] == s[j];
    assert t[i] == t[j];
  }
}
