/** Values that may be absent, and lists that may fail to be read. */
module Options {
  datatype Option<+T> = None | Some(value: T)

  /** What was read before, followed by what is still to be read. */
  function Onto<T>(done: seq<T>, r: Option<seq<T>>): Option<seq<T>> {
    if r.None? then None else Some(done + r.value)
  }

  lemma OntoNothing<T>(r: Option<seq<T>>)
    ensures Onto([], r) == r
  {
    if r.Some? {
      assert [] + r.value == r.value;
    }
  }

  lemma OntoNone<T>(done: seq<T>)
    ensures Onto(done, Some([])) == Some(done)
  {
    assert done + [] == done;
  }

  lemma OntoTwice<T>(a: seq<T>, b: seq<T>, r: Option<seq<T>>)
    ensures Onto(a, Onto(b, r)) == Onto(a + b, r)
  {
    if r.Some? {
      assert a + (b + r.value) == a + b + r.value;
    }
  }
}
