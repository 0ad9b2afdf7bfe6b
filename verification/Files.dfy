/** A stdio stream open for reading and writing, and the outcomes its callers test for. */
module Files {
  import opened Bytes

  /** The contents after writing `s` at `pos`; a gap past the old end is filled with zeros. */
  function Overwrite(data: bytes, pos: nat, s: bytes): (r: bytes)
    ensures |r| == if |s| == 0 && pos <= |data| then |data| else if pos + |s| > |data| then pos + |s| else |data|
    ensures pos <= |data| ==> r[..pos] == data[..pos]
    ensures r[pos..pos + |s|] == s
    ensures pos + |s| <= |data| ==> r[pos + |s|..] == data[pos + |s|..]
  {
    var before := if pos <= |data| then data[..pos] else data + seq(pos - |data|, _ => 0);
    before + s + if pos + |s| <= |data| then data[pos + |s|..] else []
  }

  lemma OverwriteFront(data: bytes, s: bytes)
    requires |s| <= |data|
    ensures Overwrite(data, 0, s) == s + data[|s|..]
  {
  }

  lemma WriteAfterPrefix(h: bytes, a: bytes, rest: bytes, s: bytes)
    requires a <= rest
    ensures h + (a + s) <= Overwrite(h + rest, |h| + |a|, s)
    ensures |Overwrite(h + rest, |h| + |a|, s)| <= |h + rest| + |s|
  {
    var d := Overwrite(h + rest, |h| + |a|, s);
    assert d[..|h| + |a|] == h + a;
    assert d[|h| + |a|..|h| + |a| + |s|] == s;
    assert d[..|h| + |a| + |s|] == h + (a + s);
  }

  lemma OverwriteEnd(data: bytes, s: bytes)
    ensures Overwrite(data, |data|, s) == data + s
  {
  }

  lemma OverwriteNothing(s: bytes)
    ensures Overwrite([], 0, s) == s
  {
  }

  /** Two writes, the second where the first one stopped, are one write. */
  lemma OverwriteTwice(data: bytes, pos: nat, s: bytes, t: bytes)
    requires pos <= |data|
    ensures Overwrite(Overwrite(data, pos, s), pos + |s|, t) == Overwrite(data, pos, s + t)
  {
    var d := Overwrite(data, pos, s);
    assert d[..pos + |s|] == data[..pos] + s;
    if pos + |s| + |t| <= |data| {
      assert d[pos + |s| + |t|..] == data[pos + |s| + |t|..];
    }
  }

  lemma FourWrites(d: bytes, at: nat, a: bytes, b: bytes, c: bytes, e: bytes)
    requires at <= |d|
    ensures Overwrite(Overwrite(Overwrite(Overwrite(d, at, a), at + |a|, b), at + |a| + |b|, c), at + |a| + |b| + |c|, e)
         == Overwrite(d, at, a + b + c + e)
  {
    hide Overwrite;
    OverwriteTwice(d, at, a, b);
    OverwriteTwice(d, at, a + b, c);
    OverwriteTwice(d, at, a + b + c, e);
  }

  class File {
    var data: bytes
    var pos: nat
    /** How many more writes succeed: a full disk, or the process stopping, is a budget running out. */
    var budget: nat

    constructor (data: bytes, budget: nat)
      ensures this.data == data && this.pos == 0 && this.budget == budget
    {
      this.data, this.pos, this.budget := data, 0, budget;
    }

    /** fseek takes a signed offset and refuses a negative one. */
    method Seek(to: uint64) returns (ok: bool)
      modifies this`pos
      ensures ok == (to < TWO63)
      ensures pos == if ok then to else old(pos)
    {
      ok := to < TWO63;
      if ok {
        pos := to;
      }
    }

    method Read(n: nat) returns (ok: bool, got: bytes)
      modifies this`pos
      ensures ok == (old(pos) + n <= |data|)
      ensures ok ==> got == data[old(pos)..old(pos) + n] && pos == old(pos) + n
    {
      ok := pos + n <= |data|;
      got := [];
      if ok {
        got := data[pos..pos + n];
        pos := pos + n;
      }
    }

    method Write(s: bytes) returns (ok: bool)
      modifies this
      ensures ok == (old(budget) > 0)
      ensures ok ==> data == Overwrite(old(data), old(pos), s) && pos == old(pos) + |s| && budget == old(budget) - 1
      ensures !ok ==> data == old(data) && budget == 0
    {
      ok := budget > 0;
      if ok {
        data := Overwrite(data, pos, s);
        pos := pos + |s|;
        budget := budget - 1;
      }
    }

    /** fread of one item: an item of size zero is never read. */
    method ReadItem(n: nat) returns (ok: bool, got: bytes)
      modifies this`pos
      ensures ok == (n > 0 && old(pos) + n <= |data|)
      ensures ok ==> got == data[old(pos)..old(pos) + n] && pos == old(pos) + n
    {
      ok, got := n > 0, [];
      if ok {
        ok, got := Read(n);
      }
    }

    /** fwrite of one item: an item of size zero is never written. */
    method WriteItem(s: bytes) returns (ok: bool)
      modifies this
      ensures ok == (s != [] && old(budget) > 0)
      ensures ok ==> data == Overwrite(old(data), old(pos), s) && pos == old(pos) + |s| && budget == old(budget) - 1
      ensures !ok ==> data == old(data)
    {
      ok := s != [];
      if ok {
        ok := Write(s);
      }
    }
  }
}
