/** Records written field after field into a buffer, and read back field after field. */
module Fields {
  import opened Bytes
  import opened Files

  function Join(fs: seq<bytes>): (r: bytes) {
    if fs == [] then [] else fs[0] + Join(fs[1..])
  }

  function Sizes(fs: seq<bytes>): (r: seq<nat>)
    ensures |r| == |fs| && forall i | 0 <= i < |fs| :: r[i] == |fs[i]|
  {
    seq(|fs|, i requires 0 <= i < |fs| => |fs[i]|)
  }

  function Sum(ns: seq<nat>): nat {
    if ns == [] then 0 else ns[0] + Sum(ns[1..])
  }

  /** The fields of these sizes at the front of `b`. */
  function Split(b: bytes, ns: seq<nat>): (fs: seq<bytes>)
    requires Sum(ns) <= |b|
    ensures |fs| == |ns| && forall i | 0 <= i < |ns| :: |fs[i]| == ns[i]
    decreases |ns|
  {
    if ns == [] then [] else [b[..ns[0]]] + Split(b[ns[0]..], ns[1..])
  }

  lemma {:induction false} JoinLength(fs: seq<bytes>)
    ensures |Join(fs)| == Sum(Sizes(fs))
    decreases |fs|
  {
    if fs != [] {
      JoinLength(fs[1..]);
      assert Sizes(fs)[1..] == Sizes(fs[1..]);
    }
  }

  lemma {:induction false} JoinSnoc(fs: seq<bytes>, f: bytes)
    ensures Join(fs + [f]) == Join(fs) + f
    decreases |fs|
  {
    if fs == [] {
      assert (fs + [f])[1..] == [];
    } else {
      JoinSnoc(fs[1..], f);
      assert (fs + [f])[1..] == fs[1..] + [f];
    }
  }

  lemma JoinCons(f: bytes, fs: seq<bytes>)
    ensures Join([f] + fs) == f + Join(fs)
  {
    assert ([f] + fs)[1..] == fs;
  }

  lemma JoinOfOne(f: bytes)
    ensures Join([f]) == f
  {
    JoinCons(f, []);
    assert [f] + [] == [f];
  }

  lemma JoinOfTwo(f: bytes, g: bytes)
    ensures Join([f, g]) == f + g
  {
    JoinCons(f, [g]);
    JoinOfOne(g);
    assert [f] + [g] == [f, g];
  }

  lemma JoinOfThree(f: bytes, g: bytes, h: bytes)
    ensures Join([f, g, h]) == f + (g + h)
  {
    JoinCons(f, [g, h]);
    JoinOfTwo(g, h);
    assert [f] + [g, h] == [f, g, h];
  }

  /** Fields that stand at the front of `b` are what is cut off there. */
  lemma {:induction false} SplitOfJoin(fs: seq<bytes>, b: bytes)
    requires Join(fs) <= b
    ensures Sum(Sizes(fs)) <= |b| && Split(b, Sizes(fs)) == fs
    decreases |fs|
  {
    JoinLength(fs);
    if fs != [] {
      PrefixOfAppend(fs[0], Join(fs[1..]), b);
      SplitOfJoin(fs[1..], b[|fs[0]|..]);
      assert Sizes(fs)[1..] == Sizes(fs[1..]);
      assert b[..|fs[0]|] == fs[0];
    }
  }

  lemma {:induction false} JoinOfSplit(b: bytes, ns: seq<nat>)
    requires Sum(ns) <= |b|
    ensures Join(Split(b, ns)) == b[..Sum(ns)]
    decreases |ns|
  {
    if ns != [] {
      JoinOfSplit(b[ns[0]..], ns[1..]);
      assert Split(b, ns)[1..] == Split(b[ns[0]..], ns[1..]);
    }
  }

  /** The next field stands at `o`, and the fields after it behind it. */
  lemma FieldAt(b: bytes, o: nat, fs: seq<bytes>, i: nat)
    requires o <= |b| && i < |fs| && b[o..] == Join(fs[i..])
    ensures o + |fs[i]| <= |b| && b[o..o + |fs[i]|] == fs[i] && b[o + |fs[i]|..] == Join(fs[i + 1..])
  {
    assert fs[i..][1..] == fs[i + 1..];
    var f, rest := fs[i], Join(fs[i + 1..]);
    assert b[o..] == f + rest;
    assert b[o..][..|f|] == f && b[o..][|f|..] == rest;
  }

  lemma SumCons(n: nat, ns: seq<nat>)
    ensures Sum([n] + ns) == n + Sum(ns)
  {
    assert ([n] + ns)[1..] == ns;
  }

  lemma SumOfThree(x: nat, y: nat, z: nat, ns: seq<nat>)
    ensures Sum([x, y, z] + ns) == x + y + z + Sum(ns)
  {
    SumCons(x, [y, z] + ns);
    SumCons(y, [z] + ns);
    SumCons(z, ns);
    assert [x, y, z] + ns == [x] + ([y] + ([z] + ns));
    assert [y, z] + ns == [y] + ([z] + ns);
  }

  lemma {:induction false} SumAppend(a: seq<nat>, b: seq<nat>)
    ensures Sum(a + b) == Sum(a) + Sum(b)
    decreases |a|
  {
    if a == [] {
      assert a + b == b;
    } else {
      SumAppend(a[1..], b);
      assert (a + b)[1..] == a[1..] + b;
    }
  }

  lemma {:induction false} SumOfBlocks(n: nat)
    ensures Sum(Blocks(n)) == 32 * n
  {
    if n > 0 {
      SumOfBlocks(n - 1);
    }
  }

  /** The sizes of `n` keys in a row. */
  function Blocks(n: nat): (ns: seq<nat>)
    ensures |ns| == n && forall i | 0 <= i < n :: ns[i] == 32
  {
    if n == 0 then [] else [32] + Blocks(n - 1)
  }

  /** Each field lies where the sizes of the fields before it end. */
  lemma {:induction false} SplitAt(b: bytes, ns: seq<nat>, i: nat)
    requires i < |ns| && Sum(ns) <= |b|
    ensures Sum(ns[..i]) + ns[i] <= |b|
    ensures Split(b, ns)[i] == b[Sum(ns[..i])..Sum(ns[..i]) + ns[i]]
    decreases i
  {
    SplitCons(b, ns);
    if i > 0 {
      hide Split, Sum;
      var n, front := ns[0], ns[1..][..i - 1];
      SplitAt(b[n..], ns[1..], i - 1);
      assert ns[..i] == [n] + front;
      SumCons(n, front);
      SliceOfRest(b, n, Sum(front), Sum(front) + ns[i]);
    }
  }

  lemma SplitCons(b: bytes, ns: seq<nat>)
    requires ns != [] && Sum(ns) <= |b|
    ensures Sum(ns) == ns[0] + Sum(ns[1..]) && Split(b, ns) == [b[..ns[0]]] + Split(b[ns[0]..], ns[1..])
  {
  }

  lemma {:induction false} SumOfEights(ns: seq<nat>)
    requires forall i | 0 <= i < |ns| :: ns[i] == 8
    ensures Sum(ns) == 8 * |ns|
  {
    if ns != [] {
      SumOfEights(ns[1..]);
    }
  }

  /** Words at the front of a record lie at multiples of eight. */
  lemma WordAt(b: bytes, ns: seq<nat>, i: nat)
    requires i < |ns| && Sum(ns) <= |b| && forall j | 0 <= j <= i :: ns[j] == 8
    ensures |b| >= 8 * i + 8 && Split(b, ns)[i] == b[8 * i..8 * i + 8]
  {
    SplitAt(b, ns, i);
    SumOfEights(ns[..i]);
  }

  /** A buffer and the position at which the next field is written. */
  class Pen {
    const buf: array<byte>
    var ptr: nat
    ghost const start: nat
    ghost const before: bytes
    ghost var written: seq<bytes>

    ghost predicate Valid()
      reads this, buf
    {
      && start + |Join(written)| == ptr <= buf.Length == |before|
      && buf[..] == Overwrite(before, start, Join(written))
    }

    constructor (buf: array<byte>, at: nat)
      requires at <= buf.Length
      ensures Valid() && this.buf == buf && start == ptr == at && written == [] && before == buf[..]
    {
      this.buf, ptr, start, before, written := buf, at, at, buf[..], [];
    }

    /** One memcpy or encbe64, and the position moved past it. */
    method Put(s: bytes)
      requires Valid() && ptr + |s| <= buf.Length
      modifies this, buf
      ensures Valid() && ptr == old(ptr) + |s| && written == old(written) + [s]
      ensures Join(written) == old(Join(written)) + s
    {
      hide Overwrite;
      ghost var d, at := buf[..], ptr;
      OverwriteNone(d, at);
      for i := 0 to |s|
        invariant buf[..] == Overwrite(d, at, s[..i])
        invariant ptr == at && written == old(written)
      {
        OneMoreByte(d, at, s, i);
        buf[ptr + i] := s[i];
      }
      assert s[..|s|] == s;
      JoinSnoc(written, s);
      OverwriteTwice(before, start, Join(written), s);
      ptr := ptr + |s|;
      written := written + [s];
    }
  }

  /** What a pen has written stands in the buffer, and what stood before its start still does. */
  lemma PenWrote(pen: Pen)
    requires pen.Valid()
    ensures pen.ptr <= pen.buf.Length
    ensures pen.buf[pen.start..pen.ptr] == Join(pen.written) && pen.buf[..pen.start] == pen.before[..pen.start]
  {
    hide Join;
    assert pen.buf[..][pen.start..pen.ptr] == pen.buf[pen.start..pen.ptr];
    assert pen.buf[..][..pen.start] == pen.buf[..pen.start];
  }

  lemma OverwriteNone(d: bytes, at: nat)
    requires at <= |d|
    ensures Overwrite(d, at, []) == d
  {
  }

  lemma OneMoreByte(d: bytes, at: nat, s: bytes, i: nat)
    requires i < |s| && at + |s| <= |d|
    ensures |Overwrite(d, at, s[..i])| == |d| && Overwrite(d, at, s[..i])[at + i := s[i]] == Overwrite(d, at, s[..i + 1])
  {
    assert s[..i + 1] == s[..i] + [s[i]];
  }

  /** A buffer and the position at which the next field is read. */
  class Reader {
    const buf: bytes
    var ptr: nat
    ghost const start: nat
    ghost var taken: seq<bytes>

    ghost predicate Valid()
      reads this
    {
      start + |Join(taken)| == ptr <= |buf| && Join(taken) <= buf[start..]
    }

    constructor (buf: bytes, at: nat)
      requires at <= |buf|
      ensures Valid() && this.buf == buf && start == ptr == at && taken == []
    {
      this.buf, ptr, start, taken := buf, at, at, [];
    }

    /** The next `n` bytes, when the buffer has as many. */
    method Take(n: nat) returns (ok: bool, s: bytes)
      requires Valid()
      modifies this
      ensures Valid() && ok == (old(ptr) + n <= |buf|)
      ensures ok ==> |s| == n && ptr == old(ptr) + n && taken == old(taken) + [s] && s == buf[old(ptr)..ptr]
      ensures !ok ==> ptr == old(ptr) && taken == old(taken)
    {
      ok, s := ptr + n <= |buf|, [];
      if ok {
        s := buf[ptr..ptr + n];
        JoinSnoc(taken, s);
        assert buf[start..][|Join(taken)|..|Join(taken)| + n] == s;
        ptr := ptr + n;
        taken := taken + [s];
      }
    }
  }

  lemma NothingTaken(reader: Reader)
    requires reader.Valid() && reader.taken == []
    ensures reader.start == reader.ptr <= |reader.buf|
  {
  }

  /** The next key. */
  method TakeBlock(reader: Reader) returns (ok: bool, b: Block)
    requires reader.Valid()
    modifies reader
    ensures reader.Valid() && ok == (old(reader.ptr) + 0x20 <= |reader.buf|)
    ensures ok ==> reader.ptr == old(reader.ptr) + 0x20 && reader.taken == old(reader.taken) + [b]
    ensures ok ==> b == reader.buf[old(reader.ptr)..reader.ptr]
  {
    var s: bytes;
    ok, s := reader.Take(0x20);
    b := if ok then s else seq(0x20, _ => 0);
  }

  /** The next 64-bit word. */
  method TakeWord(reader: Reader) returns (ok: bool, x: uint64)
    requires reader.Valid()
    modifies reader
    ensures reader.Valid() && ok == (old(reader.ptr) + 8 <= |reader.buf|)
    ensures ok ==> reader.ptr == old(reader.ptr) + 8 && reader.taken == old(reader.taken) + [Be64(x)]
    ensures ok ==> x == De64(reader.buf[old(reader.ptr)..reader.ptr])
  {
    hide De64, Be64;
    var s: bytes;
    ok, s := reader.Take(8);
    x := if ok then De64(s) else 0;
  }

  method TakeSevenBlocks(reader: Reader) returns (ok: bool, ks: seq<Block>)
    requires reader.Valid()
    modifies reader
    ensures reader.Valid() && ok == (old(reader.ptr) + 7 * 0x20 <= |reader.buf|)
    ensures ok ==> |ks| == 7 && reader.taken == old(reader.taken) + ks && reader.ptr == old(reader.ptr) + 7 * 0x20
  {
    hide Reader.Valid;
    var a: Block, b: Block, c: Block, d: Block, e: Block, f: Block, g: Block;
    ks := [];
    ok, a := TakeBlock(reader);
    if !ok { return; }
    ok, b := TakeBlock(reader);
    if !ok { return; }
    ok, c := TakeBlock(reader);
    if !ok { return; }
    ok, d := TakeBlock(reader);
    if !ok { return; }
    ok, e := TakeBlock(reader);
    if !ok { return; }
    ok, f := TakeBlock(reader);
    if !ok { return; }
    ok, g := TakeBlock(reader);
    if !ok { return; }
    ks := [a, b, c, d, e, f, g];
  }

  lemma InOneGo(w: seq<bytes>, a: seq<bytes>, b: seq<bytes>, c: seq<bytes>)
    ensures w + a + b + c == w + (a + b + c)
  {
  }

  /** Three keys in a row. */
  method PutThree(pen: Pen, x: Block, y: Block, z: Block)
    requires pen.Valid() && pen.ptr + 3 * 0x20 <= pen.buf.Length
    modifies pen, pen.buf
    ensures pen.Valid() && pen.ptr == old(pen.ptr) + 3 * 0x20 && pen.written == old(pen.written) + [x, y, z]
  {
    hide Pen.Valid;
    pen.Put(x);
    pen.Put(y);
    pen.Put(z);
  }
}
