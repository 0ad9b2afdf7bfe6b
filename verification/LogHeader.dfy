/** What the conversation file and the undelivered file have in common: an authenticated header with
    the file's length and the number of records, and a MAC to start the chain from. */
module LogHeader {
  import opened Bytes
  import opened Crypto

  /** What stands in for the previous MAC in the first record. */
  const INITIAL_MAC: Block := Counting(32)

  function Header(p: Primitives, auth: Block, flen: uint64, mnum: uint64): (r: bytes)
    ensures |r| == 0x30
  {
    var fields := Be64(flen) + Be64(mnum);
    fields + p.hmac(auth, fields)
  }

  predicate Authentic(p: Primitives, auth: Block, file: bytes)
    ensures Authentic(p, auth, file) ==> |file| >= 0x30
  {
    |file| >= 0x30 && p.hmac(auth, file[..0x10]) == file[0x10..0x30]
  }

  function FileLength(file: bytes): uint64
    requires |file| >= 0x30
  {
    De64(file[..8])
  }

  function RecordCount(file: bytes): uint64
    requires |file| >= 0x30
  {
    De64(file[8..0x10])
  }

  lemma HeaderFields(p: Primitives, auth: Block, flen: uint64, mnum: uint64, file: bytes)
    requires Header(p, auth, flen, mnum) <= file
    ensures Authentic(p, auth, file) && FileLength(file) == flen && RecordCount(file) == mnum
  {
    var h := Header(p, auth, flen, mnum);
    SliceOfPrefix(h, file, 0, 8);
    SliceOfPrefix(h, file, 8, 0x10);
    SliceOfPrefix(h, file, 0, 0x10);
    SliceOfPrefix(h, file, 0x10, 0x30);
    assert h[..8] == Be64(flen) && h[8..0x10] == Be64(mnum);
    assert h[..0x10] == Be64(flen) + Be64(mnum);
    DeBe64(flen);
    DeBe64(mnum);
  }

  /** An authentic header is the one its two fields determine. */
  lemma HeaderFromFields(p: Primitives, auth: Block, file: bytes)
    requires Authentic(p, auth, file)
    ensures Header(p, auth, FileLength(file), RecordCount(file)) == file[..0x30]
  {
    assert file[..0x10] == file[..8] + file[8..0x10];
    assert file[..0x30] == file[..0x10] + file[0x10..0x30];
  }

  /** The header byte for byte: the length, the count, and a MAC over both. */
  lemma HeaderIs(p: Primitives, auth: Block, flen: uint64, mnum: uint64, file: bytes)
    requires |file| >= 0x30
    ensures Header(p, auth, flen, mnum) == file[..0x30] <==>
      file[..8] == Be64(flen) && file[8..0x10] == Be64(mnum) && file[0x10..0x30] == p.hmac(auth, file[..0x10])
  {
    hide Be64;
    var a, b := Be64(flen), Be64(mnum);
    PartsAgree(a, b, p.hmac(auth, a + b), file);
  }

  lemma PartsAgree(a: bytes, b: bytes, c: bytes, file: bytes)
    requires |a| == 8 && |b| == 8 && |c| == 0x20 && |file| >= 0x30
    ensures a + b + c == file[..0x30] <==> a + b == file[..0x10] && c == file[0x10..0x30]
    ensures a + b == file[..0x10] <==> a == file[..8] && b == file[8..0x10]
  {
    var s, t := a + b + c, file[..0x30];
    assert s[..8] == a && s[8..0x10] == b && s[..0x10] == a + b && s[0x10..] == c;
    assert t[..0x10] == file[..0x10] && t[0x10..] == file[0x10..0x30];
    assert t == t[..0x10] + t[0x10..];
    assert (a + b)[..8] == a && (a + b)[8..] == b;
    assert file[..0x10][..8] == file[..8] && file[..0x10][8..] == file[8..0x10];
    assert file[..0x10] == file[..8] + file[8..0x10];
  }

  /** What a loader sees in the 0x30 bytes it read. */
  lemma HeaderRead(p: Primitives, auth: Block, file: bytes, buf: bytes)
    requires |file| >= 0x30 && buf == file[..0x30]
    ensures Authentic(p, auth, file) <==> p.hmac(auth, buf[..0x10]) == buf[0x10..]
    ensures FileLength(file) == De64(buf[..8]) && RecordCount(file) == De64(buf[8..0x10])
  {
    assert buf[..0x10] == file[..0x10] && buf[0x10..] == file[0x10..0x30];
    assert buf[..8] == file[..8] && buf[8..0x10] == file[8..0x10];
  }

  lemma SplitOff(file: bytes, a: bytes, b: bytes, o: nat, end: nat)
    requires 0x30 + |a| == o && o + |b| == end <= |file|
    ensures a + b == file[0x30..end] <==> a == file[0x30..o] && b == file[o..end]
  {
    if a + b == file[0x30..end] {
      assert a == (a + b)[..|a|] && b == (a + b)[|a|..];
    }
  }

  lemma HeadAndRest(file: bytes, h: bytes, rs: bytes, end: nat)
    requires |h| == 0x30 && 0x30 + |rs| == end <= |file|
    ensures h + rs <= file <==> h == file[..0x30] && rs == file[0x30..end]
  {
    if h + rs <= file {
      PrefixOfAppend(h, rs, file);
      assert file[0x30..end] == file[0x30..][..|rs|];
    }
    assert file[..end] == file[..0x30] + file[0x30..end];
  }
}
