/** How accounts are stored. */
module Accounts {
  import opened Bytes
  import opened Crypto
  import opened DataFile
  import opened Fields
  import opened Options

  datatype Account = Account(
    uname: bytes, addr: bytes, key: bytes, sfing: Block,
    fFile: Block, fSymm: Block, fHmac: Block,
    nFile: Block, nSymm: Block, nHmac: Block)

  /** Lengths are 64-bit words. */
  predicate Representable(a: Account) {
    |a.uname| < TWO64 && |a.addr| < TWO64 && |a.key| < TWO64
  }

  function FieldsOf(a: Account): seq<bytes> {
    [Be64(Wrap64(|a.uname|)), Be64(Wrap64(|a.addr|)), Be64(Wrap64(|a.key|)), a.uname, a.addr, a.key, a.sfing,
     a.fFile, a.fSymm, a.fHmac, a.nFile, a.nSymm, a.nHmac]
  }

  function FieldSizes(u: nat, a: nat, k: nat): (ns: seq<nat>)
    ensures Sum(ns) == 24 + u + a + k + 7 * 0x20
  {
    SumOfThree(8, 8, 8, [u, a, k] + Blocks(7));
    SumOfThree(u, a, k, Blocks(7));
    SumOfBlocks(7);
    [8, 8, 8] + ([u, a, k] + Blocks(7))
  }

  /** account_bin_size. */
  function BinSize(a: Account): nat {
    8 + 8 + 8 + |a.uname| + |a.addr| + |a.key| + 7 * 0x20
  }

  /** account_write_bin. */
  function WriteBin(a: Account): bytes {
    Join(FieldsOf(a))
  }

  /** account_parse_bin. */
  function ParseBin(b: bytes): Parsed<Account> {
    if |b| < 24 then Overread else
    var ns := FieldSizes(De64(b[..8]), De64(b[8..16]), De64(b[16..24]));
    if Sum(ns) > |b| then Overread else
    var fs := Split(b, ns);
    Got(Account(fs[3], fs[4], fs[5], fs[6], fs[7], fs[8], fs[9], fs[10], fs[11], fs[12]), Sum(ns))
  }

  lemma WrittenSizes(a: Account)
    ensures Sizes(FieldsOf(a)) == FieldSizes(|a.uname|, |a.addr|, |a.key|)
    ensures |WriteBin(a)| == BinSize(a)
  {
    hide Be64, Wrap64;
    assert Sizes(FieldsOf(a)) == FieldSizes(|a.uname|, |a.addr|, |a.key|);
    JoinLength(FieldsOf(a));
  }

  /** A record byte for byte: three lengths, the three strings, and seven keys and names of files. */
  predicate RecordStands(a: Account, b: bytes) {
    var u, v, w := 24 + |a.uname|, 24 + |a.uname| + |a.addr|, 24 + |a.uname| + |a.addr| + |a.key|;
    && |b| == w + 0xe0
    && b[..8] == Be64(Wrap64(|a.uname|)) && b[8..16] == Be64(Wrap64(|a.addr|)) && b[16..24] == Be64(Wrap64(|a.key|))
    && b[24..u] == a.uname && b[u..v] == a.addr && b[v..w] == a.key
    && b[w..w + 0x20] == a.sfing
    && b[w + 0x20..w + 0x40] == a.fFile && b[w + 0x40..w + 0x60] == a.fSymm && b[w + 0x60..w + 0x80] == a.fHmac
    && b[w + 0x80..w + 0xa0] == a.nFile && b[w + 0xa0..w + 0xc0] == a.nSymm && b[w + 0xc0..] == a.nHmac
  }

  lemma WrittenStands(a: Account)
    ensures RecordStands(a, WriteBin(a))
  {
    hide Be64, Wrap64, Join;
    var b, fs := WriteBin(a), FieldsOf(a);
    WrittenSizes(a);
    StringsStand(b, fs);
    KeysStand(b, 24 + |a.uname| + |a.addr| + |a.key|, fs);
  }

  lemma StringsStand(b: bytes, fs: seq<bytes>)
    requires |fs| == 13 && b == Join(fs) && |fs[0]| == 8 && |fs[1]| == 8 && |fs[2]| == 8
    requires |b| >= 24 + |fs[3]| + |fs[4]| + |fs[5]|
    ensures var u, v, w := 24 + |fs[3]|, 24 + |fs[3]| + |fs[4]|, 24 + |fs[3]| + |fs[4]| + |fs[5]|;
      && b[..8] == fs[0] && b[8..16] == fs[1] && b[16..24] == fs[2]
      && b[24..u] == fs[3] && b[u..v] == fs[4] && b[v..w] == fs[5] && b[w..] == Join(fs[6..])
  {
    hide Join;
    assert fs[0..] == fs && b[0..] == b;
    FieldAt(b, 0, fs, 0);
    FieldAt(b, 8, fs, 1);
    FieldAt(b, 16, fs, 2);
    FieldAt(b, 24, fs, 3);
    FieldAt(b, 24 + |fs[3]|, fs, 4);
    FieldAt(b, 24 + |fs[3]| + |fs[4]|, fs, 5);
  }

  lemma KeysStand(b: bytes, w: nat, fs: seq<bytes>)
    requires |b| == w + 0xe0 && |fs| == 13 && b[w..] == Join(fs[6..]) && forall i | 6 <= i < 13 :: |fs[i]| == 0x20
    ensures b[w..w + 0x20] == fs[6]
    ensures b[w + 0x20..w + 0x40] == fs[7] && b[w + 0x40..w + 0x60] == fs[8] && b[w + 0x60..w + 0x80] == fs[9]
    ensures b[w + 0x80..w + 0xa0] == fs[10] && b[w + 0xa0..w + 0xc0] == fs[11] && b[w + 0xc0..] == fs[12]
  {
    hide Join;
    FieldAt(b, w, fs, 6);
    FieldAt(b, w + 0x20, fs, 7);
    FieldAt(b, w + 0x40, fs, 8);
    FieldAt(b, w + 0x60, fs, 9);
    FieldAt(b, w + 0x80, fs, 10);
    FieldAt(b, w + 0xa0, fs, 11);
    FieldAt(b, w + 0xc0, fs, 12);
  }

  /** And any record of a list of accounts is the one that stands where it was written. */
  lemma ParsedStands(b: bytes)
    requires ParseBin(b).Got?
    ensures var Got(a, used) := ParseBin(b); used <= |b| && RecordStands(a, b[..used])
  {
    hide RecordStands, ParseBin;
    ParsedIsWritten(b);
    WrittenStands(ParseBin(b).x);
  }

  /** What account_write_bin writes is read back by account_parse_bin, whatever follows. */
  lemma WrittenIsParsed(a: Account, rest: bytes)
    requires Representable(a)
    ensures ParseBin(WriteBin(a) + rest) == Got(a, BinSize(a))
  {
    hide Be64, De64, Sum, Split;
    var b, fs := WriteBin(a) + rest, FieldsOf(a);
    var ns := FieldSizes(|a.uname|, |a.addr|, |a.key|);
    WrittenSizes(a);
    SplitOfJoin(fs, b);
    WordAt(b, ns, 0);
    WordAt(b, ns, 1);
    WordAt(b, ns, 2);
    DeBe64(|a.uname|);
    DeBe64(|a.addr|);
    DeBe64(|a.key|);
    assert fs[0] == Be64(|a.uname|) && fs[1] == Be64(|a.addr|) && fs[2] == Be64(|a.key|);
  }

  /** And account_parse_bin takes nothing else. */
  lemma ParsedIsWritten(b: bytes)
    requires ParseBin(b).Got?
    ensures var Got(a, used) := ParseBin(b);
      Representable(a) && used == BinSize(a) <= |b| && WriteBin(a) == b[..used]
  {
    hide Be64, De64, Sum, Split;
    var ns := FieldSizes(De64(b[..8]), De64(b[8..16]), De64(b[16..24]));
    var fs := Split(b, ns);
    WordAt(b, ns, 0);
    WordAt(b, ns, 1);
    WordAt(b, ns, 2);
    JoinOfSplit(b, ns);
    assert FieldsOf(ParseBin(b).x) == fs;
  }

  /** The user file, for given keys of its preamble. */
  function UserFile(keys: bytes -> Option<Keys>): Format<Account> {
    Format(0x40, keys, BinSize, WriteBin, ParseBin)
  }

  /** The list of accounts is read back as it was written, and only such files are accepted. */
  lemma AccountsSurvive(p: Primitives, keys: bytes -> Option<Keys>, salt: Block, pref: bytes,
          accounts: seq<Account>, file: bytes)
    requires |pref| == 0x40 && keys(pref).Some? && |accounts| < TWO64
    requires forall i | 0 <= i < |accounts| :: Representable(accounts[i])
    requires TotalLen(UserFile(keys), accounts) < TWO64
    requires Container(p, keys(pref).value, |accounts|, salt, pref, WriteAll(UserFile(keys), accounts)) <= file
    ensures Load(p, UserFile(keys), file) == Ok(accounts)
  {
    hide Container, Load, WriteBin, ParseBin, TotalLen, WriteAll;
    var f := UserFile(keys);
    forall i | 0 <= i < |accounts|
      ensures Inverse(f, accounts[i])
    {
      AccountInverse(keys, accounts[i]);
    }
    RoundTrip(p, f, keys(pref).value, salt, pref, accounts, file);
  }

  lemma AccountInverse(keys: bytes -> Option<Keys>, a: Account)
    requires Representable(a)
    ensures Inverse(UserFile(keys), a)
  {
    hide WriteBin, ParseBin, BinSize;
    WrittenSizes(a);
    forall rest
      ensures ParseBin(WriteBin(a) + rest) == Got(a, |WriteBin(a)|)
    {
      WrittenIsParsed(a, rest);
    }
  }

  lemma AccountsAreStrict(p: Primitives, keys: bytes -> Option<Keys>, file: bytes)
    requires Load(p, UserFile(keys), file).Ok?
    ensures var accounts, pref := Load(p, UserFile(keys), file).xs, file[0x30..0x70];
      && |accounts| < TWO64 && keys(pref).Some?
      && Container(p, keys(pref).value, |accounts|, file[0x10..0x30], pref, WriteAll(UserFile(keys), accounts)) <= file
  {
    hide Container, Load, WriteBin, ParseBin, TotalLen, WriteAll;
    var f := UserFile(keys);
    forall b
      ensures ReadsBack(f, b)
    {
      if ParseBin(b).Got? {
        ParsedIsWritten(b);
      }
    }
    LoadedIsContainer(p, f, file);
  }

  // ----- the code -----

  /** account_write_bin at the pen's position. */
  method Write(a: Account, pen: Pen)
    requires pen.Valid() && pen.written == [] && pen.ptr + BinSize(a) <= pen.buf.Length
    modifies pen, pen.buf
    ensures pen.Valid() && pen.ptr == old(pen.ptr) + BinSize(a) && pen.written == FieldsOf(a)
  {
    hide Be64, Wrap64, Pen.Valid;
    pen.Put(Be64(Wrap64(|a.uname|)));
    pen.Put(Be64(Wrap64(|a.addr|)));
    pen.Put(Be64(Wrap64(|a.key|)));
    pen.Put(a.uname);
    pen.Put(a.addr);
    pen.Put(a.key);
    WriteKeys(a, pen);
  }

  /** The seven keys and file names at the end of a record. */
  method WriteKeys(a: Account, pen: Pen)
    requires pen.Valid() && pen.ptr + 7 * 0x20 <= pen.buf.Length
    modifies pen, pen.buf
    ensures pen.Valid() && pen.ptr == old(pen.ptr) + 7 * 0x20
    ensures pen.written == old(pen.written) + [a.sfing, a.fFile, a.fSymm, a.fHmac, a.nFile, a.nSymm, a.nHmac]
  {
    hide Pen.Valid;
    ghost var w := pen.written;
    pen.Put(a.sfing);
    PutThree(pen, a.fFile, a.fSymm, a.fHmac);
    PutThree(pen, a.nFile, a.nSymm, a.nHmac);
    InOneGo(w, [a.sfing], [a.fFile, a.fSymm, a.fHmac], [a.nFile, a.nSymm, a.nHmac]);
  }

  /** account_parse_bin at the reader's position. */
  method Parse(reader: Reader) returns (r: Parsed<Account>)
    requires reader.Valid() && reader.taken == []
    modifies reader
    ensures r == ParseBin(reader.buf[reader.start..])
    ensures r.Got? ==> reader.ptr == reader.start + r.used
  {
    hide Be64, De64, Reader.Valid, ParseBin, FieldsOf;
    NothingTaken(reader);
    ghost var b := reader.buf[reader.start..];
    TooShort(b);
    var uname: bytes, addr: bytes, key: bytes, ks: seq<Block>;
    var ok, uLen := TakeWord(reader);
    if !ok { return Overread; }
    assert reader.buf[reader.start..reader.start + 8] == b[..8];
    var aLen: uint64, kLen: uint64;
    ok, aLen := TakeWord(reader);
    if !ok { return Overread; }
    assert reader.buf[reader.start + 8..reader.start + 16] == b[8..16];
    ok, kLen := TakeWord(reader);
    if !ok { return Overread; }
    assert reader.buf[reader.start + 16..reader.start + 24] == b[16..24];
    ok, uname := reader.Take(uLen);
    if !ok { return Overread; }
    ok, addr := reader.Take(aLen);
    if !ok { return Overread; }
    ok, key := reader.Take(kLen);
    if !ok { return Overread; }
    ghost var strings := [Be64(uLen), Be64(aLen), Be64(kLen), uname, addr, key];
    assert reader.taken == strings;
    ok, ks := TakeSevenBlocks(reader);
    if !ok { return Overread; }
    var size: nat := uLen + aLen + kLen;
    r := Got(Account(uname, addr, key, ks[0], ks[1], ks[2], ks[3], ks[4], ks[5], ks[6]), size + 24 + 7 * 0x20);
    FieldsInParts(r.x, strings, ks);
    TakenIsParsed(reader, r.x);
  }

  lemma TooShort(b: bytes)
    ensures |b| < 24 ==> ParseBin(b) == Overread
    ensures |b| >= 24 && |b| < 24 + De64(b[..8]) + De64(b[8..16]) + De64(b[16..24]) + 7 * 0x20 ==> ParseBin(b) == Overread
  {
    hide De64;
  }

  lemma FieldsInParts(a: Account, strings: seq<bytes>, ks: seq<Block>)
    requires Representable(a)
    requires strings == [Be64(|a.uname|), Be64(|a.addr|), Be64(|a.key|), a.uname, a.addr, a.key]
    requires ks == [a.sfing, a.fFile, a.fSymm, a.fHmac, a.nFile, a.nSymm, a.nHmac]
    ensures FieldsOf(a) == strings + ks
  {
    hide Be64;
  }

  lemma TakenIsParsed(reader: Reader, a: Account)
    requires reader.Valid() && Representable(a) && reader.taken == FieldsOf(a)
    ensures ParseBin(reader.buf[reader.start..]) == Got(a, BinSize(a))
  {
    hide ParseBin, BinSize;
    var b := reader.buf[reader.start..];
    assert b == WriteBin(a) + b[|WriteBin(a)|..];
    WrittenIsParsed(a, b[|WriteBin(a)|..]);
  }
}
