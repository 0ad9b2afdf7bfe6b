/** How friends are stored. */
module Friends {
  import opened Bytes
  import opened Crypto
  import opened DataFile
  import opened Fields
  import opened Options
  import M = FriendMessages

  datatype Friend = Friend(
    uname: bytes, pkey: bytes, uid: Block, cFile: Block,
    fSymm: Block, fHmac: Block, sSymm: Block, sHmac: Block, rSymm: Block, rHmac: Block,
    sNonce: uint64, rNonce: uint64)

  predicate Representable(f: Friend) {
    |f.uname| < TWO64 && |f.pkey| < TWO64
  }

  /** gen_uid stops at the first NUL. */
  function UidOf(p: Primitives, uname: bytes): Block {
    M.Uid(p, CStr(uname))
  }

  /** strncpy over the whole length: the name up to its first NUL, and then zeros. */
  function CopiedName(uname: bytes): (r: bytes)
    ensures |r| == |uname|
    ensures 0 !in uname ==> r == uname
  {
    CStr(uname) + Zeros(|uname| - |CStr(uname)|)
  }

  const NO_KEY: Block := Zeros(32)

  /** init_friend, with the file name that was drawn. */
  function Created(p: Primitives, uname: bytes, pkey: bytes, cFile: Block): Friend {
    Friend(CopiedName(uname), pkey, UidOf(p, CopiedName(uname)), cFile, NO_KEY, NO_KEY, NO_KEY, NO_KEY, NO_KEY, NO_KEY, 0, 0)
  }

  function SendKeys(f: Friend): Keys {
    Keys(f.sSymm, f.sHmac)
  }

  function RecvKeys(f: Friend): Keys {
    Keys(f.rSymm, f.rHmac)
  }

  function FieldsOf(f: Friend): seq<bytes> {
    [Be64(Wrap64(|f.uname|)), Be64(Wrap64(|f.pkey|)), f.uname, f.pkey, f.cFile,
     f.fSymm, f.fHmac, f.sSymm, f.sHmac, f.rSymm, f.rHmac, Be64(f.sNonce), Be64(f.rNonce)]
  }

  function FieldSizes(u: nat, k: nat): (ns: seq<nat>)
    ensures Sum(ns) == 16 + u + k + 7 * 0x20 + 16
  {
    SumOfThree(8, 8, u, [k] + (Blocks(7) + [8, 8]));
    SumCons(k, Blocks(7) + [8, 8]);
    SumOfKeysAndNonces();
    [8, 8, u] + ([k] + (Blocks(7) + [8, 8]))
  }

  lemma SumOfKeysAndNonces()
    ensures Sum(Blocks(7) + [8, 8]) == 7 * 0x20 + 16
  {
    SumAppend(Blocks(7), [8, 8]);
    SumOfBlocks(7);
    SumOfEights([8, 8]);
  }

  /** friend_bin_size. */
  function BinSize(f: Friend): nat {
    8 + 8 + |f.uname| + |f.pkey| + 7 * 0x20 + 8 + 8
  }

  /** friend_write_bin. */
  function WriteBin(f: Friend): bytes {
    Join(FieldsOf(f))
  }

  /** friend_parse_bin: the id is not stored but computed again. */
  function ParseBin(p: Primitives, b: bytes): Parsed<Friend> {
    if |b| < 16 then Overread else
    var ns := FieldSizes(De64(b[..8]), De64(b[8..16]));
    if Sum(ns) > |b| then Overread else
    var fs := Split(b, ns);
    Got(Friend(fs[2], fs[3], UidOf(p, fs[2]), fs[4], fs[5], fs[6], fs[7], fs[8], fs[9], fs[10], De64(fs[11]), De64(fs[12])),
        Sum(ns))
  }

  lemma WrittenSizes(f: Friend)
    ensures Sizes(FieldsOf(f)) == FieldSizes(|f.uname|, |f.pkey|)
    ensures |WriteBin(f)| == BinSize(f)
  {
    hide Be64, Wrap64;
    assert Sizes(FieldsOf(f)) == FieldSizes(|f.uname|, |f.pkey|);
    JoinLength(FieldsOf(f));
  }

  /** A record byte for byte: two lengths, the name and the public key, the name of the conversation's file, six keys and two
      counters. */
  predicate RecordStands(f: Friend, b: bytes) {
    var u, w := 16 + |f.uname|, 16 + |f.uname| + |f.pkey|;
    && |b| == w + 0xf0
    && b[..8] == Be64(Wrap64(|f.uname|)) && b[8..16] == Be64(Wrap64(|f.pkey|))
    && b[16..u] == f.uname && b[u..w] == f.pkey && b[w..w + 0x20] == f.cFile
    && b[w + 0x20..w + 0x40] == f.fSymm && b[w + 0x40..w + 0x60] == f.fHmac
    && b[w + 0x60..w + 0x80] == f.sSymm && b[w + 0x80..w + 0xa0] == f.sHmac
    && b[w + 0xa0..w + 0xc0] == f.rSymm && b[w + 0xc0..w + 0xe0] == f.rHmac
    && b[w + 0xe0..w + 0xe8] == Be64(f.sNonce) && b[w + 0xe8..] == Be64(f.rNonce)
  }

  lemma WrittenStands(f: Friend)
    ensures RecordStands(f, WriteBin(f))
  {
    hide Be64, Wrap64, Join;
    var b, fs := WriteBin(f), FieldsOf(f);
    WrittenSizes(f);
    StringsStand(b, fs);
    KeysStand(b, 16 + |f.uname| + |f.pkey|, fs);
  }

  lemma StringsStand(b: bytes, fs: seq<bytes>)
    requires |fs| == 13 && b == Join(fs) && |fs[0]| == 8 && |fs[1]| == 8 && |b| >= 16 + |fs[2]| + |fs[3]|
    ensures var u, w := 16 + |fs[2]|, 16 + |fs[2]| + |fs[3]|;
      && b[..8] == fs[0] && b[8..16] == fs[1] && b[16..u] == fs[2] && b[u..w] == fs[3] && b[w..] == Join(fs[4..])
  {
    hide Join;
    assert fs[0..] == fs && b[0..] == b;
    FieldAt(b, 0, fs, 0);
    FieldAt(b, 8, fs, 1);
    FieldAt(b, 16, fs, 2);
    FieldAt(b, 16 + |fs[2]|, fs, 3);
  }

  lemma KeysStand(b: bytes, w: nat, fs: seq<bytes>)
    requires |b| == w + 0xf0 && |fs| == 13 && b[w..] == Join(fs[4..]) && forall i | 4 <= i < 11 :: |fs[i]| == 0x20
    requires |fs[11]| == 8 && |fs[12]| == 8
    ensures b[w..w + 0x20] == fs[4]
    ensures b[w + 0x20..w + 0x40] == fs[5] && b[w + 0x40..w + 0x60] == fs[6] && b[w + 0x60..w + 0x80] == fs[7]
    ensures b[w + 0x80..w + 0xa0] == fs[8] && b[w + 0xa0..w + 0xc0] == fs[9] && b[w + 0xc0..w + 0xe0] == fs[10]
    ensures b[w + 0xe0..w + 0xe8] == fs[11] && b[w + 0xe8..] == fs[12]
  {
    hide Join;
    FieldAt(b, w, fs, 4);
    FieldAt(b, w + 0x20, fs, 5);
    FieldAt(b, w + 0x40, fs, 6);
    FieldAt(b, w + 0x60, fs, 7);
    FieldAt(b, w + 0x80, fs, 8);
    FieldAt(b, w + 0xa0, fs, 9);
    FieldAt(b, w + 0xc0, fs, 10);
    FieldAt(b, w + 0xe0, fs, 11);
    FieldAt(b, w + 0xe8, fs, 12);
  }

  /** And any record of a friend list is the one that stands where it was written, with the hash of its name and a NUL
      for the id. */
  lemma ParsedStands(p: Primitives, b: bytes)
    requires ParseBin(p, b).Got?
    ensures var Got(f, used) := ParseBin(p, b); used <= |b| && RecordStands(f, b[..used]) && f.uid == p.sha(CStr(f.uname) + [0])
  {
    hide RecordStands, ParseBin;
    ParsedIsWritten(p, b);
    WrittenStands(ParseBin(p, b).x);
  }

  /** What was written is read back, with the id that belongs to the name. */
  lemma WrittenIsParsed(p: Primitives, f: Friend, rest: bytes)
    requires Representable(f)
    ensures ParseBin(p, WriteBin(f) + rest) == Got(f.(uid := UidOf(p, f.uname)), BinSize(f))
  {
    hide Be64, De64, Sum, Split, UidOf;
    var b, fs := WriteBin(f) + rest, FieldsOf(f);
    var ns := FieldSizes(|f.uname|, |f.pkey|);
    WrittenSizes(f);
    SplitOfJoin(fs, b);
    WordAt(b, ns, 0);
    WordAt(b, ns, 1);
    DeBe64(|f.uname|);
    DeBe64(|f.pkey|);
    DeBe64(f.sNonce);
    DeBe64(f.rNonce);
    assert fs[0] == Be64(|f.uname|) && fs[1] == Be64(|f.pkey|);
    assert fs[11] == Be64(f.sNonce) && fs[12] == Be64(f.rNonce);
  }

  lemma ParsedIsWritten(p: Primitives, b: bytes)
    requires ParseBin(p, b).Got?
    ensures var Got(f, used) := ParseBin(p, b);
      Representable(f) && used == BinSize(f) <= |b| && WriteBin(f) == b[..used] && f.uid == UidOf(p, f.uname)
  {
    hide Be64, De64, Sum, Split, UidOf;
    var ns := FieldSizes(De64(b[..8]), De64(b[8..16]));
    var fs := Split(b, ns);
    WordAt(b, ns, 0);
    WordAt(b, ns, 1);
    JoinOfSplit(b, ns);
    assert FieldsOf(ParseBin(p, b).x) == fs;
  }

  /** The friend file of an account. */
  function FriendFile(p: Primitives, k: Keys): Format<Friend> {
    Format(0, _ => Some(k), BinSize, WriteBin, b => ParseBin(p, b))
  }

  /** A friend survives storing exactly when the stored id is the one that belongs to the name. */
  lemma FriendInverseIff(p: Primitives, k: Keys, f: Friend)
    requires Representable(f)
    ensures Inverse(FriendFile(p, k), f) <==> f.uid == UidOf(p, f.uname)
  {
    hide WriteBin, ParseBin, BinSize, UidOf;
    var fmt := FriendFile(p, k);
    WrittenSizes(f);
    forall rest
      ensures fmt.read(fmt.write(f) + rest) == Got(f.(uid := UidOf(p, f.uname)), |fmt.write(f)|)
    {
      WrittenIsParsed(p, f, rest);
    }
    if Inverse(fmt, f) {
      assert fmt.read(fmt.write(f) + []) == Got(f, |fmt.write(f)|);
    }
  }

  /** The friend list is read back as it was written. */
  lemma FriendsSurvive(p: Primitives, k: Keys, salt: Block, friends: seq<Friend>, file: bytes)
    requires |friends| < TWO64 && TotalLen(FriendFile(p, k), friends) < TWO64
    requires forall i | 0 <= i < |friends| :: Representable(friends[i]) && friends[i].uid == UidOf(p, friends[i].uname)
    requires Container(p, k, |friends|, salt, [], WriteAll(FriendFile(p, k), friends)) <= file
    ensures Load(p, FriendFile(p, k), file) == Ok(friends)
  {
    hide Container, Load, WriteBin, ParseBin, TotalLen, WriteAll, UidOf, Inverse;
    forall i | 0 <= i < |friends|
      ensures Inverse(FriendFile(p, k), friends[i])
    {
      FriendInverseIff(p, k, friends[i]);
    }
    RoundTrip(p, FriendFile(p, k), k, salt, [], friends, file);
  }

  /** Whatever friend file is accepted is the container of the friends it is read as. */
  lemma FriendsAreStrict(p: Primitives, k: Keys, file: bytes, friends: seq<Friend>)
    requires Load(p, FriendFile(p, k), file) == Ok(friends)
    ensures |file| >= 0x30 && |friends| < TWO64
    ensures Container(p, k, |friends|, file[0x10..0x30], [], WriteAll(FriendFile(p, k), friends)) <= file
  {
    hide Container, Load, WriteBin, ParseBin, TotalLen, WriteAll, UidOf;
    var fmt := FriendFile(p, k);
    forall b
      ensures ReadsBack(fmt, b)
    {
      if ParseBin(p, b).Got? {
        ParsedIsWritten(p, b);
      }
    }
    LoadedIsContainer(p, fmt, file);
    assert file[0x30..0x30] == [];
  }

  // ----- the code -----

  /** friend_write_bin at the pen's position. */
  method Write(f: Friend, pen: Pen)
    requires pen.Valid() && pen.written == [] && pen.ptr + BinSize(f) <= pen.buf.Length
    modifies pen, pen.buf
    ensures pen.Valid() && pen.ptr == old(pen.ptr) + BinSize(f) && pen.written == FieldsOf(f)
  {
    hide Be64, Wrap64, Pen.Valid;
    pen.Put(Be64(Wrap64(|f.uname|)));
    pen.Put(Be64(Wrap64(|f.pkey|)));
    pen.Put(f.uname);
    pen.Put(f.pkey);
    WriteKeys(f, pen);
    pen.Put(Be64(f.sNonce));
    pen.Put(Be64(f.rNonce));
  }

  method WriteKeys(f: Friend, pen: Pen)
    requires pen.Valid() && pen.ptr + 7 * 0x20 <= pen.buf.Length
    modifies pen, pen.buf
    ensures pen.Valid() && pen.ptr == old(pen.ptr) + 7 * 0x20
    ensures pen.written == old(pen.written) + [f.cFile, f.fSymm, f.fHmac, f.sSymm, f.sHmac, f.rSymm, f.rHmac]
  {
    hide Pen.Valid;
    ghost var w := pen.written;
    PutThree(pen, f.cFile, f.fSymm, f.fHmac);
    pen.Put(f.sSymm);
    PutThree(pen, f.sHmac, f.rSymm, f.rHmac);
    InOneGo(w, [f.cFile, f.fSymm, f.fHmac], [f.sSymm], [f.sHmac, f.rSymm, f.rHmac]);
  }

  /** friend_parse_bin at the reader's position. */
  method Parse(p: Primitives, reader: Reader) returns (r: Parsed<Friend>)
    requires reader.Valid() && reader.taken == []
    modifies reader
    ensures r == ParseBin(p, reader.buf[reader.start..])
    ensures r.Got? ==> reader.ptr == reader.start + r.used
  {
    hide Be64, De64, Reader.Valid, ParseBin, UidOf, FieldsOf;
    NothingTaken(reader);
    ghost var b := reader.buf[reader.start..];
    TooShort(p, b);
    var uname: bytes, pkey: bytes, ks: seq<Block>;
    var ok, uLen := TakeWord(reader);
    if !ok { return Overread; }
    assert reader.buf[reader.start..reader.start + 8] == b[..8];
    var kLen: uint64;
    ok, kLen := TakeWord(reader);
    if !ok { return Overread; }
    assert reader.buf[reader.start + 8..reader.start + 16] == b[8..16];
    ok, uname := reader.Take(uLen);
    if !ok { return Overread; }
    ok, pkey := reader.Take(kLen);
    if !ok { return Overread; }
    ghost var strings := [Be64(uLen), Be64(kLen), uname, pkey];
    assert reader.taken == strings;
    ok, ks := TakeSevenBlocks(reader);
    if !ok { return Overread; }
    var sNonce: uint64, rNonce: uint64;
    ok, sNonce := TakeWord(reader);
    if !ok { return Overread; }
    ok, rNonce := TakeWord(reader);
    if !ok { return Overread; }
    var size: nat := uLen + kLen;
    r := Got(Friend(uname, pkey, UidOf(p, uname), ks[0], ks[1], ks[2], ks[3], ks[4], ks[5], ks[6], sNonce, rNonce), size + 0x100);
    assert reader.taken == strings + ks + [Be64(sNonce), Be64(rNonce)];
    FieldsInParts(r.x, strings, ks);
    TakenIsParsed(p, reader, r.x);
  }

  lemma FieldsInParts(f: Friend, strings: seq<bytes>, ks: seq<Block>)
    requires |f.uname| < TWO64 && |f.pkey| < TWO64 && strings == [Be64(|f.uname|), Be64(|f.pkey|), f.uname, f.pkey]
    requires ks == [f.cFile, f.fSymm, f.fHmac, f.sSymm, f.sHmac, f.rSymm, f.rHmac]
    ensures FieldsOf(f) == strings + ks + [Be64(f.sNonce), Be64(f.rNonce)]
  {
    hide Be64;
  }

  lemma TakenIsParsed(p: Primitives, reader: Reader, f: Friend)
    requires reader.Valid() && Representable(f) && reader.taken == FieldsOf(f) && f.uid == UidOf(p, f.uname)
    ensures ParseBin(p, reader.buf[reader.start..]) == Got(f, BinSize(f))
  {
    hide ParseBin, BinSize, UidOf;
    var b := reader.buf[reader.start..];
    assert b == WriteBin(f) + b[|WriteBin(f)|..];
    WrittenIsParsed(p, f, b[|WriteBin(f)|..]);
  }

  lemma TooShort(p: Primitives, b: bytes)
    ensures |b| < 16 ==> ParseBin(p, b) == Overread
    ensures |b| >= 16 && |b| < 0x100 + De64(b[..8]) + De64(b[8..16]) ==> ParseBin(p, b) == Overread
  {
    hide De64;
  }
}
