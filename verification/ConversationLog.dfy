/** The conversation file: an encrypted append-only log in which the MAC of each record covers the
    MAC of the record before it. */
module ConversationLog {
  import opened Bytes
  import opened Crypto
  import opened Files
  import opened LogHeader
  import opened Options

  /** A message: 0 is the account's owner, 1 the friend. */
  datatype Entry = Entry(sender: uint64, text: bytes)

  // ----- the format -----

  function Prefix(p: Primitives, k: Keys, i: nat, e: Entry): (r: bytes)
    ensures |r| == 0x10
  {
    Stream(p, k.symm, Wrap64(i), 0, Be64(Wrap64(|e.text|)) + Be64(e.sender))
  }

  function PrefixMac(p: Primitives, k: Keys, prev: Block, i: nat, e: Entry): Block {
    p.hmac(k.hmac, prev + Prefix(p, k, i, e))
  }

  /** The text continues the keystream that its prefix started. */
  function Cipher(p: Primitives, k: Keys, i: nat, e: Entry): (r: bytes)
    ensures |r| == |e.text|
  {
    Stream(p, k.symm, Wrap64(i), 0x10, e.text)
  }

  /** Prefix and text are one text under one keystream, of which no byte is used twice. */
  lemma OneKeystream(p: Primitives, k: Keys, i: nat, e: Entry)
    ensures Prefix(p, k, i, e) + Cipher(p, k, i, e)
         == Stream(p, k.symm, Wrap64(i), 0, Be64(Wrap64(|e.text|)) + Be64(e.sender) + e.text)
  {
    hide Stream, Be64, Wrap64;
    StreamAppend(p, k.symm, Wrap64(i), 0, Be64(Wrap64(|e.text|)) + Be64(e.sender), e.text);
  }

  function EndMac(p: Primitives, k: Keys, prev: Block, i: nat, e: Entry): Block {
    p.hmac(k.hmac, Prefix(p, k, i, e) + PrefixMac(p, k, prev, i, e) + Cipher(p, k, i, e))
  }

  function Record(p: Primitives, k: Keys, prev: Block, i: nat, e: Entry): (r: bytes)
    ensures |r| == 0x50 + |e.text|
  {
    Prefix(p, k, i, e) + PrefixMac(p, k, prev, i, e) + Cipher(p, k, i, e) + EndMac(p, k, prev, i, e)
  }

  lemma RecordEndsWithMac(p: Primitives, k: Keys, prev: Block, i: nat, e: Entry)
    ensures Record(p, k, prev, i, e)[0x30 + |e.text|..] == EndMac(p, k, prev, i, e)
  {
    hide EndMac, Prefix, PrefixMac, Cipher;
  }

  function Records(p: Primitives, k: Keys, prev: Block, i: nat, es: seq<Entry>): (r: bytes)
    ensures |r| == Length(es)
    decreases |es|
  {
    if es == [] then [] else
      Record(p, k, prev, i, es[0]) + Records(p, k, EndMac(p, k, prev, i, es[0]), i + 1, es[1..])
  }

  function Length(es: seq<Entry>): nat {
    if es == [] then 0 else 0x50 + |es[0].text| + Length(es[1..])
  }

  function LastMac(p: Primitives, k: Keys, prev: Block, i: nat, es: seq<Entry>): Block
    decreases |es|
  {
    if es == [] then prev else LastMac(p, k, EndMac(p, k, prev, i, es[0]), i + 1, es[1..])
  }

  /** The one file that holds the messages `es` and nothing else. */
  function Canonical(p: Primitives, k: Keys, es: seq<Entry>): (r: bytes)
    ensures |r| == 0x30 + Length(es)
  {
    Header(p, k.hmac, Wrap64(0x30 + Length(es)), Wrap64(|es|)) + Records(p, k, INITIAL_MAC, 1, es)
  }

  lemma CanonicalEmpty(p: Primitives, k: Keys)
    ensures Canonical(p, k, []) == Header(p, k.hmac, 0x30, 0)
  {
    hide Header;
  }

  predicate Loadable(e: Entry) {
    e.sender in {0, 1} && |e.text| < TWO64
  }

  predicate AllLoadable(es: seq<Entry>) {
    forall e | e in es :: Loadable(e)
  }

  lemma {:induction false} RecordsSnoc(p: Primitives, k: Keys, prev: Block, i: nat, es: seq<Entry>, e: Entry)
    ensures Records(p, k, prev, i, es + [e])
         == Records(p, k, prev, i, es) + Record(p, k, LastMac(p, k, prev, i, es), i + |es|, e)
    ensures Length(es + [e]) == Length(es) + 0x50 + |e.text|
    decreases |es|
  {
    hide Record, EndMac;
    if es == [] {
      assert (es + [e])[1..] == [];
    } else {
      RecordsSnoc(p, k, EndMac(p, k, prev, i, es[0]), i + 1, es[1..], e);
      assert (es + [e])[1..] == es[1..] + [e];
    }
  }

  /** Records end with the MAC that the next record has to cover. */
  lemma {:induction false} RecordsEndWithLastMac(p: Primitives, k: Keys, prev: Block, i: nat, es: seq<Entry>)
    requires es != []
    ensures Length(es) >= 0x50
    ensures Records(p, k, prev, i, es)[Length(es) - 32..] == LastMac(p, k, prev, i, es)
    decreases |es|
  {
    if |es| > 1 {
      RecordsEndWithLastMac(p, k, EndMac(p, k, prev, i, es[0]), i + 1, es[1..]);
    }
  }

  // ----- what the loader computes -----

  /** The length of the text and the sender, when the prefix is authentic. */
  function ParsePrefix(p: Primitives, k: Keys, prev: Block, i: nat, rest: bytes): (r: Option<(uint64, uint64)>)
    ensures r.Some? ==> |rest| >= 0x30
  {
    if |rest| < 0x30 || p.hmac(k.hmac, prev + rest[..0x10]) != rest[0x10..0x30] then None else
    var plain := Stream(p, k.symm, Wrap64(i), 0, rest[..0x10]);
    var sender := De64(plain[8..]);
    if sender != 0 && sender != 1 then None else Some((De64(plain[..8]), sender))
  }

  /** The text that follows an authentic prefix. */
  function ParseText(p: Primitives, k: Keys, i: nat, mlen: uint64, rest: bytes): (r: Option<bytes>)
    requires |rest| >= 0x30
    ensures r.Some? ==> |r.value| == mlen && |rest| >= 0x50 + mlen
  {
    if |rest| < 0x50 + mlen then None else
    if p.hmac(k.hmac, rest[..0x30 + mlen]) != rest[0x30 + mlen..0x50 + mlen] then None else
    Some(Stream(p, k.symm, Wrap64(i), 0x10, rest[0x30..0x30 + mlen]))
  }

  /** One turn of the loading loop on the bytes that are left. */
  function ParseRecord(p: Primitives, k: Keys, prev: Block, i: nat, rest: bytes): (r: Option<Entry>)
    ensures r.Some? ==> |rest| >= 0x50 + |r.value.text|
  {
    match ParsePrefix(p, k, prev, i, rest)
    case None => None
    case Some((mlen, sender)) =>
      match ParseText(p, k, i, mlen, rest)
      case None => None
      case Some(text) => Some(Entry(sender, text))
  }

  function ParseRecords(p: Primitives, k: Keys, prev: Block, i: nat, n: nat, rest: bytes): (r: Option<seq<Entry>>)
    decreases n
  {
    if n == 0 then Some([]) else
    match ParseRecord(p, k, prev, i, rest)
    case None => None
    case Some(e) =>
      var used := 0x50 + |e.text|;
      Onto([e], ParseRecords(p, k, rest[used - 32..used], i + 1, n - 1, rest[used..]))
  }

  function Load(p: Primitives, k: Keys, file: bytes): Option<seq<Entry>> {
    if !Authentic(p, k.hmac, file) then None else
    match ParseRecords(p, k, INITIAL_MAC, 1, RecordCount(file), file[0x30..])
    case None => None
    case Some(es) => if Wrap64(0x30 + Length(es)) == FileLength(file) then Some(es) else None
  }

  // ----- the loader accepts exactly the canonical files -----

  lemma ParsedPrefix(p: Primitives, k: Keys, prev: Block, i: nat, rest: bytes, text: bytes)
    requires ParsePrefix(p, k, prev, i, rest).Some?
    requires ParsePrefix(p, k, prev, i, rest).value.0 == |text|
    ensures var e := Entry(ParsePrefix(p, k, prev, i, rest).value.1, text);
      && Loadable(e)
      && Prefix(p, k, i, e) == rest[..0x10]
      && PrefixMac(p, k, prev, i, e) == rest[0x10..0x30]
  {
    var e := Entry(ParsePrefix(p, k, prev, i, rest).value.1, text);
    hide Stream, Wrap64;
    Wrap64Identity(|text|);
    var plain := Stream(p, k.symm, Wrap64(i), 0, rest[..0x10]);
    assert plain == plain[..8] + plain[8..];
    StreamTwice(p, k.symm, Wrap64(i), 0, rest[..0x10]);
  }

  lemma Wrap64Identity(x: int)
    requires 0 <= x < TWO64
    ensures Wrap64(x) == x
  {
  }

  lemma ParsedText(p: Primitives, k: Keys, i: nat, e: Entry, rest: bytes)
    requires |rest| >= 0x30 && |e.text| < TWO64
    requires ParseText(p, k, i, |e.text|, rest) == Some(e.text)
    ensures Cipher(p, k, i, e) == rest[0x30..0x30 + |e.text|]
  {
    hide Stream, Wrap64;
    StreamTwice(p, k.symm, Wrap64(i), 0x10, rest[0x30..0x30 + |e.text|]);
  }

  lemma ParsedIsRecord(p: Primitives, k: Keys, prev: Block, i: nat, rest: bytes)
    requires ParseRecord(p, k, prev, i, rest).Some?
    ensures var e := ParseRecord(p, k, prev, i, rest).value;
      && Loadable(e)
      && Record(p, k, prev, i, e) == rest[..0x50 + |e.text|]
      && EndMac(p, k, prev, i, e) == rest[0x30 + |e.text|..0x50 + |e.text|]
  {
    hide ParsePrefix, Prefix, PrefixMac, Cipher, Wrap64, Stream;
    var e := ParseRecord(p, k, prev, i, rest).value;
    var n := |e.text|;
    ParsedPrefix(p, k, prev, i, rest, e.text);
    ParsedText(p, k, i, e, rest);
    assert rest[..0x10] + rest[0x10..0x30] + rest[0x30..0x30 + n] == rest[..0x30 + n];
    assert rest[..0x30 + n] + rest[0x30 + n..0x50 + n] == rest[..0x50 + n];
  }

  lemma RecordIsParsed(p: Primitives, k: Keys, prev: Block, i: nat, e: Entry, rest: bytes)
    requires Loadable(e) && Record(p, k, prev, i, e) <= rest
    ensures ParseRecord(p, k, prev, i, rest) == Some(e)
  {
    hide Prefix, PrefixMac, Cipher, EndMac, ParsePrefix, ParseText, Record;
    RecordPieces(p, k, prev, i, e, rest);
    PrefixIsParsed(p, k, prev, i, e, rest);
    TextIsParsed(p, k, prev, i, e, rest);
  }

  lemma RecordPieces(p: Primitives, k: Keys, prev: Block, i: nat, e: Entry, rest: bytes)
    requires Record(p, k, prev, i, e) <= rest
    ensures var n := |e.text|;
      && |rest| >= 0x50 + n
      && rest[..0x10] == Prefix(p, k, i, e) && rest[0x10..0x30] == PrefixMac(p, k, prev, i, e)
      && rest[0x30..0x30 + n] == Cipher(p, k, i, e) && rest[0x30 + n..0x50 + n] == EndMac(p, k, prev, i, e)
      && rest[..0x30 + n] == Prefix(p, k, i, e) + PrefixMac(p, k, prev, i, e) + Cipher(p, k, i, e)
  {
    hide Prefix, PrefixMac, Cipher, EndMac;
    var r, n := Record(p, k, prev, i, e), |e.text|;
    SliceOfPrefix(r, rest, 0, 0x10);
    SliceOfPrefix(r, rest, 0x10, 0x30);
    SliceOfPrefix(r, rest, 0x30, 0x30 + n);
    SliceOfPrefix(r, rest, 0x30 + n, 0x50 + n);
    SliceOfPrefix(r, rest, 0, 0x30 + n);
  }

  lemma PrefixIsParsed(p: Primitives, k: Keys, prev: Block, i: nat, e: Entry, rest: bytes)
    requires Loadable(e) && |rest| >= 0x30
    requires rest[..0x10] == Prefix(p, k, i, e) && rest[0x10..0x30] == PrefixMac(p, k, prev, i, e)
    ensures ParsePrefix(p, k, prev, i, rest) == Some((|e.text|, e.sender))
  {
    hide Stream, Be64, De64;
    var plain := Be64(|e.text|) + Be64(e.sender);
    StreamTwice(p, k.symm, Wrap64(i), 0, plain);
    assert plain[..8] == Be64(|e.text|) && plain[8..] == Be64(e.sender);
    DeBe64(|e.text|);
    DeBe64(e.sender);
  }

  lemma TextIsParsed(p: Primitives, k: Keys, prev: Block, i: nat, e: Entry, rest: bytes)
    requires |e.text| < TWO64 && |rest| >= 0x50 + |e.text|
    requires rest[0x30..0x30 + |e.text|] == Cipher(p, k, i, e)
    requires rest[0x30 + |e.text|..0x50 + |e.text|] == EndMac(p, k, prev, i, e)
    requires rest[..0x30 + |e.text|] == Prefix(p, k, i, e) + PrefixMac(p, k, prev, i, e) + Cipher(p, k, i, e)
    ensures ParseText(p, k, i, |e.text|, rest) == Some(e.text)
  {
    hide Stream, Prefix, PrefixMac;
    StreamTwice(p, k.symm, Wrap64(i), 0x10, e.text);
  }

  lemma {:induction false} ParsedAreRecords(p: Primitives, k: Keys, prev: Block, i: nat, n: nat, rest: bytes)
    requires ParseRecords(p, k, prev, i, n, rest).Some?
    ensures var es := ParseRecords(p, k, prev, i, n, rest).value;
      |es| == n && AllLoadable(es) && Records(p, k, prev, i, es) <= rest
    decreases n
  {
    hide Record, EndMac, ParseRecord;
    if n > 0 {
      ParsedIsRecord(p, k, prev, i, rest);
      var e := ParseRecord(p, k, prev, i, rest).value;
      var used := 0x50 + |e.text|;
      ParsedAreRecords(p, k, rest[used - 32..used], i + 1, n - 1, rest[used..]);
      assert rest == rest[..used] + rest[used..];
    }
  }

  lemma {:induction false} RecordsAreParsed(p: Primitives, k: Keys, prev: Block, i: nat, es: seq<Entry>, rest: bytes)
    requires AllLoadable(es) && Records(p, k, prev, i, es) <= rest
    ensures ParseRecords(p, k, prev, i, |es|, rest) == Some(es)
    decreases |es|
  {
    hide Record, EndMac, ParseRecord;
    if es != [] {
      var e, mac := es[0], EndMac(p, k, prev, i, es[0]);
      var r := Record(p, k, prev, i, e);
      var tail := Records(p, k, mac, i + 1, es[1..]);
      PrefixOfAppend(r, tail, rest);
      RecordIsParsed(p, k, prev, i, e, rest);
      SliceOfPrefix(r, rest, |r| - 32, |r|);
      RecordEndsWithMac(p, k, prev, i, e);
      RecordsAreParsed(p, k, mac, i + 1, es[1..], rest[|r|..]);
      ParseStep(p, k, prev, i, |es|, rest, e, mac, es[1..]);
      assert [e] + es[1..] == es;
    }
  }

  lemma ParseStep(p: Primitives, k: Keys, prev: Block, i: nat, n: nat, rest: bytes,
                  e: Entry, mac: Block, es: seq<Entry>)
    requires n > 0 && ParseRecord(p, k, prev, i, rest) == Some(e)
    requires mac == rest[0x30 + |e.text|..0x50 + |e.text|]
    requires ParseRecords(p, k, mac, i + 1, n - 1, rest[0x50 + |e.text|..]) == Some(es)
    ensures ParseRecords(p, k, prev, i, n, rest) == Some([e] + es)
  {
  }

  /** The loader returns `es` precisely when the file starts with the one canonical image of `es`. */
  lemma LoadIffCanonical(p: Primitives, k: Keys, file: bytes, es: seq<Entry>)
    ensures Load(p, k, file) == Some(es)
       <==> |es| < TWO64 && AllLoadable(es) && Canonical(p, k, es) <= file
  {
    if Load(p, k, file) == Some(es) {
      LoadedIsCanonical(p, k, file);
    }
    if |es| < TWO64 && AllLoadable(es) && Canonical(p, k, es) <= file {
      CanonicalIsLoaded(p, k, file, es);
    }
  }

  lemma LoadedIsCanonical(p: Primitives, k: Keys, file: bytes)
    requires Load(p, k, file).Some?
    ensures var es := Load(p, k, file).value;
      |es| < TWO64 && AllLoadable(es) && Canonical(p, k, es) <= file
  {
    hide Wrap64, Length, De64, ParseRecords, Records, Header;
    var es := Load(p, k, file).value;
    var flen, mnum := FileLength(file), RecordCount(file);
    ParsedAreRecords(p, k, INITIAL_MAC, 1, mnum, file[0x30..]);
    HeaderFromFields(p, k.hmac, file);
    assert Header(p, k.hmac, flen, mnum) + Records(p, k, INITIAL_MAC, 1, es) <= file[..0x30] + file[0x30..];
    assert file == file[..0x30] + file[0x30..];
  }

  lemma CanonicalIsLoaded(p: Primitives, k: Keys, file: bytes, es: seq<Entry>)
    requires |es| < TWO64 && AllLoadable(es) && Canonical(p, k, es) <= file
    ensures Load(p, k, file) == Some(es)
  {
    hide ParseRecords, Records;
    var flen := Wrap64(0x30 + Length(es));
    var h := Header(p, k.hmac, flen, |es|);
    PrefixOfAppend(h, Records(p, k, INITIAL_MAC, 1, es), file);
    HeaderFields(p, k.hmac, flen, |es|, file);
    RecordsAreParsed(p, k, INITIAL_MAC, 1, es, file[0x30..]);
  }

  /** A file shorter than its header claims is refused, whatever it contains. */
  lemma TruncatedIsRefused(p: Primitives, k: Keys, file: bytes)
    requires |file| >= 0x30 && |file| < FileLength(file)
    ensures Load(p, k, file) == None
  {
    if Load(p, k, file).Some? {
      var es := Load(p, k, file).value;
      LoadIffCanonical(p, k, file, es);
    }
  }

  // ----- appending -----

  /** The contents before the four writes that put a record at `end`, and after each of them. */
  function RecordStages(p: Primitives, k: Keys, d1: bytes, end: nat, prev: Block, i: nat, e: Entry): (r: seq<bytes>)
    ensures |r| == 5
  {
    var d2 := Overwrite(d1, end, Prefix(p, k, i, e));
    var d3 := Overwrite(d2, end + 0x10, PrefixMac(p, k, prev, i, e));
    var d4 := Overwrite(d3, end + 0x30, Cipher(p, k, i, e));
    [d1, d2, d3, d4, Overwrite(d4, end + 0x30 + |e.text|, EndMac(p, k, prev, i, e))]
  }

  lemma RecordStagesWriteRecord(p: Primitives, k: Keys, d1: bytes, end: nat, prev: Block, i: nat, e: Entry)
    requires end <= |d1|
    ensures RecordStages(p, k, d1, end, prev, i, e)[4] == Overwrite(d1, end, Record(p, k, prev, i, e))
  {
    hide Prefix, PrefixMac, Cipher, EndMac, Overwrite;
    FourWrites(d1, end, Prefix(p, k, i, e), PrefixMac(p, k, prev, i, e), Cipher(p, k, i, e), EndMac(p, k, prev, i, e));
  }

  /** A record that is not complete leaves the file shorter than the next header claims. */
  lemma RecordStagesAreShort(p: Primitives, k: Keys, d1: bytes, prev: Block, i: nat, e: Entry, n: nat)
    requires n < 4 && |d1| >= 0x30
    ensures var d := RecordStages(p, k, d1, |d1|, prev, i, e)[n];
      0x30 <= |d| < |d1| + 0x50 + |e.text| && d[..0x30] == d1[..0x30]
  {
    hide Prefix, PrefixMac, Cipher, EndMac;
  }

  /** The contents after none, one, two, ... of the writes that appending `e` performs.  The list is
      short when the file is refused before the next write. */
  function AddStages(p: Primitives, k: Keys, data: bytes, e: Entry): (r: seq<bytes>)
    ensures |r| in {1, 2, 6} && r[0] == data
  {
    if !Authentic(p, k.hmac, data) then [data] else
    var flen, mnum := FileLength(data), RecordCount(data);
    var d1 := Overwrite(data, 0, Header(p, k.hmac, Wrap64(flen + 0x50 + |e.text|), Wrap64(mnum + 1)));
    var at := Wrap64(flen - 32);
    if at >= TWO63 || at + 32 > |d1| then [data, d1] else
    var prev := if mnum == 0 then INITIAL_MAC else d1[at..at + 32];
    [data] + RecordStages(p, k, d1, at + 32, prev, mnum + 1, e)
  }

  function AfterAdd(p: Primitives, k: Keys, data: bytes, e: Entry): bytes {
    var st := AddStages(p, k, data, e);
    st[|st| - 1]
  }

  lemma {:induction false} LengthBoundsCount(es: seq<Entry>)
    ensures |es| <= Length(es)
    decreases |es|
  {
    if es != [] {
      LengthBoundsCount(es[1..]);
    }
  }

  lemma CanonicalFields(p: Primitives, k: Keys, data: bytes, es: seq<Entry>)
    requires Canonical(p, k, es) <= data
    ensures Authentic(p, k.hmac, data) && FileLength(data) == Wrap64(0x30 + Length(es)) && RecordCount(data) == Wrap64(|es|)
    ensures Records(p, k, INITIAL_MAC, 1, es) <= data[0x30..]
  {
    hide Wrap64, Length, De64, Records, Header;
    PrefixOfAppend(Header(p, k.hmac, Wrap64(0x30 + Length(es)), Wrap64(|es|)), Records(p, k, INITIAL_MAC, 1, es), data);
    HeaderFields(p, k.hmac, Wrap64(0x30 + Length(es)), Wrap64(|es|), data);
  }

  lemma CanonicalEnd(p: Primitives, k: Keys, data: bytes, es: seq<Entry>)
    requires Canonical(p, k, es) <= data && es != []
    ensures Length(es) >= 0x50
    ensures data[0x10 + Length(es)..0x30 + Length(es)] == LastMac(p, k, INITIAL_MAC, 1, es)
  {
    hide Wrap64, Length, Records, Canonical, LastMac;
    CanonicalFields(p, k, data, es);
    RecordsEndWithLastMac(p, k, INITIAL_MAC, 1, es);
    var r, n := Records(p, k, INITIAL_MAC, 1, es), Length(es);
    SliceOfPrefix(r, data[0x30..], n - 32, n);
    assert data[0x30..][n - 32..n] == data[0x10 + n..0x30 + n];
  }

  /** Lengths and counts stay within a word. */
  lemma CountsFit(es: seq<Entry>)
    requires 0x10 + Length(es) < TWO63
    ensures |es| + 1 < TWO64 && Wrap64(|es|) == |es| && Wrap64(|es| + 1) == |es| + 1
    ensures 0x30 + Length(es) < TWO64 && Wrap64(0x30 + Length(es)) == 0x30 + Length(es) && 0x30 + Length(es) - 32 < TWO63
  {
    hide Length;
    LengthBoundsCount(es);
  }

  /** Appending to a file that starts with the image of `es` replaces the header and then writes the
      next record where the last one ended. */
  lemma StagesOnCanonical(p: Primitives, k: Keys, data: bytes, es: seq<Entry>, e: Entry, d1: bytes, mac: Block)
    requires Canonical(p, k, es) <= data && 0x10 + Length(es) < TWO63
    requires d1 == Header(p, k.hmac, Wrap64(0x30 + Length(es) + 0x50 + |e.text|), Wrap64(|es| + 1)) + data[0x30..]
    requires mac == LastMac(p, k, INITIAL_MAC, 1, es)
    ensures AddStages(p, k, data, e) == [data] + RecordStages(p, k, d1, 0x30 + Length(es), mac, |es| + 1, e)
  {
    hide *;
    CountsFit(es);
    CanonicalFields(p, k, data, es);
    MacBeforeEnd(p, k, data, es, d1);
    AddStagesFrom(p, k, data, e, 0x30 + Length(es), |es|, mac, d1);
  }

  /** What the next record is chained to: the last MAC, which a new header leaves in place. */
  lemma MacBeforeEnd(p: Primitives, k: Keys, data: bytes, es: seq<Entry>, d1: bytes)
    requires Canonical(p, k, es) <= data && |d1| == |data| && d1[0x30..] == data[0x30..]
    ensures if es == [] then LastMac(p, k, INITIAL_MAC, 1, es) == INITIAL_MAC
            else d1[0x10 + Length(es)..0x30 + Length(es)] == LastMac(p, k, INITIAL_MAC, 1, es)
  {
    hide Length, LastMac, Canonical;
    if es == [] {
      NoMac(p, k);
    } else {
      var n := Length(es);
      CanonicalEnd(p, k, data, es);
      assert d1[0x10 + n..0x30 + n] == d1[0x30..][n - 32..n] && data[0x10 + n..0x30 + n] == data[0x30..][n - 32..n];
    }
  }

  lemma AddStagesFrom(p: Primitives, k: Keys, data: bytes, e: Entry, flen: uint64, mnum: uint64, prev: Block, d1: bytes)
    requires Authentic(p, k.hmac, data)
    requires FileLength(data) == flen && RecordCount(data) == mnum
    requires 32 <= flen <= |data| && flen - 32 < TWO63
    requires d1 == Header(p, k.hmac, Wrap64(flen + 0x50 + |e.text|), Wrap64(mnum + 1)) + data[0x30..]
    requires if mnum == 0 then prev == INITIAL_MAC else prev == d1[flen - 32..flen]
    ensures AddStages(p, k, data, e) == [data] + RecordStages(p, k, d1, flen, prev, mnum + 1, e)
  {
    hide RecordStages, Header, Overwrite;
    OverwriteFront(data, Header(p, k.hmac, Wrap64(flen + 0x50 + |e.text|), Wrap64(mnum + 1)));
  }

  lemma NoMac(p: Primitives, k: Keys)
    ensures LastMac(p, k, INITIAL_MAC, 1, []) == INITIAL_MAC
  {
  }

  lemma CanonicalParts(p: Primitives, k: Keys, es: seq<Entry>)
    ensures Canonical(p, k, es)
         == Header(p, k.hmac, Wrap64(0x30 + Length(es)), Wrap64(|es|)) + Records(p, k, INITIAL_MAC, 1, es)
  {
    hide Wrap64, Length, Records, Header;
  }

  lemma CanonicalSnoc(p: Primitives, k: Keys, es: seq<Entry>, e: Entry, h: bytes, mac: Block)
    requires h == Header(p, k.hmac, Wrap64(0x30 + Length(es) + 0x50 + |e.text|), Wrap64(|es| + 1))
    requires mac == LastMac(p, k, INITIAL_MAC, 1, es)
    ensures Canonical(p, k, es + [e])
         == h + (Records(p, k, INITIAL_MAC, 1, es) + Record(p, k, mac, |es| + 1, e))
  {
    hide *;
    RecordsSnoc(p, k, INITIAL_MAC, 1, es, e);
    CanonicalParts(p, k, es + [e]);
    assert 0x30 + Length(es + [e]) == 0x30 + Length(es) + 0x50 + |e.text| && |es + [e]| == |es| + 1;
  }

  lemma LastStage(data: bytes, stages: seq<bytes>)
    requires |stages| == 5
    ensures |[data] + stages| == 6 && ([data] + stages)[5] == stages[4]
  {
  }

  /** The file after an append is the last stage of writing the new record behind the new header. */
  lemma AfterAddIs(p: Primitives, k: Keys, data: bytes, es: seq<Entry>, e: Entry, h: bytes, mac: Block)
    requires Canonical(p, k, es) <= data && 0x10 + Length(es) < TWO63
    requires h == Header(p, k.hmac, Wrap64(0x30 + Length(es) + 0x50 + |e.text|), Wrap64(|es| + 1))
    requires mac == LastMac(p, k, INITIAL_MAC, 1, es)
    ensures |AddStages(p, k, data, e)| == 6
    ensures AfterAdd(p, k, data, e) == RecordStages(p, k, h + data[0x30..], 0x30 + Length(es), mac, |es| + 1, e)[4]
  {
    hide Wrap64, Length, RecordStages, LastMac, Header, Canonical, AddStages;
    StagesOnCanonical(p, k, data, es, e, h + data[0x30..], mac);
    LastStage(data, RecordStages(p, k, h + data[0x30..], 0x30 + Length(es), mac, |es| + 1, e));
  }

  /** Appending to a file that loads as `es` gives one that starts with the image of `es` and `e`. */
  lemma AddExtendsCanonical(p: Primitives, k: Keys, data: bytes, es: seq<Entry>, e: Entry)
    requires Canonical(p, k, es) <= data && 0x10 + Length(es) < TWO63
    ensures |AddStages(p, k, data, e)| == 6
    ensures Canonical(p, k, es + [e]) <= AfterAdd(p, k, data, e)
    ensures |AfterAdd(p, k, data, e)| <= |data| + 0x50 + |e.text|
  {
    hide Wrap64, Length, Records, RecordStages, Overwrite, LastMac, Header, Record, Canonical, AddStages, AfterAdd,
      FileLength, RecordCount, Authentic;
    var mac := LastMac(p, k, INITIAL_MAC, 1, es);
    var h := Header(p, k.hmac, Wrap64(0x30 + Length(es) + 0x50 + |e.text|), Wrap64(|es| + 1));
    var r := Record(p, k, mac, |es| + 1, e);
    AfterAddIs(p, k, data, es, e, h, mac);
    RecordStagesWriteRecord(p, k, h + data[0x30..], 0x30 + Length(es), mac, |es| + 1, e);
    CanonicalSnoc(p, k, es, e, h, mac);
    CanonicalFields(p, k, data, es);
    WriteAfterPrefix(h, Records(p, k, INITIAL_MAC, 1, es), data[0x30..], r);
  }

  // ----- what the log promises -----

  /** After a completed append to a file that loads, the file loads as the longer list exactly when
      the new message names one of the two parties and its length fits the length field. */
  lemma AddThenLoad(p: Primitives, k: Keys, data: bytes, es: seq<Entry>, e: Entry)
    requires Load(p, k, data) == Some(es) && 0x10 + Length(es) < TWO63
    ensures |AddStages(p, k, data, e)| == 6
    ensures Load(p, k, AfterAdd(p, k, data, e)) == Some(es + [e]) <==> Loadable(e)
  {
    hide Load, Canonical, AddStages, Length;
    LoadIffCanonical(p, k, data, es);
    AddExtendsCanonical(p, k, data, es, e);
    LoadIffCanonical(p, k, AfterAdd(p, k, data, e), es + [e]);
    assert e in es + [e];
    LengthBoundsCount(es);
  }

  /** An append that stops after some but not all of its writes leaves a file that is shorter than its
      header says. */
  lemma InterruptedAddIsShort(p: Primitives, k: Keys, es: seq<Entry>, e: Entry, n: nat)
    requires 0x30 + Length(es) + 0x50 + |e.text| < TWO63
    requires 1 <= n <= 4
    ensures |AddStages(p, k, Canonical(p, k, es), e)| == 6
    ensures var d := AddStages(p, k, Canonical(p, k, es), e)[n];
      Authentic(p, k.hmac, d) && |d| < FileLength(d) == 0x30 + Length(es) + 0x50 + |e.text|
  {
    hide Wrap64, Length, Records, RecordStages, LastMac, Header, Canonical, AddStages;
    var data := Canonical(p, k, es);
    var end, mac := 0x30 + Length(es), LastMac(p, k, INITIAL_MAC, 1, es);
    var h := Header(p, k.hmac, end + 0x50 + |e.text|, Wrap64(|es| + 1));
    var d1 := h + data[0x30..];
    StagesOnCanonical(p, k, data, es, e, d1, mac);
    RecordStagesAreShort(p, k, d1, mac, |es| + 1, e, n - 1);
    var d := RecordStages(p, k, d1, |d1|, mac, |es| + 1, e)[n - 1];
    assert d == AddStages(p, k, data, e)[n];
    assert d[..0x30] == h;
    HeaderFields(p, k.hmac, end + 0x50 + |e.text|, Wrap64(|es| + 1), d);
  }

  /** So the loader refuses it: it never loads as a shorter or an altered list. */
  lemma InterruptedAddIsRefused(p: Primitives, k: Keys, es: seq<Entry>, e: Entry, n: nat)
    requires 0x30 + Length(es) + 0x50 + |e.text| < TWO63
    requires 1 <= n <= 4
    ensures |AddStages(p, k, Canonical(p, k, es), e)| == 6
    ensures Load(p, k, AddStages(p, k, Canonical(p, k, es), e)[n]) == None
  {
    hide AddStages, Canonical, Load, Length, FileLength;
    InterruptedAddIsShort(p, k, es, e, n);
    TruncatedIsRefused(p, k, AddStages(p, k, Canonical(p, k, es), e)[n]);
  }

  /** A C string holds the text up to its first NUL. */
  function AsWritten(e: Entry): Entry {
    Entry(e.sender, CStr(e.text))
  }

  function AllAsWritten(es: seq<Entry>): (r: seq<Entry>)
    ensures |r| == |es| && forall i | 0 <= i < |es| :: r[i] == AsWritten(es[i])
  {
    seq(|es|, i requires 0 <= i < |es| => AsWritten(es[i]))
  }

  /** The file after cfile_add of each message in turn. */
  function AddAll(p: Primitives, k: Keys, data: bytes, es: seq<Entry>): bytes {
    if es == [] then data else AfterAdd(p, k, AddAll(p, k, data, es[..|es| - 1]), AsWritten(es[|es| - 1]))
  }

  lemma AllAsWrittenSnoc(es: seq<Entry>)
    requires es != []
    ensures AllAsWritten(es) == AllAsWritten(es[..|es| - 1]) + [AsWritten(es[|es| - 1])]
  {
  }

  lemma {:induction false} LengthMonotone(es: seq<Entry>, e: Entry)
    ensures Length(es + [e]) == Length(es) + 0x50 + |e.text|
    decreases |es|
  {
    if es == [] {
      assert (es + [e])[1..] == [];
    } else {
      LengthMonotone(es[1..], e);
      assert (es + [e])[1..] == es[1..] + [e];
    }
  }

  /** The file always is the image of everything appended so far, so its header states its length. */
  lemma {:induction false} AddAllIsCanonical(p: Primitives, k: Keys, es: seq<Entry>)
    requires 0x30 + Length(AllAsWritten(es)) < TWO63
    ensures AddAll(p, k, Canonical(p, k, []), es) == Canonical(p, k, AllAsWritten(es))
    ensures var file := Canonical(p, k, AllAsWritten(es)); FileLength(file) == |file|
    decreases |es|
  {
    hide Wrap64, Length, Canonical, AllAsWritten, AfterAdd, AsWritten, FileLength, RecordCount, Authentic, De64,
      Records, AddStages;
    var whole := Canonical(p, k, AllAsWritten(es));
    CanonicalFields(p, k, whole, AllAsWritten(es));
    if es == [] {
      assert AllAsWritten(es) == [];
    } else {
      var front, e := es[..|es| - 1], AsWritten(es[|es| - 1]);
      AllAsWrittenSnoc(es);
      LengthMonotone(AllAsWritten(front), e);
      AddAllIsCanonical(p, k, front);
      var data := Canonical(p, k, AllAsWritten(front));
      AddExtendsCanonical(p, k, data, AllAsWritten(front), e);
      assert |AfterAdd(p, k, data, e)| <= |whole|;
      assert whole <= AfterAdd(p, k, data, e);
    }
  }

  lemma WrittenUnchanged(es: seq<Entry>)
    ensures AllAsWritten(es) == es <==> forall e | e in es :: 0 !in e.text
  {
    if AllAsWritten(es) == es {
      forall e | e in es
        ensures 0 !in e.text
      {
        var i :| 0 <= i < |es| && es[i] == e;
        assert AsWritten(es[i]) == es[i];
      }
    }
  }

  lemma WrittenLoadable(es: seq<Entry>)
    requires AllLoadable(es)
    ensures AllLoadable(AllAsWritten(es))
  {
    forall e | e in AllAsWritten(es)
      ensures Loadable(e)
    {
      var i :| 0 <= i < |es| && AllAsWritten(es)[i] == e;
      assert es[i] in es;
    }
  }

  /** A new file, any run of appends, and a load: what comes back is exactly what was appended, in
      order, precisely when every sender is one of the two parties and no text holds a NUL. */
  lemma RoundTrip(p: Primitives, k: Keys, es: seq<Entry>)
    requires 0x30 + Length(AllAsWritten(es)) < TWO63
    ensures Load(p, k, AddAll(p, k, Canonical(p, k, []), es)) == Some(es)
       <==> forall e | e in es :: e.sender in {0, 1} && 0 !in e.text
  {
    hide Wrap64, Length, Canonical, Load, AddAll, AsWritten, AllAsWritten;
    var file, written := Canonical(p, k, AllAsWritten(es)), AllAsWritten(es);
    AddAllIsCanonical(p, k, es);
    LengthBoundsCount(written);
    TextsAreBounded(written);
    LoadIffCanonical(p, k, file, written);
    LoadIffCanonical(p, k, file, es);
    WrittenUnchanged(es);
    if Load(p, k, file) == Some(es) {
      WrittenLoadable(es);
    }
  }

  lemma {:induction false} TextsAreBounded(es: seq<Entry>)
    ensures forall e | e in es :: |e.text| <= Length(es)
    decreases |es|
  {
    if es != [] {
      TextsAreBounded(es[1..]);
      assert es == [es[0]] + es[1..];
    }
  }

  // ----- loading a record at a time -----

  lemma OntoStep(p: Primitives, k: Keys, prev: Block, i: nat, n: nat, rest: bytes, done: seq<Entry>)
    requires n > 0
    ensures var r := ParseRecord(p, k, prev, i, rest);
      Onto(done, ParseRecords(p, k, prev, i, n, rest)) ==
        if r.None? then None else
        var used := 0x50 + |r.value.text|;
        Onto(done + [r.value], ParseRecords(p, k, rest[used - 32..used], i + 1, n - 1, rest[used..]))
  {
    hide ParseRecord;
    var r := ParseRecord(p, k, prev, i, rest);
    if r.Some? {
      var used := 0x50 + |r.value.text|;
      OntoTwice(done, [r.value], ParseRecords(p, k, rest[used - 32..used], i + 1, n - 1, rest[used..]));
    }
  }

  lemma ParseNothing(p: Primitives, k: Keys, prev: Block, i: nat, rest: bytes)
    ensures ParseRecords(p, k, prev, i, 0, rest) == Some([])
  {
  }
}
