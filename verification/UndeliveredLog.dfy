/** The server's file of messages for a user who is not logged in: an append-only log whose record
    MACs form a chain. */
module UndeliveredLog {
  import opened Bytes
  import opened Crypto
  import opened Files
  import opened LogHeader
  import opened Options

  type Messages = seq<bytes>

  // ----- the format -----

  function Mac(p: Primitives, auth: Block, prev: Block, m: bytes): Block {
    p.hmac(auth, prev + Be64(Wrap64(|m|)) + m)
  }

  function Record(p: Primitives, auth: Block, prev: Block, m: bytes): (r: bytes)
    ensures |r| == 40 + |m|
  {
    Be64(Wrap64(|m|)) + m + Mac(p, auth, prev, m)
  }

  function Length(ms: Messages): nat {
    if ms == [] then 0 else 40 + |ms[0]| + Length(ms[1..])
  }

  function Records(p: Primitives, auth: Block, prev: Block, ms: Messages): (r: bytes)
    ensures |r| == Length(ms)
    decreases |ms|
  {
    if ms == [] then [] else Record(p, auth, prev, ms[0]) + Records(p, auth, Mac(p, auth, prev, ms[0]), ms[1..])
  }

  function LastMac(p: Primitives, auth: Block, prev: Block, ms: Messages): Block
    decreases |ms|
  {
    if ms == [] then prev else LastMac(p, auth, Mac(p, auth, prev, ms[0]), ms[1..])
  }

  /** A file holding `ms` whose header claims the length `flen`. */
  function Image(p: Primitives, auth: Block, flen: uint64, ms: Messages): (r: bytes)
    ensures |r| == 0x30 + Length(ms)
  {
    Header(p, auth, flen, Wrap64(|ms|)) + Records(p, auth, INITIAL_MAC, ms)
  }

  function Canonical(p: Primitives, auth: Block, ms: Messages): (r: bytes)
    ensures |r| == 0x30 + Length(ms)
  {
    Image(p, auth, Wrap64(0x30 + Length(ms)), ms)
  }

  /** fread and fwrite of one item of size zero report failure. */
  predicate Storable(m: bytes) {
    0 < |m| < TWO64
  }

  predicate AllStorable(ms: Messages) {
    forall m | m in ms :: Storable(m)
  }

  lemma {:induction false} Snoc(p: Primitives, auth: Block, prev: Block, ms: Messages, m: bytes)
    ensures Records(p, auth, prev, ms + [m])
         == Records(p, auth, prev, ms) + Record(p, auth, LastMac(p, auth, prev, ms), m)
    ensures Length(ms + [m]) == Length(ms) + 40 + |m|
    decreases |ms|
  {
    hide Record, Mac;
    if ms == [] {
      assert (ms + [m])[1..] == [];
    } else {
      Snoc(p, auth, Mac(p, auth, prev, ms[0]), ms[1..], m);
      assert (ms + [m])[1..] == ms[1..] + [m];
    }
  }

  lemma RecordEndsWithMac(p: Primitives, auth: Block, prev: Block, m: bytes)
    ensures Record(p, auth, prev, m)[8 + |m|..] == Mac(p, auth, prev, m)
  {
    hide Mac, Wrap64;
  }

  lemma {:induction false} RecordsEndWithLastMac(p: Primitives, auth: Block, prev: Block, ms: Messages)
    requires ms != []
    ensures Length(ms) >= 40
    ensures Records(p, auth, prev, ms)[Length(ms) - 32..] == LastMac(p, auth, prev, ms)
    decreases |ms|
  {
    hide Record, Mac;
    RecordEndsWithMac(p, auth, prev, ms[0]);
    if |ms| > 1 {
      RecordsEndWithLastMac(p, auth, Mac(p, auth, prev, ms[0]), ms[1..]);
    }
  }

  lemma {:induction false} LengthBounds(ms: Messages)
    ensures |ms| <= Length(ms)
    ensures forall m | m in ms :: |m| <= Length(ms)
    decreases |ms|
  {
    if ms != [] {
      LengthBounds(ms[1..]);
      assert ms == [ms[0]] + ms[1..];
    }
  }

  // ----- what the loader computes -----

  function ParseRecord(p: Primitives, auth: Block, prev: Block, rest: bytes): (r: Option<bytes>)
    ensures r.Some? ==> |rest| >= 40 + |r.value|
  {
    if |rest| < 8 then None else
    var len := De64(rest[..8]);
    if len == 0 || |rest| < 40 + len then None else
    if p.hmac(auth, prev + rest[..8] + rest[8..8 + len]) != rest[8 + len..40 + len] then None else
    Some(rest[8..8 + len])
  }

  function ParseRecords(p: Primitives, auth: Block, prev: Block, n: nat, rest: bytes): Option<Messages>
    decreases n
  {
    if n == 0 then Some([]) else
    match ParseRecord(p, auth, prev, rest)
    case None => None
    case Some(m) => Onto([m], ParseRecords(p, auth, rest[8 + |m|..40 + |m|], n - 1, rest[40 + |m|..]))
  }

  function Load(p: Primitives, auth: Block, file: bytes): Option<Messages> {
    if !Authentic(p, auth, file) then None else
    ParseRecords(p, auth, INITIAL_MAC, RecordCount(file), file[0x30..])
  }

  lemma ParsedIsRecord(p: Primitives, auth: Block, prev: Block, rest: bytes)
    requires ParseRecord(p, auth, prev, rest).Some?
    ensures var m := ParseRecord(p, auth, prev, rest).value;
      && Storable(m)
      && Record(p, auth, prev, m) == rest[..40 + |m|]
      && Mac(p, auth, prev, m) == rest[8 + |m|..40 + |m|]
  {
    hide De64, Be64;
    var m := ParseRecord(p, auth, prev, rest).value;
    assert rest[..40 + |m|] == rest[..8] + m + rest[8 + |m|..40 + |m|];
  }

  lemma RecordIsParsed(p: Primitives, auth: Block, prev: Block, m: bytes, rest: bytes)
    requires Storable(m) && Record(p, auth, prev, m) <= rest
    ensures ParseRecord(p, auth, prev, rest) == Some(m)
    ensures rest[8 + |m|..40 + |m|] == Mac(p, auth, prev, m)
  {
    hide De64, Be64;
    var r, n := Record(p, auth, prev, m), |m|;
    SliceOfPrefix(r, rest, 0, 8);
    SliceOfPrefix(r, rest, 8, 8 + n);
    SliceOfPrefix(r, rest, 8 + n, 40 + n);
    assert r[..8] == Be64(n) && r[8..8 + n] == m && r[8 + n..40 + n] == Mac(p, auth, prev, m);
    DeBe64(n);
  }

  lemma {:induction false} ParsedAreRecords(p: Primitives, auth: Block, prev: Block, n: nat, rest: bytes)
    requires ParseRecords(p, auth, prev, n, rest).Some?
    ensures var ms := ParseRecords(p, auth, prev, n, rest).value;
      |ms| == n && AllStorable(ms) && Records(p, auth, prev, ms) <= rest
    decreases n
  {
    hide ParseRecord, Record, Mac;
    if n > 0 {
      ParsedIsRecord(p, auth, prev, rest);
      var m := ParseRecord(p, auth, prev, rest).value;
      ParsedAreRecords(p, auth, rest[8 + |m|..40 + |m|], n - 1, rest[40 + |m|..]);
      assert rest == rest[..40 + |m|] + rest[40 + |m|..];
    }
  }

  /** Whole records are read back one by one, and the loop goes on with what follows them. */
  lemma {:induction false} RecordsAreParsed(p: Primitives, auth: Block, prev: Block, ms: Messages, n: nat, x: bytes)
    requires AllStorable(ms)
    ensures ParseRecords(p, auth, prev, |ms| + n, Records(p, auth, prev, ms) + x)
         == Onto(ms, ParseRecords(p, auth, LastMac(p, auth, prev, ms), n, x))
    decreases |ms|
  {
    hide ParseRecord, Record, Mac;
    if ms == [] {
      assert [] + x == x;
      OntoNothing(ParseRecords(p, auth, prev, n, x));
    } else {
      var m, mac := ms[0], Mac(p, auth, prev, ms[0]);
      var r, tail := Record(p, auth, prev, m), Records(p, auth, mac, ms[1..]);
      var rest := Records(p, auth, prev, ms) + x;
      Associate(r, tail, x);
      RecordIsParsed(p, auth, prev, m, r + (tail + x));
      RecordsAreParsed(p, auth, mac, ms[1..], n, x);
      OntoTwice([m], ms[1..], ParseRecords(p, auth, LastMac(p, auth, mac, ms[1..]), n, x));
      assert [m] + ms[1..] == ms;
    }
  }

  lemma OntoStep(p: Primitives, auth: Block, prev: Block, n: nat, rest: bytes, done: Messages)
    requires n > 0
    ensures var r := ParseRecord(p, auth, prev, rest);
      Onto(done, ParseRecords(p, auth, prev, n, rest)) ==
        if r.None? then None else
        var m := r.value;
        Onto(done + [m], ParseRecords(p, auth, rest[8 + |m|..40 + |m|], n - 1, rest[40 + |m|..]))
  {
    hide ParseRecord;
    var r := ParseRecord(p, auth, prev, rest);
    if r.Some? {
      var m := r.value;
      OntoTwice(done, [m], ParseRecords(p, auth, rest[8 + |m|..40 + |m|], n - 1, rest[40 + |m|..]));
    }
  }

  /** The loader returns `ms` precisely when the file starts with the image of `ms` under some length
      field: it checks the chain and the count, but never the length. */
  lemma LoadIffImage(p: Primitives, auth: Block, file: bytes, ms: Messages)
    ensures Load(p, auth, file) == Some(ms)
       <==> |file| >= 0x30 && |ms| < TWO64 && AllStorable(ms) && Image(p, auth, FileLength(file), ms) <= file
  {
    if Load(p, auth, file) == Some(ms) {
      LoadedIsImage(p, auth, file);
    }
    if |file| >= 0x30 && |ms| < TWO64 && AllStorable(ms) && Image(p, auth, FileLength(file), ms) <= file {
      ImageIsLoaded(p, auth, FileLength(file), file, ms);
    }
  }

  lemma LoadedIsImage(p: Primitives, auth: Block, file: bytes)
    requires Load(p, auth, file).Some?
    ensures var ms := Load(p, auth, file).value;
      |ms| < TWO64 && AllStorable(ms) && Image(p, auth, FileLength(file), ms) <= file
  {
    hide Wrap64, Length, ParseRecords, Records, Header, FileLength, RecordCount;
    var ms := Load(p, auth, file).value;
    ParsedAreRecords(p, auth, INITIAL_MAC, RecordCount(file), file[0x30..]);
    HeaderFromFields(p, auth, file);
    assert file == file[..0x30] + file[0x30..];
  }

  lemma ImageFields(p: Primitives, auth: Block, flen: uint64, file: bytes, ms: Messages)
    requires Image(p, auth, flen, ms) <= file
    ensures Authentic(p, auth, file) && FileLength(file) == flen && RecordCount(file) == Wrap64(|ms|)
    ensures Records(p, auth, INITIAL_MAC, ms) <= file[0x30..]
  {
    hide Wrap64, Length, Records, Header, FileLength, RecordCount, Authentic;
    PrefixOfAppend(Header(p, auth, flen, Wrap64(|ms|)), Records(p, auth, INITIAL_MAC, ms), file);
    HeaderFields(p, auth, flen, Wrap64(|ms|), file);
  }

  lemma ImageIsLoaded(p: Primitives, auth: Block, flen: uint64, file: bytes, ms: Messages)
    requires |ms| < TWO64 && AllStorable(ms) && Image(p, auth, flen, ms) <= file
    ensures Load(p, auth, file) == Some(ms)
  {
    hide ParseRecords, Records, Image, LastMac;
    ImageFields(p, auth, flen, file, ms);
    var rs := Records(p, auth, INITIAL_MAC, ms);
    var x := file[0x30..][|rs|..];
    assert file[0x30..] == rs + x;
    RecordsAreParsed(p, auth, INITIAL_MAC, ms, 0, x);
    ParseNothing(p, auth, LastMac(p, auth, INITIAL_MAC, ms), x);
    assert ms + [] == ms;
  }

  lemma ParseNothing(p: Primitives, auth: Block, prev: Block, rest: bytes)
    ensures ParseRecords(p, auth, prev, 0, rest) == Some([])
  {
  }

  /** So a file that loads is canonical exactly when its length field is right. */
  lemma LoadedIsCanonicalIff(p: Primitives, auth: Block, file: bytes, ms: Messages)
    requires Load(p, auth, file) == Some(ms)
    ensures Canonical(p, auth, ms) <= file <==> FileLength(file) == Wrap64(0x30 + Length(ms))
  {
    hide Wrap64, Length, Image, FileLength, Load;
    LoadIffImage(p, auth, file, ms);
    if Canonical(p, auth, ms) <= file {
      ImageFields(p, auth, Wrap64(0x30 + Length(ms)), file, ms);
    }
  }

  /** A file that loads although nothing wrote it: the length field says zero. */
  lemma WrongLengthStillLoads(p: Primitives, auth: Block)
    ensures Load(p, auth, Image(p, auth, 0, [])) == Some([])
    ensures !(Canonical(p, auth, []) <= Image(p, auth, 0, []))
  {
    hide Image, Load;
    var file := Image(p, auth, 0, []);
    ImageIsLoaded(p, auth, 0, file, []);
    ImageFields(p, auth, 0, file, []);
    LoadedIsCanonicalIff(p, auth, file, []);
  }

  // ----- appending -----

  /** The contents before the writes that put a record at `end`, and after each of them.  Writing an
      item of size zero counts as a failure, so an empty message is abandoned half way. */
  function RecordStages(p: Primitives, auth: Block, d1: bytes, end: nat, prev: Block, m: bytes): (r: seq<bytes>)
    ensures |r| == (if m == [] then 2 else 4) && r[0] == d1
  {
    var d2 := Overwrite(d1, end, Be64(Wrap64(|m|)));
    if m == [] then [d1, d2] else
    var d3 := Overwrite(d2, end + 8, m);
    [d1, d2, d3, Overwrite(d3, end + 8 + |m|, Mac(p, auth, prev, m))]
  }

  /** The contents after none, one, two, ... of the writes of undel_add_message. */
  function AddStages(p: Primitives, auth: Block, data: bytes, m: bytes): (r: seq<bytes>)
    ensures |r| in {1, 2, 3, 5} && r[0] == data
  {
    if !Authentic(p, auth, data) then [data] else
    var flen, mnum := FileLength(data), RecordCount(data);
    var d1 := Overwrite(data, 0, Header(p, auth, Wrap64(flen + 8 + |m| + 32), Wrap64(mnum + 1)));
    var at := Wrap64(flen - 32);
    if at >= TWO63 || at + 32 > |d1| then [data, d1] else
    var prev := if mnum == 0 then INITIAL_MAC else d1[at..at + 32];
    [data] + RecordStages(p, auth, d1, at + 32, prev, m)
  }

  function AfterAdd(p: Primitives, auth: Block, data: bytes, m: bytes): bytes {
    var st := AddStages(p, auth, data, m);
    st[|st| - 1]
  }

  lemma RecordStagesWriteRecord(p: Primitives, auth: Block, d1: bytes, prev: Block, m: bytes)
    requires m != []
    ensures RecordStages(p, auth, d1, |d1|, prev, m)[3] == d1 + Record(p, auth, prev, m)
  {
    hide Mac, Wrap64, Overwrite;
    var l, mac := Be64(Wrap64(|m|)), Mac(p, auth, prev, m);
    OverwriteTwice(d1, |d1|, l, m);
    OverwriteTwice(d1, |d1|, l + m, mac);
    OverwriteEnd(d1, l + m + mac);
  }

  /** A record that is not complete is a proper prefix of one. */
  lemma RecordStagesArePrefixes(p: Primitives, auth: Block, d1: bytes, prev: Block, m: bytes, n: nat)
    requires n < 3 && n < |RecordStages(p, auth, d1, |d1|, prev, m)|
    ensures d1 <= RecordStages(p, auth, d1, |d1|, prev, m)[n]
    ensures var x := RecordStages(p, auth, d1, |d1|, prev, m)[n][|d1|..];
      |x| < 40 + |m| && (|x| >= 8 ==> x[..8] == Be64(Wrap64(|m|)))
  {
    hide Mac, Wrap64, Overwrite;
    var l := Be64(Wrap64(|m|));
    OverwriteEnd(d1, l);
    OverwriteTwice(d1, |d1|, l, m);
    OverwriteEnd(d1, l + m);
  }

  lemma CanonicalEnd(p: Primitives, auth: Block, ms: Messages)
    requires ms != []
    ensures var data, end := Canonical(p, auth, ms), 0x30 + Length(ms);
      Length(ms) >= 40 && data[end - 32..end] == LastMac(p, auth, INITIAL_MAC, ms)
  {
    hide Records, LastMac, Length, Wrap64;
    RecordsEndWithLastMac(p, auth, INITIAL_MAC, ms);
  }

  /** Lengths and counts stay within a word. */
  lemma CountsFit(ms: Messages)
    requires 0x10 + Length(ms) < TWO63
    ensures |ms| + 1 < TWO64 && Wrap64(|ms|) == |ms| && Wrap64(|ms| + 1) == |ms| + 1
    ensures 0x30 + Length(ms) < TWO64 && Wrap64(0x30 + Length(ms)) == 0x30 + Length(ms) && 0x30 + Length(ms) - 32 < TWO63
  {
    hide Length;
    LengthBounds(ms);
  }

  lemma CanonicalFields(p: Primitives, auth: Block, ms: Messages, file: bytes)
    requires file == Canonical(p, auth, ms)
    ensures Authentic(p, auth, file) && FileLength(file) == Wrap64(0x30 + Length(ms)) && RecordCount(file) == Wrap64(|ms|)
  {
    hide *;
    CanonicalBegins(p, auth, ms, file);
    ImageFields(p, auth, Wrap64(0x30 + Length(ms)), file, ms);
  }

  lemma CanonicalBegins(p: Primitives, auth: Block, ms: Messages, file: bytes)
    requires file == Canonical(p, auth, ms)
    ensures Image(p, auth, Wrap64(0x30 + Length(ms)), ms) <= file
  {
    hide Length, Image, Wrap64;
  }

  /** Appending to the image of `ms` replaces the header and then writes the next record. */
  lemma StagesOnCanonical(p: Primitives, auth: Block, ms: Messages, m: bytes, d1: bytes, mac: Block)
    requires 0x10 + Length(ms) < TWO63
    requires d1 == Header(p, auth, Wrap64(0x30 + Length(ms) + 8 + |m| + 32), Wrap64(|ms| + 1)) + Canonical(p, auth, ms)[0x30..]
    requires mac == LastMac(p, auth, INITIAL_MAC, ms)
    ensures AddStages(p, auth, Canonical(p, auth, ms), m) == [Canonical(p, auth, ms)] + RecordStages(p, auth, d1, |d1|, mac, m)
  {
    hide *;
    CountsFit(ms);
    var data, end := Canonical(p, auth, ms), 0x30 + Length(ms);
    CanonicalFields(p, auth, ms, data);
    MacBeforeEnd(p, auth, ms, d1);
    AddStagesFrom(p, auth, data, m, end, |ms|, mac, d1);
  }

  /** What the next record is chained to: the last MAC, which a new header leaves in place. */
  lemma MacBeforeEnd(p: Primitives, auth: Block, ms: Messages, d1: bytes)
    requires |d1| == 0x30 + Length(ms) && d1[0x30..] == Canonical(p, auth, ms)[0x30..]
    ensures if ms == [] then LastMac(p, auth, INITIAL_MAC, ms) == INITIAL_MAC
            else d1[|d1| - 32..] == LastMac(p, auth, INITIAL_MAC, ms)
  {
    hide Length, LastMac, Canonical;
    if ms == [] {
      NoMac(p, auth);
    } else {
      var data, end := Canonical(p, auth, ms), |d1|;
      CanonicalEnd(p, auth, ms);
      assert d1[0x30..][end - 80..] == d1[end - 32..] && data[0x30..][end - 80..] == data[end - 32..];
    }
  }

  lemma NoMac(p: Primitives, auth: Block)
    ensures LastMac(p, auth, INITIAL_MAC, []) == INITIAL_MAC
  {
  }

  lemma AddStagesFrom(p: Primitives, auth: Block, data: bytes, m: bytes, flen: uint64, mnum: uint64, prev: Block,
          d1: bytes)
    requires Authentic(p, auth, data) && FileLength(data) == flen && RecordCount(data) == mnum
    requires 32 <= flen <= |data| && flen - 32 < TWO63
    requires d1 == Header(p, auth, Wrap64(flen + 8 + |m| + 32), Wrap64(mnum + 1)) + data[0x30..]
    requires if mnum == 0 then prev == INITIAL_MAC else prev == d1[flen - 32..flen]
    ensures AddStages(p, auth, data, m) == [data] + RecordStages(p, auth, d1, flen, prev, m)
  {
    hide RecordStages, Header, Overwrite, FileLength, RecordCount;
    OverwriteFront(data, Header(p, auth, Wrap64(flen + 8 + |m| + 32), Wrap64(mnum + 1)));
  }

  lemma CanonicalBody(p: Primitives, auth: Block, ms: Messages)
    ensures Canonical(p, auth, ms)[0x30..] == Records(p, auth, INITIAL_MAC, ms)
  {
    hide Wrap64, Length, Records, Header;
  }

  lemma CanonicalParts(p: Primitives, auth: Block, ms: Messages)
    ensures Canonical(p, auth, ms)
         == Header(p, auth, Wrap64(0x30 + Length(ms)), Wrap64(|ms|)) + Records(p, auth, INITIAL_MAC, ms)
  {
    hide Wrap64, Length, Records, Header;
  }

  lemma CanonicalSnoc(p: Primitives, auth: Block, ms: Messages, m: bytes, h: bytes, mac: Block)
    requires h == Header(p, auth, Wrap64(0x30 + Length(ms) + 8 + |m| + 32), Wrap64(|ms| + 1))
    requires mac == LastMac(p, auth, INITIAL_MAC, ms)
    ensures Canonical(p, auth, ms + [m]) == h + (Records(p, auth, INITIAL_MAC, ms) + Record(p, auth, mac, m))
  {
    hide *;
    Snoc(p, auth, INITIAL_MAC, ms, m);
    CanonicalParts(p, auth, ms + [m]);
    assert 0x30 + Length(ms + [m]) == 0x30 + Length(ms) + 8 + |m| + 32 && |ms + [m]| == |ms| + 1;
  }

  /** Appending a non-empty message to the image of `ms` gives the image of the longer list. */
  lemma AddExtendsCanonical(p: Primitives, auth: Block, ms: Messages, m: bytes)
    requires 0x10 + Length(ms) < TWO63 && m != []
    ensures |AddStages(p, auth, Canonical(p, auth, ms), m)| == 5
    ensures AfterAdd(p, auth, Canonical(p, auth, ms), m) == Canonical(p, auth, ms + [m])
  {
    hide Wrap64, Length, Records, RecordStages, LastMac, Image, Header, AddStages, Canonical, Record;
    var mac := LastMac(p, auth, INITIAL_MAC, ms);
    var h := Header(p, auth, Wrap64(0x30 + Length(ms) + 8 + |m| + 32), Wrap64(|ms| + 1));
    var d1 := h + Canonical(p, auth, ms)[0x30..];
    StagesOnCanonical(p, auth, ms, m, d1, mac);
    RecordStagesWriteRecord(p, auth, d1, mac, m);
    CanonicalSnoc(p, auth, ms, m, h, mac);
    CanonicalBody(p, auth, ms);
    Associate(h, Records(p, auth, INITIAL_MAC, ms), Record(p, auth, mac, m));
  }

  // ----- what the log promises -----

  /** A completed append to a log is seen by the next load exactly when the message is not empty. */
  lemma AddThenLoad(p: Primitives, auth: Block, ms: Messages, m: bytes)
    requires AllStorable(ms) && 0x10 + Length(ms) < TWO63 && |m| < TWO64
    ensures Load(p, auth, AfterAdd(p, auth, Canonical(p, auth, ms), m)) == Some(ms + [m]) <==> m != []
  {
    hide Length, Image, AddStages, Load, AfterAdd;
    LengthBounds(ms);
    if m == [] {
      var file := AfterAdd(p, auth, Canonical(p, auth, ms), m);
      LoadIffImage(p, auth, file, ms + [m]);
      assert m in ms + [m];
    } else {
      AddExtendsCanonical(p, auth, ms, m);
      ImageIsLoaded(p, auth, Wrap64(0x30 + Length(ms + [m])), Canonical(p, auth, ms + [m]), ms + [m]);
    }
  }

  /** An append that stops after some but not all of its writes leaves a file whose header claims more bytes
      and one record more than there are. */
  lemma InterruptedAddIsShort(p: Primitives, auth: Block, ms: Messages, m: bytes, n: nat)
    requires AllStorable(ms) && 0x30 + Length(ms) < TWO63 && |m| < TWO64
    requires 1 <= n <= 3 && n < |AddStages(p, auth, Canonical(p, auth, ms), m)|
    ensures var d := AddStages(p, auth, Canonical(p, auth, ms), m)[n];
      && Authentic(p, auth, d) && |d| < 0x30 + Length(ms) + 40 + |m|
      && FileLength(d) == Wrap64(0x30 + Length(ms) + 40 + |m|)
      && RecordCount(d) == |ms| + 1
      && ParseRecords(p, auth, INITIAL_MAC, |ms| + 1, d[0x30..]) == None
  {
    hide *;
    CountsFit(ms);
    var mac, rs := LastMac(p, auth, INITIAL_MAC, ms), Records(p, auth, INITIAL_MAC, ms);
    var h := Header(p, auth, Wrap64(0x30 + Length(ms) + 8 + |m| + 32), |ms| + 1);
    CanonicalBody(p, auth, ms);
    StagesOnCanonical(p, auth, ms, m, h + rs, mac);
    LaterStage(Canonical(p, auth, ms), RecordStages(p, auth, h + rs, |h + rs|, mac, m), n);
    StageIsShort(p, auth, ms, m, h, rs, mac, n - 1);
  }

  lemma LaterStage(data: bytes, stages: seq<bytes>, n: nat)
    requires 0 < n <= |stages|
    ensures ([data] + stages)[n] == stages[n - 1]
  {
  }

  lemma StageIsShort(p: Primitives, auth: Block, ms: Messages, m: bytes, h: bytes, rs: bytes, mac: Block, n: nat)
    requires AllStorable(ms) && |ms| + 1 < TWO64 && |m| < TWO64
    requires h == Header(p, auth, Wrap64(0x30 + Length(ms) + 8 + |m| + 32), |ms| + 1)
    requires rs == Records(p, auth, INITIAL_MAC, ms) && mac == LastMac(p, auth, INITIAL_MAC, ms)
    requires n < 3 && n < |RecordStages(p, auth, h + rs, |h + rs|, mac, m)|
    ensures var d := RecordStages(p, auth, h + rs, |h + rs|, mac, m)[n];
      && Authentic(p, auth, d) && |d| < 0x30 + Length(ms) + 40 + |m|
      && FileLength(d) == Wrap64(0x30 + Length(ms) + 40 + |m|)
      && RecordCount(d) == |ms| + 1
      && ParseRecords(p, auth, INITIAL_MAC, |ms| + 1, d[0x30..]) == None
  {
    hide Wrap64, Length, Records, RecordStages, LastMac, Header, Record, ParseRecords, FileLength, RecordCount, Authentic,
      De64, Be64;
    RecordStagesArePrefixes(p, auth, h + rs, mac, m, n);
    var d := RecordStages(p, auth, h + rs, |h + rs|, mac, m)[n];
    var x := d[|h + rs|..];
    assert d == h + rs + x && d[0x30..] == rs + x;
    HeaderFields(p, auth, Wrap64(0x30 + Length(ms) + 8 + |m| + 32), |ms| + 1, d);
    RecordsAreParsed(p, auth, INITIAL_MAC, ms, 1, x);
    PartialRecordIsRefused(p, auth, mac, m, x);
  }

  /** So the loader refuses it.  An empty message always ends like that: once it is added, the whole log
      is lost. */
  lemma InterruptedAddIsRefused(p: Primitives, auth: Block, ms: Messages, m: bytes, n: nat)
    requires AllStorable(ms) && 0x30 + Length(ms) < TWO63 && |m| < TWO64
    requires 1 <= n <= 3 && n < |AddStages(p, auth, Canonical(p, auth, ms), m)|
    ensures Load(p, auth, AddStages(p, auth, Canonical(p, auth, ms), m)[n]) == None
  {
    hide AddStages, Canonical, Length, ParseRecords, RecordCount, Authentic, Wrap64;
    InterruptedAddIsShort(p, auth, ms, m, n);
  }

  lemma PartialRecordIsRefused(p: Primitives, auth: Block, prev: Block, m: bytes, x: bytes)
    requires |m| < TWO64 && |x| < 40 + |m| && (|x| >= 8 ==> x[..8] == Be64(Wrap64(|m|)))
    ensures ParseRecords(p, auth, prev, 1, x) == None
  {
    hide De64, Be64;
    DeBe64(|m|);
  }
}
