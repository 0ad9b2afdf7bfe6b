/** How notifications are stored.  A notification refers to a friend; the file holds the friend's id, and
    the reader looks the id up in the friend list. */
module Notifications {
  import opened Bytes
  import opened Crypto
  import opened DataFile
  import opened Fields
  import opened Options

  /** `fr` is the place of the friend in the account's list. */
  datatype Notif =
    | Unread(fr: nat, count: uint64)
    | Request(uname: bytes, pkey: bytes)
    | Response(fr: nat)
    | Other(kind: byte)

  /** The ids of the account's friends, in the order of the list. */
  type Uids = seq<Block>

  /** The notification refers to a friend in the list, its lengths are words, and its type is its own. */
  predicate Proper(uids: Uids, n: Notif) {
    && (n.Unread? || n.Response? ==> n.fr < |uids|)
    && (n.Request? ==> |n.uname| < TWO64 && |n.pkey| < TWO64)
    && (n.Other? ==> n.kind !in {1, 2, 3})
  }

  function FriendId(uids: Uids, fr: nat): (r: bytes)
    ensures |r| == 0x20
  {
    if fr < |uids| then uids[fr] else seq(0x20, _ => 0)
  }

  function FirstWith(uids: Uids, uid: bytes): (i: nat)
    ensures i <= |uids| && (i < |uids| ==> uids[i] == uid)
    ensures forall j | 0 <= j < i :: uids[j] != uid
  {
    if uids == [] || uids[0] == uid then 0 else 1 + FirstWith(uids[1..], uid)
  }

  /** notif_bin_len. */
  function BinLen(n: Notif): nat {
    match n
    case Unread(_, _) => 1 + 0x20 + 0x08
    case Request(uname, pkey) => 1 + 0x08 + 0x08 + |uname| + |pkey|
    case Response(_) => 1 + 0x20
    case Other(_) => 1
  }

  function RequestFields(uname: bytes, pkey: bytes): seq<bytes> {
    [Be64(Wrap64(|uname|)), Be64(Wrap64(|pkey|)), uname, pkey]
  }

  /** notif_bin_write. */
  function BinWrite(uids: Uids, n: Notif): bytes {
    match n
    case Unread(fr, count) => [1] + (FriendId(uids, fr) + Be64(count))
    case Request(uname, pkey) => [2] + Join(RequestFields(uname, pkey))
    case Response(fr) => [3] + FriendId(uids, fr)
    case Other(kind) => [kind]
  }

  function RequestSizes(u: nat, k: nat): (ns: seq<nat>)
    ensures Sum(ns) == 16 + u + k
  {
    SumOfThree(8, 8, u, [k]);
    SumCons(k, []);
    assert [k] + [] == [k];
    [8, 8, u] + [k]
  }

  /** notif_bin_parse: type 1 falls through to type 3, and both move past 0x28 bytes. */
  function BinParse(uids: Uids, b: bytes): Parsed<Notif> {
    if b == [] then Overread else
    var rest := b[1..];
    if b[0] == 1 then (if |rest| < 0x28 then Overread else ParseReference(uids, rest, true))
    else if b[0] == 3 then ParseReference(uids, rest, false)
    else if b[0] == 2 then ParseRequest(rest)
    else Got(Other(b[0]), 1)
  }

  function ParseReference(uids: Uids, rest: bytes, counted: bool): Parsed<Notif>
    requires counted ==> |rest| >= 0x28
  {
    if uids == [] then Failed else
    if |rest| < 0x20 then Overread else
    var fr := FirstWith(uids, rest[..0x20]);
    if fr == |uids| then Failed
    else Got(if counted then Unread(fr, De64(rest[0x20..0x28])) else Response(fr), 1 + 0x28)
  }

  function ParseRequest(rest: bytes): Parsed<Notif> {
    if |rest| < 16 then Overread else
    var ns := RequestSizes(De64(rest[..8]), De64(rest[8..16]));
    if Sum(ns) > |rest| then Overread else
    var fs := Split(rest, ns);
    Got(Request(fs[2], fs[3]), 1 + Sum(ns))
  }

  /** The notification file of an account. */
  function NotifFile(k: Keys, uids: Uids): Format<Notif> {
    Format(0, _ => Some(k), BinLen, n => BinWrite(uids, n), b => BinParse(uids, b))
  }

  // ----- one notification -----

  lemma WrittenLength(uids: Uids, n: Notif)
    ensures |BinWrite(uids, n)| == BinLen(n)
  {
    match n
    case Request(uname, pkey) => {
      hide Be64, Wrap64, Join;
      RequestLength(uname, pkey);
    }
    case _ =>
  }

  lemma RequestLength(uname: bytes, pkey: bytes)
    ensures Sizes(RequestFields(uname, pkey)) == RequestSizes(|uname|, |pkey|)
    ensures |Join(RequestFields(uname, pkey))| == 16 + |uname| + |pkey|
  {
    hide Be64, Wrap64;
    var fs := RequestFields(uname, pkey);
    assert Sizes(fs) == RequestSizes(|uname|, |pkey|);
    JoinLength(fs);
  }

  lemma RequestFollowed(uname: bytes, pkey: bytes, rest: bytes)
    requires |uname| < TWO64 && |pkey| < TWO64
    ensures ParseRequest(Join(RequestFields(uname, pkey)) + rest) == Got(Request(uname, pkey), 17 + |uname| + |pkey|)
  {
    hide Be64, De64, Sum, Split, Join;
    var fs, ns := RequestFields(uname, pkey), RequestSizes(|uname|, |pkey|);
    var b := Join(fs) + rest;
    RequestLength(uname, pkey);
    SplitOfJoin(fs, b);
    WordAt(b, ns, 0);
    WordAt(b, ns, 1);
    DeBe64(|uname|);
    DeBe64(|pkey|);
    assert fs[0] == Be64(|uname|) && fs[1] == Be64(|pkey|) && fs[2] == uname && fs[3] == pkey;
  }

  lemma RequestIsParsed(uids: Uids, uname: bytes, pkey: bytes, rest: bytes)
    requires |uname| < TWO64 && |pkey| < TWO64
    ensures BinParse(uids, BinWrite(uids, Request(uname, pkey)) + rest) == Got(Request(uname, pkey), 17 + |uname| + |pkey|)
  {
    hide ParseRequest, ParseReference, Join, RequestFields;
    RequestFollowed(uname, pkey, rest);
    TagFirst(2, Join(RequestFields(uname, pkey)), rest);
  }

  lemma TagFirst(tag: byte, a: bytes, rest: bytes)
    ensures var b := [tag] + a + rest; b != [] && b[0] == tag && b[1..] == a + rest
  {
  }

  lemma ReferenceFollowed(uids: Uids, fr: nat, count: uint64, rest: bytes)
    requires fr < |uids|
    ensures ParseReference(uids, uids[fr] + Be64(count) + rest, true) == Got(Unread(FirstWith(uids, uids[fr]), count), 0x29)
  {
    hide Be64, De64, FirstWith;
    var b := uids[fr] + Be64(count) + rest;
    assert b[..0x20] == uids[fr] && b[0x20..0x28] == Be64(count);
    DeBe64(count);
  }

  lemma UnreadIsParsed(uids: Uids, fr: nat, count: uint64, rest: bytes)
    requires fr < |uids|
    ensures BinParse(uids, BinWrite(uids, Unread(fr, count)) + rest) == Got(Unread(FirstWith(uids, uids[fr]), count), 0x29)
  {
    hide Be64, ParseReference, ParseRequest, FirstWith;
    ReferenceFollowed(uids, fr, count, rest);
    TagFirst(1, uids[fr] + Be64(count), rest);
  }

  /** A record byte for byte: the type, and then the friend's id and the number of messages, or a name and a key behind their
      lengths, or the friend's id. */
  predicate RecordStands(uids: Uids, n: Notif, b: bytes)
    requires Proper(uids, n)
  {
    match n
    case Unread(fr, count) => |b| == 0x29 && b[0] == 1 && b[1..0x21] == uids[fr] && b[0x21..] == Be64(count)
    case Request(uname, pkey) =>
      var u := 0x11 + |uname|;
      && |b| == u + |pkey| && b[0] == 2 && b[1..9] == Be64(Wrap64(|uname|)) && b[9..0x11] == Be64(Wrap64(|pkey|))
      && b[0x11..u] == uname && b[u..] == pkey
    case Response(fr) => |b| == 0x21 && b[0] == 3 && b[1..] == uids[fr]
    case Other(kind) => b == [kind]
  }

  lemma WrittenStands(uids: Uids, n: Notif)
    requires Proper(uids, n)
    ensures RecordStands(uids, n, BinWrite(uids, n))
  {
    hide Be64, Wrap64, Join;
    var b := BinWrite(uids, n);
    match n
    case Request(uname, pkey) => {
      var fs := RequestFields(uname, pkey);
      RequestLength(uname, pkey);
      assert fs[0..] == fs && b[1..] == Join(fs);
      FieldAt(b, 1, fs, 0);
      FieldAt(b, 9, fs, 1);
      FieldAt(b, 0x11, fs, 2);
      FieldAt(b, 0x11 + |uname|, fs, 3);
    }
    case _ =>
  }

  /** The reader moves past more bytes than the writer wrote for a response, and past as many otherwise. */
  function ParsedLen(n: Notif): nat {
    BinLen(n) + if n.Response? then 8 else 0
  }

  lemma ParsedMovesPast(uids: Uids, b: bytes)
    requires BinParse(uids, b).Got?
    ensures BinParse(uids, b).used == ParsedLen(BinParse(uids, b).x)
  {
    hide De64, Sum, Split;
  }

  /** Exactly these notifications are read back as they were written: messages from the first friend
      with that id, and requests, but never responses. */
  lemma NotifInverseIff(k: Keys, uids: Uids, n: Notif)
    requires Proper(uids, n)
    ensures Inverse(NotifFile(k, uids), n) <==> !n.Response? && (n.Unread? ==> FirstWith(uids, uids[n.fr]) == n.fr)
  {
    hide BinWrite, BinParse, FirstWith;
    var f := NotifFile(k, uids);
    WrittenLength(uids, n);
    match n
    case Unread(fr, count) => {
      forall rest
        ensures f.read(f.write(n) + rest) == Got(Unread(FirstWith(uids, uids[fr]), count), |f.write(n)|)
      {
        UnreadIsParsed(uids, fr, count, rest);
      }
      if Inverse(f, n) {
        assert f.read(f.write(n) + []) == Got(n, |f.write(n)|);
      }
    }
    case Request(uname, pkey) => {
      forall rest
        ensures f.read(f.write(n) + rest) == Got(n, |f.write(n)|)
      {
        RequestIsParsed(uids, uname, pkey, rest);
      }
    }
    case Response(fr) => {
      if Inverse(f, n) {
        assert f.read(f.write(n) + []) == Got(n, |f.write(n)|);
        ParsedMovesPast(uids, f.write(n) + []);
      }
    }
    case Other(kind) => {
      OtherIsParsed(k, uids, kind);
    }
  }

  lemma OtherIsParsed(k: Keys, uids: Uids, kind: byte)
    requires kind !in {1, 2, 3}
    ensures Inverse(NotifFile(k, uids), Other(kind))
  {
  }

  // ----- the whole list -----

  lemma DistinctAreFirst(uids: Uids, fr: nat)
    requires fr < |uids| && forall i, j | 0 <= i < j < |uids| :: uids[i] != uids[j]
    ensures FirstWith(uids, uids[fr]) == fr
  {
  }

  function ParsedTotal(ns: seq<Notif>): nat {
    if ns == [] then 0 else ParsedLen(ns[0]) + ParsedTotal(ns[1..])
  }

  lemma {:induction false} LoadedTotal(k: Keys, uids: Uids, num: nat, rest: bytes)
    requires ReadAll(NotifFile(k, uids), num, rest).Ok?
    ensures ParsedTotal(ReadAll(NotifFile(k, uids), num, rest).xs) == |rest|
    decreases num
  {
    hide BinParse;
    if num > 0 {
      ParsedMovesPast(uids, rest);
      var used := BinParse(uids, rest).used;
      LoadedTotal(k, uids, num - 1, rest[used..]);
      var xs := ReadAll(NotifFile(k, uids), num - 1, rest[used..]).xs;
      assert ([BinParse(uids, rest).x] + xs)[1..] == xs;
    }
  }

  lemma {:induction false} ResponsesAreTooLong(k: Keys, uids: Uids, ns: seq<Notif>)
    ensures ParsedTotal(ns) >= TotalLen(NotifFile(k, uids), ns)
    ensures ParsedTotal(ns) == TotalLen(NotifFile(k, uids), ns) <==> forall n | n in ns :: !n.Response?
  {
    hide BinLen;
    if ns != [] {
      ResponsesAreTooLong(k, uids, ns[1..]);
      assert ns == [ns[0]] + ns[1..];
    }
  }

  /** With friends whose ids are distinct, a list of notifications is read back as it was written exactly
      when it holds no response: those are written with 0x20 bytes after the type and read with 0x28. */
  lemma NotifsSurviveIff(p: Primitives, k: Keys, uids: Uids, salt: Block, ns: seq<Notif>, file: bytes)
    requires forall i, j | 0 <= i < j < |uids| :: uids[i] != uids[j]
    requires forall i | 0 <= i < |ns| :: Proper(uids, ns[i])
    requires |ns| < TWO64 && TotalLen(NotifFile(k, uids), ns) < TWO64
    requires Container(p, k, |ns|, salt, [], WriteAll(NotifFile(k, uids), ns)) <= file
    ensures Load(p, NotifFile(k, uids), file) == Ok(ns) <==> forall n | n in ns :: !n.Response?
  {
    hide Container, Load, BinWrite, BinParse, BinLen, TotalLen, WriteAll, FirstWith, Inverse, Proper;
    var f := NotifFile(k, uids);
    if forall n | n in ns :: !n.Response? {
      forall i | 0 <= i < |ns|
        ensures Inverse(f, ns[i])
      {
        NonResponseInverse(k, uids, ns[i]);
      }
      RoundTrip(p, f, k, salt, [], ns, file);
      LastTakesRoom(k, uids, ns);
    }
    if Load(p, f, file) == Ok(ns) {
      PayloadLoaded(p, k, uids, salt, ns, file);
      LoadedTotal(k, uids, |ns|, WriteAll(f, ns));
      ResponsesAreTooLong(k, uids, ns);
    }
  }

  lemma NonResponseInverse(k: Keys, uids: Uids, n: Notif)
    requires Proper(uids, n) && !n.Response? && forall i, j | 0 <= i < j < |uids| :: uids[i] != uids[j]
    ensures Inverse(NotifFile(k, uids), n)
  {
    hide FirstWith, Inverse;
    NotifInverseIff(k, uids, n);
    if n.Unread? {
      DistinctAreFirst(uids, n.fr);
    }
  }

  lemma LastTakesRoom(k: Keys, uids: Uids, ns: seq<Notif>)
    ensures EndsInBytes(NotifFile(k, uids), ns)
  {
  }

  lemma PayloadLoaded(p: Primitives, k: Keys, uids: Uids, salt: Block, ns: seq<Notif>, file: bytes)
    requires |ns| < TWO64 && TotalLen(NotifFile(k, uids), ns) < TWO64
    requires Container(p, k, |ns|, salt, [], WriteAll(NotifFile(k, uids), ns)) <= file
    ensures |WriteAll(NotifFile(k, uids), ns)| == TotalLen(NotifFile(k, uids), ns)
    ensures Load(p, NotifFile(k, uids), file) == ReadAll(NotifFile(k, uids), |ns|, WriteAll(NotifFile(k, uids), ns))
  {
    hide Container, Prefix, OpenPrefix, OpenPayload, ReadAll, WriteAll, BinWrite, BinParse, BinLen;
    var f := NotifFile(k, uids);
    var payload := WriteAll(f, ns);
    forall i | 0 <= i < |ns|
      ensures |f.write(ns[i])| == f.len(ns[i])
    {
      WrittenLength(uids, ns[i]);
    }
    WriteAllLength(f, ns);
    ContainerPrefix(p, k, |ns|, salt, [], payload, file);
    PrefixIsOpened(p, f, k, |ns|, |payload|, salt, [], file);
    PayloadIsOpened(p, k, |ns|, salt, [], payload, file);
  }

  /** The shortest list that is lost: one response of the only friend. */
  lemma OneResponseIsLost(p: Primitives, k: Keys, uid: Block, salt: Block)
    ensures var f := NotifFile(k, [uid]);
      Load(p, f, Container(p, k, 1, salt, [], WriteAll(f, [Response(0)]))) != Ok([Response(0)])
  {
    hide Container, Load, BinWrite, WriteAll;
    var f, ns := NotifFile(k, [uid]), [Response(0)];
    assert TotalLen(f, ns) == 0x21 by {
      assert ns[1..] == [];
    }
    NotifsSurviveIff(p, k, [uid], salt, ns, Container(p, k, 1, salt, [], WriteAll(f, ns)));
    assert Response(0) in ns;
  }

  // ----- the code -----

  /** notif_bin_write at the pen's position. */
  method Write(uids: Uids, n: Notif, pen: Pen)
    requires pen.Valid() && pen.written == [] && pen.ptr + BinLen(n) <= pen.buf.Length && Proper(uids, n)
    modifies pen, pen.buf
    ensures pen.Valid() && pen.ptr == old(pen.ptr) + BinLen(n) && Join(pen.written) == BinWrite(uids, n)
  {
    hide Be64, Wrap64, Pen.Valid;
    match n {
      case Unread(fr, count) =>
        pen.Put([1]);
        pen.Put(uids[fr]);
        pen.Put(Be64(count));
        JoinOfThree([1], uids[fr], Be64(count));
      case Request(uname, pkey) =>
        pen.Put([2]);
        pen.Put(Be64(Wrap64(|uname|)));
        pen.Put(Be64(Wrap64(|pkey|)));
        pen.Put(uname);
        pen.Put(pkey);
        assert pen.written == [[2]] + RequestFields(uname, pkey);
        JoinCons([2], RequestFields(uname, pkey));
      case Response(fr) =>
        pen.Put([3]);
        pen.Put(uids[fr]);
        JoinOfTwo([3], uids[fr]);
      case Other(kind) =>
        pen.Put([kind]);
        JoinOfOne([kind]);
    }
  }

  /** The friend list is searched from its beginning. */
  method Find(uids: Uids, uid: bytes) returns (fr: nat)
    ensures fr == FirstWith(uids, uid)
  {
    fr := 0;
    while fr < |uids| && uids[fr] != uid
      invariant fr <= |uids| && FirstWith(uids, uid) == fr + FirstWith(uids[fr..], uid)
    {
      fr := fr + 1;
    }
  }

  /** notif_bin_parse on the bytes from the reader's position on. */
  method Parse(uids: Uids, b: bytes) returns (r: Parsed<Notif>)
    ensures r == BinParse(uids, b)
  {
    hide De64, FirstWith, Sum, Split;
    if b == [] { return Overread; }
    var ptr := 1;
    var count: uint64 := 0;
    if b[0] == 1 || b[0] == 3 {
      if b[0] == 1 {
        if |b| < ptr + 0x28 { return Overread; }
        assert b[1..][0x20..0x28] == b[ptr + 0x20..ptr + 0x28];
        count := De64(b[ptr + 0x20..ptr + 0x28]);
      }
      if uids == [] { return Failed; }
      if |b| < ptr + 0x20 { return Overread; }
      assert b[1..][..0x20] == b[ptr..ptr + 0x20];
      var fr := Find(uids, b[ptr..ptr + 0x20]);
      if fr == |uids| { return Failed; }
      ptr := ptr + 0x28;
      r := Got(if b[0] == 1 then Unread(fr, count) else Response(fr), ptr);
    } else if b[0] == 2 {
      r := ParseFriendRequest(b[1..]);
    } else {
      r := Got(Other(b[0]), ptr);
    }
  }

  /** The request of notif_bin_parse, after its type. */
  method ParseFriendRequest(rest: bytes) returns (r: Parsed<Notif>)
    ensures r == ParseRequest(rest)
  {
    hide De64, Be64, Sum, Split, Reader.Valid;
    var reader := new Reader(rest, 0);
    assert rest[0..] == rest;
    var ok, uLen := TakeWord(reader);
    if !ok { return Overread; }
    var kLen: uint64, uname: bytes, pkey: bytes;
    ok, kLen := TakeWord(reader);
    if !ok { return Overread; }
    ok, uname := reader.Take(uLen);
    if !ok { return Overread; }
    ok, pkey := reader.Take(kLen);
    if !ok { return Overread; }
    var size: nat := uLen + kLen;
    r := Got(Request(uname, pkey), 17 + size);
    assert reader.taken == RequestFields(uname, pkey);
    TakenRequest(reader, uname, pkey);
  }

  lemma TakenRequest(reader: Reader, uname: bytes, pkey: bytes)
    requires reader.Valid() && reader.start == 0 && |uname| < TWO64 && |pkey| < TWO64
    requires reader.taken == RequestFields(uname, pkey)
    ensures ParseRequest(reader.buf) == Got(Request(uname, pkey), 17 + |uname| + |pkey|)
  {
    hide ParseRequest, Join;
    var b := reader.buf;
    assert b[0..] == b;
    var w := BinWrite([], Request(uname, pkey));
    var rest := b[|Join(reader.taken)|..];
    assert b == Join(reader.taken) + rest;
    RequestIsParsed([], uname, pkey, rest);
    assert (w + rest)[1..] == b;
  }
}
