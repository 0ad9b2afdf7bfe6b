/** Writing and reading a container: a linked list is measured, serialised into a buffer, encrypted in
    place and written; and read, decrypted in place, parsed and linked again. */
module DataFileIO {
  import opened Bytes
  import opened Crypto
  import opened DataFile
  import opened Fields
  import opened Files
  import opened LinkedLists
  import opened Options

  /** How an operation ends: well, with an error, or in memory that is not its own. */
  datatype Status = Success | Error | OutOfBounds

  // ----- writing -----

  lemma {:induction false} LenSnoc<T>(f: Format<T>, xs: seq<T>, x: T)
    ensures TotalLen(f, xs + [x]) == TotalLen(f, xs) + f.len(x)
    ensures WriteAll(f, xs + [x]) == WriteAll(f, xs) + f.write(x)
    decreases |xs|
  {
    if xs == [] {
      assert (xs + [x])[1..] == [];
    } else {
      LenSnoc(f, xs[1..], x);
      assert (xs + [x])[1..] == xs[1..] + [x];
    }
  }

  lemma {:induction false} LenOfPrefix<T>(f: Format<T>, xs: seq<T>, i: nat)
    requires i <= |xs|
    ensures TotalLen(f, xs[..i]) <= TotalLen(f, xs)
    decreases |xs| - i
  {
    if i < |xs| {
      LenOfPrefix(f, xs, i + 1);
      LenSnoc(f, xs[..i], xs[i]);
      assert xs[..i + 1] == xs[..i] + [xs[i]];
    } else {
      assert xs[..i] == xs;
    }
  }

  /** The first walk: how many records there are and how long they are. */
  method Measure<T>(f: Format<T>, head: Item?<T>, ghost items: seq<Item<T>>) returns (num: uint64, len: uint64)
    requires Chained(head, items) && |items| < TWO64 && TotalLen(f, Data(items)) < TWO64
    ensures num == |items| && len == TotalLen(f, Data(items))
  {
    hide TotalLen;
    var cur := head;
    ghost var xs := Data(items);
    num, len := 0, 0;
    NothingToWrite(f);
    while cur != null
      invariant num <= |items| && cur == (if num < |items| then items[num] else null)
      invariant len == TotalLen(f, xs[..num])
      decreases |items| - num
    {
      LenSnoc(f, xs[..num], cur.data);
      LenOfPrefix(f, xs, num + 1);
      assert xs[..num + 1] == xs[..num] + [cur.data];
      len := len + f.len(cur.data);
      num := num + 1;
      cur := cur.next;
    }
    assert xs[..num] == xs;
  }

  lemma NothingToWrite<T>(f: Format<T>)
    ensures TotalLen(f, []) == 0 && WriteAll(f, []) == [] && Join([]) == []
  {
  }

  lemma {:induction false} WriteOfPrefix<T>(f: Format<T>, xs: seq<T>, i: nat)
    requires i <= |xs|
    ensures |WriteAll(f, xs[..i])| <= |WriteAll(f, xs)|
    decreases |xs| - i
  {
    if i < |xs| {
      WriteOfPrefix(f, xs, i + 1);
      LenSnoc(f, xs[..i], xs[i]);
      assert xs[..i + 1] == xs[..i] + [xs[i]];
    } else {
      assert xs[..i] == xs;
    }
  }

  /** What becomes of so many bytes in a buffer of the announced length. */
  function Fit(written: nat, announced: nat): Status {
    if written > announced then OutOfBounds else if written < announced then Error else Success
  }

  /** The second walk: the records fill the buffer, if they are as long as was announced. */
  method Serialise<T>(f: Format<T>, head: Item?<T>, ghost items: seq<Item<T>>, len: nat)
    returns (status: Status, payload: array<byte>)
    requires Chained(head, items)
    ensures fresh(payload) && status == Fit(|WriteAll(f, Data(items))|, len)
    ensures status == Success ==> payload[..] == WriteAll(f, Data(items))
  {
    hide WriteAll, Join, Overwrite;
    payload := new byte[len];
    var pen := new Pen(payload, 0);
    var cur := head;
    ghost var xs, i := Data(items), 0;
    NothingToWrite(f);
    while cur != null
      invariant i <= |items| && cur == (if i < |items| then items[i] else null)
      invariant pen.Valid() && pen.buf == payload && pen.start == 0
      invariant Join(pen.written) == WriteAll(f, xs[..i])
      modifies pen, payload
      decreases |items| - i
    {
      OneMoreRecord(f, xs, i);
      var record := f.write(cur.data);
      if pen.ptr + |record| > len {
        return OutOfBounds, payload;
      }
      JoinSnoc(pen.written, record);
      pen.Put(record);
      i := i + 1;
      cur := cur.next;
    }
    assert xs[..i] == xs;
    if pen.ptr != len {
      return Error, payload;
    }
    OverwriteAll(pen.before, Join(pen.written));
    status := Success;
  }

  lemma OneMoreRecord<T>(f: Format<T>, xs: seq<T>, i: nat)
    requires i < |xs|
    ensures WriteAll(f, xs[..i + 1]) == WriteAll(f, xs[..i]) + f.write(xs[i])
    ensures |WriteAll(f, xs[..i])| + |f.write(xs[i])| <= |WriteAll(f, xs)|
  {
    assert xs[..i + 1] == xs[..i] + [xs[i]];
    LenSnoc(f, xs[..i], xs[i]);
    WriteOfPrefix(f, xs, i + 1);
  }

  lemma OverwriteAll(d: bytes, s: bytes)
    requires |s| == |d|
    ensures Overwrite(d, 0, s) == s
  {
  }

  /** chacha_enc and chacha_dec with the output over the input. */
  method Crypt(p: Primitives, key: Block, a: array<byte>)
    modifies a
    ensures a[..] == Stream(p, key, 0, 0, old(a[..]))
  {
    hide Xor;
    for i := 0 to a.Length
      invariant forall j | 0 <= j < i :: a[j] == Xor(old(a[j]), p.keystream(key, 0, 0 + j))
      invariant forall j | i <= j < a.Length :: a[j] == old(a[j])
    {
      a[i] := Xor(a[i], p.keystream(key, 0, i));
    }
  }

  /** How much of a container is in its file after so many writes: an empty payload is not written. */
  function Reached(prefix: nat, payload: nat, writes: nat): nat {
    if writes == 0 then 0
    else if writes == 1 then prefix
    else if writes == 2 && payload > 0 then prefix + payload
    else prefix + payload + 0x20
  }

  /** The end of write_datafile: the parts go out one after the other, as far as they can. */
  method WriteOut(file: File, prefix: bytes, payload: bytes, mac: Block) returns (ok: bool)
    modifies file
    ensures ok == (old(file.budget) >= if payload == [] then 2 else 3)
    ensures file.data == (prefix + payload + mac)[..Reached(|prefix|, |payload|, old(file.budget))]
  {
    hide Overwrite;
    ghost var all := prefix + payload + mac;
    file.data, file.pos := [], 0;
    OverwriteNothing(prefix);
    ok := file.Write(prefix);
    if !ok { return; }
    assert all[..|prefix|] == prefix;
    if payload != [] {
      OverwriteEnd(prefix, payload);
      ok := file.Write(payload);
      if !ok { return; }
    }
    assert prefix + [] == prefix && all[..|prefix| + |payload|] == prefix + payload;
    OverwriteEnd(prefix + payload, mac);
    ok := file.Write(mac);
    assert all[..|all|] == all;
  }

  /** The part of a container that write_datafile leaves in the file. */
  function Saved<T>(p: Primitives, f: Format<T>, xs: seq<T>, salt: Block, pref: bytes, writes: nat): bytes
    requires |xs| < TWO64
  {
    var payload := WriteAll(f, xs);
    if f.keys(pref).None? || Fit(|payload|, TotalLen(f, xs)) != Success then [] else
    Container(p, f.keys(pref).value, |xs|, salt, pref, payload)[..Reached(0x50 + |pref|, |payload|, writes)]
  }

  /** And how it ends. */
  function SaveStatus<T>(f: Format<T>, xs: seq<T>, pref: bytes, writes: nat): Status {
    if f.keys(pref).None? then Error else
    var fit := Fit(|WriteAll(f, xs)|, TotalLen(f, xs));
    if fit == Success && writes < (if TotalLen(f, xs) == 0 then 2 else 3) then Error else fit
  }

  /** write_datafile, with the salt that was drawn and the preamble that was filled in. */
  method WriteDatafile<T>(p: Primitives, f: Format<T>, head: Item?<T>, ghost items: seq<Item<T>>,
                          salt: Block, pref: bytes, file: File) returns (status: Status)
    requires Chained(head, items) && |items| < TWO64 && TotalLen(f, Data(items)) < TWO64 && |pref| == f.prefLen
    modifies file
    ensures status == SaveStatus(f, Data(items), pref, old(file.budget))
    ensures file.data == Saved(p, f, Data(items), salt, pref, old(file.budget))
  {
    hide TotalLen, WriteAll, Stream, Be64, Chained, Container;
    file.data, file.pos := [], 0;
    var num, len := Measure(f, head, items);
    var keys := f.keys(pref);
    if keys.None? { return Error; }
    var k := keys.value;
    var fields := Be64(num) + Be64(len) + salt + pref;
    var prefix := fields + p.hmac(k.hmac, fields);
    var payload: array<byte>;
    status, payload := Serialise(f, head, items, len);
    if status != Success { return; }
    ghost var plain := payload[..];
    Crypt(p, p.sha(k.symm + salt), payload);
    var mac := p.hmac(k.hmac, prefix + payload[..]);
    ContainerInParts(p, k, num, salt, pref, plain);
    var ok := WriteOut(file, prefix, payload[..], mac);
    status := if ok then Success else Error;
  }

  lemma ContainerInParts(p: Primitives, k: Keys, num: uint64, salt: Block, pref: bytes, payload: bytes)
    requires |payload| < TWO64
    ensures var fields := Be64(num) + Be64(|payload|) + salt + pref;
      var prefix, cipher := fields + p.hmac(k.hmac, fields), Stream(p, p.sha(k.symm + salt), 0, 0, payload);
      Container(p, k, num, salt, pref, payload) == prefix + cipher + p.hmac(k.hmac, prefix + cipher)
  {
    hide Stream, Be64;
  }

  /** A file in which all the writes happened is the whole container. */
  lemma SavedWhole<T>(p: Primitives, f: Format<T>, xs: seq<T>, salt: Block, pref: bytes, writes: nat)
    requires |xs| < TWO64 && SaveStatus(f, xs, pref, writes) == Success
    ensures f.keys(pref).Some?
    ensures Saved(p, f, xs, salt, pref, writes) == Container(p, f.keys(pref).value, |xs|, salt, pref, WriteAll(f, xs))
  {
    hide TotalLen, WriteAll, Container;
    var c := Container(p, f.keys(pref).value, |xs|, salt, pref, WriteAll(f, xs));
    assert c[..|c|] == c;
  }

  /** A save that fails leaves a file that is not loaded: the list that was there before is gone. */
  lemma FailedSaveIsRefused<T>(p: Primitives, f: Format<T>, xs: seq<T>, salt: Block, pref: bytes, writes: nat)
    requires |xs| < TWO64 && |pref| == f.prefLen && SaveStatus(f, xs, pref, writes) != Success
    requires TotalLen(f, xs) < TWO64
    ensures Load(p, f, Saved(p, f, xs, salt, pref, writes)) == Refused
  {
    hide TotalLen, WriteAll, Load, Container;
    var file := Saved(p, f, xs, salt, pref, writes);
    if file == [] {
      NothingIsRefused(p, f);
    } else {
      TruncatedIsRefused(p, f, f.keys(pref).value, |xs|, salt, pref, WriteAll(f, xs), file);
    }
  }

  /** A list that is saved is read back if and only if the save succeeds and the list is empty or ends in a record
      that takes up room. */
  lemma SavedLoadsIff<T>(p: Primitives, f: Format<T>, xs: seq<T>, salt: Block, pref: bytes, writes: nat)
    requires |xs| < TWO64 && |pref| == f.prefLen && AllInverse(f, xs) && TotalLen(f, xs) < TWO64
    ensures Load(p, f, Saved(p, f, xs, salt, pref, writes)) == Ok(xs)
       <==> SaveStatus(f, xs, pref, writes) == Success && EndsInBytes(f, xs)
  {
    hide TotalLen, WriteAll, Load, Container, Saved, SaveStatus, AllInverse, EndsInBytes;
    if SaveStatus(f, xs, pref, writes) == Success {
      SavedWhole(p, f, xs, salt, pref, writes);
      RoundTrip(p, f, f.keys(pref).value, salt, pref, xs, Saved(p, f, xs, salt, pref, writes));
    } else {
      FailedSaveIsRefused(p, f, xs, salt, pref, writes);
    }
  }

  lemma NothingIsRefused<T>(p: Primitives, f: Format<T>)
    ensures Load(p, f, []) == Refused
  {
  }

  /** add_friend and insert_notif: the item goes to the end of the list, and the whole list is written. */
  method AddAndSave<T>(p: Primitives, f: Format<T>, head: Item?<T>, ghost items: seq<Item<T>>, item: Item<T>,
                       salt: Block, pref: bytes, file: File) returns (status: Status, head': Item<T>)
    requires Chained(head, items) && item !in items && item.next == null
    requires |items| + 1 < TWO64 && TotalLen(f, Data(items) + [item.data]) < TWO64 && |pref| == f.prefLen
    modifies file, items, item
    ensures Chained(head', items + [item])
    ensures status == SaveStatus(f, Data(items) + [item.data], pref, old(file.budget))
    ensures file.data == Saved(p, f, Data(items) + [item.data], salt, pref, old(file.budget))
  {
    hide TotalLen, WriteAll, SaveStatus, Saved;
    head' := AppendItem(head, items, item);
    assert Data(items + [item]) == Data(items) + [item.data];
    status := WriteDatafile(p, f, head', items + [item], salt, pref, file);
  }

  /** The walk to the end of the list. */
  method AppendItem<T>(head: Item?<T>, ghost items: seq<Item<T>>, item: Item<T>) returns (head': Item<T>)
    requires Chained(head, items) && item !in items && item.next == null
    modifies items
    ensures Chained(head', items + [item])
  {
    if head == null {
      return item;
    }
    var last := head;
    ghost var i := 0;
    while last.next != null
      invariant i < |items| && last == items[i]
      decreases |items| - i
    {
      last := last.next;
      i := i + 1;
    }
    last.next := item;
    return head;
  }

  // ----- reading -----

  ghost predicate Agrees<T>(r: Loaded<T>, status: Status, xs: seq<T>) {
    match r
    case Ok(ys) => status == Success && xs == ys
    case Refused => status == Error
    case Overrun => status == OutOfBounds
  }

  function OntoAll<T>(done: seq<T>, r: Loaded<T>): Loaded<T> {
    if r.Ok? then Ok(done + r.xs) else r
  }

  /** One turn of the reading loop. */
  lemma ReadStep<T>(f: Format<T>, done: seq<T>, n: nat, rest: bytes)
    requires n > 0 && rest != []
    ensures OntoAll(done, ReadAll(f, n, rest)) ==
      match f.read(rest)
      case Failed => Refused
      case Overread => Overrun
      case Got(x, used) => if used > |rest| then Refused else OntoAll(done + [x], ReadAll(f, n - 1, rest[used..]))
  {
    match f.read(rest)
    case Got(x, used) =>
      if used <= |rest| {
        var r := ReadAll(f, n - 1, rest[used..]);
        if r.Ok? {
          assert done + ([x] + r.xs) == done + [x] + r.xs;
        }
      }
    case _ =>
  }

  /** The loop that parses the payload and links the records. */
  method Parse<T>(f: Format<T>, payload: bytes, num: nat)
    returns (status: Status, head: Item?<T>, ghost items: seq<Item<T>>)
    ensures Agrees(ReadAll(f, num, payload), status, Data(items))
    ensures Chained(head, items) && fresh(items)
  {
    hide ReadAll, Chained, Data;
    var last: Item?<T> := null;
    head, items := null, [];
    NoItems<T>();
    var ptr, i := 0, 0;
    ghost var target := ReadAll(f, num, payload);
    OntoNothing(target);
    assert payload[0..] == payload;
    while ptr < |payload| && i < num
      invariant i <= num && ptr <= |payload|
      invariant target == OntoAll(Data(items), ReadAll(f, num - i, payload[ptr..]))
      invariant Chained(head, items) && fresh(items)
      invariant last == if items == [] then null else items[|items| - 1]
    {
      ReadStep(f, Data(items), num - i, payload[ptr..]);
      match f.read(payload[ptr..]) {
        case Failed => return Error, head, items;
        case Overread => return OutOfBounds, head, items;
        case Got(x, used) =>
          if ptr + used > |payload| { return Error, head, items; }
          var item := new Item(x);
          head := LinkBehind(head, items, last, item);
          DataAppend(items, [item]);
          DataOne(item);
          items, last := items + [item], item;
          assert payload[ptr..][used..] == payload[ptr + used..];
          ptr, i := ptr + used, i + 1;
      }
    }
    NoMoreTurns(f, num - i, payload[ptr..]);
    assert Data(items) + [] == Data(items);
    status := if i != num || ptr != |payload| then Error else Success;
  }

  lemma NoItems<T>()
    ensures Chained<T>(null, []) && Data<T>([]) == []
  {
  }

  lemma OntoNothing<T>(r: Loaded<T>)
    ensures OntoAll([], r) == r
  {
    if r.Ok? {
      assert [] + r.xs == r.xs;
    }
  }

  lemma NoMoreTurns<T>(f: Format<T>, n: nat, rest: bytes)
    requires n == 0 || rest == []
    ensures ReadAll(f, n, rest) == if n == 0 && rest == [] then Ok([]) else Refused
  {
  }

  /** The first half of read_datafile: the prefix and its MAC. */
  method ReadPrefix<T>(p: Primitives, f: Format<T>, file: File)
    returns (ok: bool, k: Keys, num: uint64, len: uint64, prefix: bytes)
    requires file.pos == 0
    modifies file`pos
    ensures OpenPrefix(p, f, file.data) == if ok then Some((k, num, len)) else None
    ensures ok ==> prefix == file.data[..0x50 + f.prefLen] && file.pos == 0x50 + f.prefLen
  {
    hide De64;
    k, num, len := Keys(seq(32, _ => 0), seq(32, _ => 0)), 0, 0;
    ok, prefix := file.Read(0x50 + f.prefLen);
    if !ok { return; }
    var n := 0x30 + f.prefLen;
    ghost var d := file.data;
    assert prefix[0x30..n] == d[0x30..n] && prefix[..n] == d[..n] && prefix[n..] == d[n..n + 0x20];
    assert prefix[..8] == d[..8] && prefix[8..0x10] == d[8..0x10];
    var keys := f.keys(prefix[0x30..n]);
    if keys.None? { ok := false; return; }
    k, num, len := keys.value, De64(prefix[..8]), De64(prefix[8..0x10]);
    ok := p.hmac(k.hmac, prefix[..n]) == prefix[n..];
  }

  /** The second half: the payload and its MAC, and the payload decrypted in place. */
  method ReadPayload(p: Primitives, k: Keys, len: uint64, prefix: bytes, file: File)
    returns (ok: bool, payload: array<byte>)
    requires |prefix| >= 0x50 && |prefix| == file.pos <= |file.data| && prefix == file.data[..|prefix|]
    modifies file`pos
    ensures OpenPayload(p, k, |prefix| - 0x50, len, file.data) == if ok then Some(payload[..]) else None
    ensures fresh(payload)
  {
    hide Stream;
    payload := new byte[0];
    var enc, mac: bytes;
    ghost var d, n := file.data, |prefix|;
    ok, enc := file.Read(len);
    if !ok { return; }
    ok, mac := file.Read(0x20);
    if !ok { return; }
    assert prefix + enc == d[..n + len] && mac == d[n + len..n + len + 0x20] && prefix[0x10..0x30] == d[0x10..0x30];
    ok := p.hmac(k.hmac, prefix + enc) == mac;
    if ok {
      payload := new byte[len](i requires 0 <= i < |enc| => enc[i]);
      assert payload[..] == enc;
      Crypt(p, p.sha(k.symm + prefix[0x10..0x30]), payload);
    }
  }

  /** read_datafile. */
  method ReadDatafile<T>(p: Primitives, f: Format<T>, file: File)
    returns (status: Status, head: Item?<T>, ghost items: seq<Item<T>>)
    modifies file`pos
    ensures Agrees(Load(p, f, file.data), status, Data(items))
    ensures Chained(head, items) && fresh(items)
  {
    hide OpenPrefix, OpenPayload, ReadAll;
    file.pos := 0;
    status, head, items := Error, null, [];
    var ok, k, num, len, prefix := ReadPrefix(p, f, file);
    if !ok { return; }
    var payload: array<byte>;
    ok, payload := ReadPayload(p, k, len, prefix, file);
    if !ok { return; }
    status, head, items := Parse(f, payload[..], num);
  }
}
