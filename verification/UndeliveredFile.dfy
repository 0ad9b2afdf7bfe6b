/** The operations on an undelivered file, as the server runs them on an open stream. */
module UndeliveredFile {
  import opened Bytes
  import opened Crypto
  import opened Files
  import opened LinkedLists
  import opened LogHeader
  import opened Options
  import opened UndeliveredLog

  /** struct umessage. */
  type UMessage = Item<bytes>

  /** undel_init_file: opening for writing empties the file even when the write then fails. */
  method InitFile(p: Primitives, auth: Block, f: File) returns (ok: bool)
    modifies f
    ensures ok == (old(f.budget) > 0)
    ensures f.data == if ok then Canonical(p, auth, []) else []
  {
    hide Overwrite, Header, Canonical;
    CanonicalEmpty(p, auth);
    OverwriteNothing(Header(p, auth, 0x30, 0));
    f.data, f.pos := [], 0;
    ok := f.Write(Header(p, auth, 0x30, 0));
  }

  lemma CanonicalEmpty(p: Primitives, auth: Block)
    ensures Canonical(p, auth, []) == Header(p, auth, 0x30, 0)
  {
    hide Header;
  }

  /** undel_add_message: every write that its budget allows is done, in order; success means all four. */
  method AddMessage(p: Primitives, auth: Block, f: File, message: bytes) returns (ok: bool)
    requires |message| < TWO64
    modifies f
    ensures var st := AddStages(p, auth, old(f.data), message);
      && f.data == st[Min(|st| - 1, old(f.budget))]
      && ok == (|st| == 5 && old(f.budget) >= 4)
  {
    hide AddStages, FileLength, RecordCount, De64, Authentic;
    NotAuthentic(p, auth, f.data, message);
    f.pos := 0;
    var prefix: bytes;
    ok, prefix := f.ReadItem(0x30);
    if !ok { return; }
    HeaderRead(p, auth, f.data, prefix);
    if p.hmac(auth, prefix[..0x10]) != prefix[0x10..] { return false; }
    ok := Append(p, auth, f, De64(prefix[..8]), De64(prefix[8..0x10]), message);
  }

  lemma NotAuthentic(p: Primitives, auth: Block, data: bytes, message: bytes)
    ensures !Authentic(p, auth, data) ==> AddStages(p, auth, data, message) == [data]
  {
    hide RecordStages, Header, Authentic, Overwrite;
  }

  /** undel_add_message once the header is authenticated: the new header, and the record at the old end. */
  method Append(p: Primitives, auth: Block, f: File, flen: uint64, mnum: uint64, message: bytes) returns (ok: bool)
    requires Authentic(p, auth, f.data) && FileLength(f.data) == flen && RecordCount(f.data) == mnum
    requires |message| < TWO64
    modifies f
    ensures var st := AddStages(p, auth, old(f.data), message);
      && f.data == st[Min(|st| - 1, old(f.budget))]
      && ok == (|st| == 5 && old(f.budget) >= 4)
  {
    hide Overwrite, RecordStages, Header, Wrap64, Authentic, FileLength, RecordCount;
    var length: int, count: int := flen, mnum;
    var last: bytes;
    var _ := f.Seek(0);
    ok := f.WriteItem(Header(p, auth, Wrap64(length + 8 + |message| + 32), Wrap64(count + 1)));
    if !ok { return; }
    ok := f.Seek(Wrap64(length - 32));
    if !ok { return; }
    ok, last := f.ReadItem(0x20);
    if !ok { return; }
    var prev: Block := if mnum == 0 then INITIAL_MAC else last;
    ok := WriteRecord(p, auth, f, prev, message);
  }

  /** The end of undel_add_message: the three writes of a record at the current position. */
  method WriteRecord(p: Primitives, auth: Block, f: File, prev: Block, message: bytes) returns (ok: bool)
    requires |message| < TWO64
    modifies f
    ensures var st := RecordStages(p, auth, old(f.data), old(f.pos), prev, message);
      && f.data == st[Min(|st| - 1, old(f.budget))]
      && ok == (|st| == 4 && old(f.budget) >= 3)
  {
    hide Overwrite;
    var lenBuf := Be64(|message|);
    var mac := p.hmac(auth, prev + lenBuf + message);
    ok := f.WriteItem(lenBuf);
    if !ok { return; }
    ok := f.WriteItem(message);
    if !ok { return; }
    ok := f.WriteItem(mac);
  }

  /** One turn of the loop of undel_load. */
  method ReadRecord(p: Primitives, auth: Block, f: File, prev: Block) returns (ok: bool, m: bytes, mac: Block)
    requires f.pos <= |f.data|
    modifies f`pos
    ensures var rest := f.data[old(f.pos)..];
      && ParseRecord(p, auth, prev, rest) == (if ok then Some(m) else None)
      && (ok ==> f.pos == old(f.pos) + 40 + |m| <= |f.data| && f.data[f.pos..] == rest[40 + |m|..])
      && (ok ==> mac == rest[8 + |m|..40 + |m|])
  {
    hide De64;
    m, mac := [], prev;
    ghost var rest := f.data[f.pos..];
    var lenBuf, macf: bytes;
    ok, lenBuf := f.ReadItem(8);
    if !ok { return; }
    assert lenBuf == rest[..8];
    var len := De64(lenBuf);
    ok, m := f.ReadItem(len);
    if !ok { return; }
    assert m == rest[8..8 + len];
    ok, macf := f.ReadItem(0x20);
    if !ok { return; }
    assert macf == rest[8 + len..40 + len];
    if p.hmac(auth, prev + lenBuf + m) != macf { ok := false; return; }
    mac := macf;
  }

  /** One turn of the loop of undel_load, with `n` records to go: the next message, behind the last one. */
  method LoadNext(p: Primitives, auth: Block, f: File, prev: Block, n: nat, head: Item?<bytes>, ghost nodes: seq<UMessage>,
                  last: Item?<bytes>)
    returns (u: Item?<bytes>, head': Item?<bytes>, mac: Block)
    requires f.pos <= |f.data| && n > 0 && Chained(head, nodes)
    requires last == if nodes == [] then null else nodes[|nodes| - 1]
    modifies f`pos, if last == null then {} else {last}`next
    ensures f.pos <= |f.data| || u == null
    ensures Onto(Data(nodes), ParseRecords(p, auth, prev, n, f.data[old(f.pos)..])) ==
      if u == null then None else Onto(Data(nodes + [u]), ParseRecords(p, auth, mac, n - 1, f.data[f.pos..]))
    ensures if u == null then Chained(head', nodes) else fresh(u) && Chained(head', nodes + [u])
  {
    hide ParseRecord, ParseRecords, Chained, Onto, Data;
    OntoStep(p, auth, prev, n, f.data[f.pos..], Data(nodes));
    var good: bool, m: bytes;
    good, m, mac := ReadRecord(p, auth, f, prev);
    if !good { return null, head, prev; }
    u := new Item(m);
    head' := LinkBehind(head, nodes, last, u);
    DataAppend(nodes, [u]);
    DataOne(u);
  }

  /** The loop of undel_load over the `mnum` records that follow the header. */
  method LoadRecords(p: Primitives, auth: Block, f: File, mnum: nat)
    returns (ok: bool, head: Item?<bytes>, ghost nodes: seq<UMessage>)
    requires f.pos <= |f.data|
    modifies f`pos
    ensures var r := ParseRecords(p, auth, INITIAL_MAC, mnum, f.data[old(f.pos)..]);
      ok == r.Some? && (ok ==> r == Some(Data(nodes)))
    ensures Chained(head, nodes) && fresh(nodes)
  {
    hide ParseRecord, ParseRecords, Chained, Onto, Data;
    ghost var target := ParseRecords(p, auth, INITIAL_MAC, mnum, f.data[f.pos..]);
    OntoNothing(target);
    head, nodes := null, [];
    NothingChained();
    var prev, last: Item?<bytes>, i := INITIAL_MAC, null, 0;
    while i < mnum
      invariant i <= mnum && f.pos <= |f.data|
      invariant target == Onto(Data(nodes), ParseRecords(p, auth, prev, mnum - i, f.data[f.pos..]))
      invariant Chained(head, nodes) && fresh(nodes)
      invariant last == if nodes == [] then null else nodes[|nodes| - 1]
    {
      var u: Item?<bytes>, mac: Block;
      u, head, mac := LoadNext(p, auth, f, prev, mnum - i, head, nodes, last);
      if u == null { ok := false; return; }
      nodes := nodes + [u];
      prev, last, i := mac, u, i + 1;
    }
    ParseNothing(p, auth, prev, f.data[f.pos..]);
    OntoNone(Data(nodes));
    ok := true;
  }

  lemma NothingChained()
    ensures Chained<bytes>(null, []) && Data<bytes>([]) == []
  {
  }

  /** undel_load: the stored messages in order, after which the file is started afresh; a file that is
      refused is left alone. */
  method LoadAndClear(p: Primitives, auth: Block, f: File)
    returns (ok: bool, head: Item?<bytes>, ghost nodes: seq<UMessage>)
    modifies f
    ensures ok == (Load(p, auth, old(f.data)).Some? && old(f.budget) > 0)
    ensures Load(p, auth, old(f.data)).None? ==> f.data == old(f.data)
    ensures Load(p, auth, old(f.data)).Some? ==>
      Load(p, auth, old(f.data)) == Some(Data(nodes)) && f.data == if ok then Canonical(p, auth, []) else []
    ensures Chained(head, nodes) && fresh(nodes)
  {
    hide ParseRecords, Canonical, De64;
    head, nodes, f.pos := null, [], 0;
    var prefix: bytes;
    ok, prefix := f.ReadItem(0x30);
    if !ok { return; }
    HeaderRead(p, auth, f.data, prefix);
    if p.hmac(auth, prefix[..0x10]) != prefix[0x10..] { ok := false; return; }
    ok, head, nodes := LoadRecords(p, auth, f, De64(prefix[8..0x10]));
    if !ok { return; }
    ok := InitFile(p, auth, f);
  }
}
