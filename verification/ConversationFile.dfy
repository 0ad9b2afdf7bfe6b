/** The operations on a conversation file, as the client runs them on an open stream. */
module ConversationFile {
  import opened Bytes
  import opened Crypto
  import opened Files
  import opened LogHeader
  import opened Options
  import opened ConversationLog

  class CMessage {
    const sender: uint64
    const text: bytes
    var next: CMessage?
    var prev: CMessage?

    constructor (sender: uint64, text: bytes)
      ensures this.sender == sender && this.text == text && next == null && prev == null
    {
      this.sender, this.text := sender, text;
      next, prev := null, null;
    }
  }

  function Texts(nodes: seq<CMessage>): (r: seq<Entry>)
    ensures |r| == |nodes|
  {
    seq(|nodes|, i requires 0 <= i < |nodes| => Entry(nodes[i].sender, nodes[i].text))
  }

  /** `nodes` is a doubly linked list: `next` and `prev` are mutually inverse and end in NULL. */
  ghost predicate Linked(nodes: seq<CMessage>)
    reads nodes
  {
    && (forall i, j | 0 <= i < j < |nodes| :: nodes[i] != nodes[j])
    && (forall i {:trigger nodes[i].next} | 0 <= i < |nodes| :: nodes[i].next == (if i + 1 < |nodes| then nodes[i + 1] else null))
    && (forall i {:trigger nodes[i].prev} | 0 <= i < |nodes| :: nodes[i].prev == (if i > 0 then nodes[i - 1] else null))
  }

  /** cfile_init: opening for writing empties the file even when the write then fails. */
  method Init(p: Primitives, k: Keys, f: File) returns (ok: bool)
    modifies f
    ensures ok == (old(f.budget) > 0)
    ensures f.data == if ok then Canonical(p, k, []) else []
  {
    hide Overwrite, Header, Canonical;
    CanonicalEmpty(p, k);
    OverwriteNothing(Header(p, k.hmac, 0x30, 0));
    f.data, f.pos := [], 0;
    ok := f.Write(Header(p, k.hmac, 0x30, 0));
  }

  /** cfile_add: every write that its budget allows is done, in order, and success means all five. */
  method Add(p: Primitives, k: Keys, f: File, sender: uint64, text: bytes) returns (ok: bool)
    requires |text| < TWO64
    modifies f
    ensures var st := AddStages(p, k, old(f.data), AsWritten(Entry(sender, text)));
      && f.data == st[Min(|st| - 1, old(f.budget))]
      && ok == (|st| == 6 && old(f.budget) >= 5)
  {
    hide AddStages, CStr, De64, Authentic, FileLength, RecordCount;
    ghost var e := AsWritten(Entry(sender, text));
    NotAuthentic(p, k, f.data, e);
    f.pos := 0;
    var got, buf := f.Read(0x30);
    if !got { return false; }
    HeaderRead(p, k.hmac, f.data, buf);
    if p.hmac(k.hmac, buf[..0x10]) != buf[0x10..] { return false; }
    ok := Append(p, k, f, De64(buf[..8]), De64(buf[8..0x10]), Entry(sender, CStr(text)));
  }

  lemma NotAuthentic(p: Primitives, k: Keys, data: bytes, e: Entry)
    ensures !Authentic(p, k.hmac, data) ==> AddStages(p, k, data, e) == [data]
  {
    hide RecordStages, Header, Authentic, Overwrite;
  }

  /** cfile_add once the header is authenticated: the new header, and the record where the old end was. */
  method Append(p: Primitives, k: Keys, f: File, flen: uint64, mnum: uint64, e: Entry) returns (ok: bool)
    requires Authentic(p, k.hmac, f.data) && FileLength(f.data) == flen && RecordCount(f.data) == mnum
    requires |e.text| < TWO64
    modifies f
    ensures var st := AddStages(p, k, old(f.data), e);
      && f.data == st[Min(|st| - 1, old(f.budget))]
      && ok == (|st| == 6 && old(f.budget) >= 5)
  {
    hide Overwrite, RecordStages, Header, Wrap64, Authentic, FileLength, RecordCount;
    var length: int, count: int := flen, mnum;
    var _ := f.Seek(0);
    var written := f.Write(Header(p, k.hmac, Wrap64(length + 0x50 + |e.text|), Wrap64(count + 1)));
    if !written { return false; }
    var sought := f.Seek(Wrap64(length - 32));
    if !sought { return false; }
    var got, buf := f.Read(0x20);
    if !got { return false; }
    var prev: Block := if mnum == 0 then INITIAL_MAC else buf;
    ok := WriteRecord(p, k, f, prev, count + 1, e);
  }

  /** The second half of cfile_add: the four writes of a record at the current position. */
  method WriteRecord(p: Primitives, k: Keys, f: File, prev: Block, i: nat, e: Entry) returns (ok: bool)
    requires |e.text| < TWO64
    modifies f
    ensures f.data == RecordStages(p, k, old(f.data), old(f.pos), prev, i, e)[Min(4, old(f.budget))]
    ensures ok == (old(f.budget) >= 4)
  {
    hide Overwrite, Stream, Wrap64;
    var prefix := Stream(p, k.symm, Wrap64(i), 0, Be64(|e.text|) + Be64(e.sender));
    var mac := p.hmac(k.hmac, prev + prefix);
    var written := f.Write(prefix);
    if !written { return false; }
    written := f.Write(mac);
    if !written { return false; }
    var encm := Stream(p, k.symm, Wrap64(i), 0x10, e.text);
    written := f.Write(encm);
    if !written { return false; }
    mac := p.hmac(k.hmac, prefix + mac + encm);
    ok := f.Write(mac);
  }

  /** The first half of a turn of the loop of cfile_load: the prefix and its MAC. */
  method ReadPrefix(p: Primitives, k: Keys, f: File, prev: Block, i: nat)
    returns (ok: bool, mlen: uint64, sender: uint64, read: bytes)
    requires f.pos <= |f.data|
    modifies f`pos
    ensures var rest := f.data[old(f.pos)..];
      && ParsePrefix(p, k, prev, i, rest) == (if ok then Some((mlen, sender)) else None)
      && (ok ==> f.pos == old(f.pos) + 0x30 && read == rest[..0x30])
  {
    hide Stream, Wrap64, De64;
    mlen, sender, read := 0, 0, [];
    ghost var rest := f.data[f.pos..];
    var enc, macf: bytes;
    ok, enc := f.Read(0x10);
    if !ok { return; }
    ok, macf := f.Read(0x20);
    if !ok { return; }
    assert enc == rest[..0x10] && macf == rest[0x10..0x30];
    if p.hmac(k.hmac, prev + enc) != macf { ok := false; return; }
    var plain := Stream(p, k.symm, Wrap64(i), 0, enc);
    mlen, sender, read := De64(plain[..8]), De64(plain[8..]), enc + macf;
    ok := sender == 0 || sender == 1;
  }

  /** The second half: the text and the MAC over the whole record, of which `read` was read before. */
  method ReadText(p: Primitives, k: Keys, f: File, i: nat, mlen: uint64, read: bytes, ghost rest: bytes)
    returns (ok: bool, text: bytes, mac: Block)
    requires |rest| >= 0x30 && read == rest[..0x30] && 0x30 <= f.pos <= |f.data| && rest == f.data[f.pos - 0x30..]
    modifies f`pos
    ensures ParseText(p, k, i, mlen, rest) == (if ok then Some(text) else None)
    ensures ok ==> f.pos == old(f.pos) + 0x20 + mlen && mac == rest[0x30 + mlen..0x50 + mlen]
  {
    hide Stream, Wrap64;
    text, mac := [], INITIAL_MAC;
    var enc, macf: bytes;
    ok, enc := f.Read(mlen);
    if !ok { return; }
    ok, macf := f.Read(0x20);
    if !ok { return; }
    assert enc == rest[0x30..0x30 + mlen] && macf == rest[0x30 + mlen..0x50 + mlen];
    assert read + enc == rest[..0x30 + mlen];
    if macf != p.hmac(k.hmac, read + enc) { ok := false; return; }
    text, mac := Stream(p, k.symm, Wrap64(i), 0x10, enc), macf;
  }

  /** One turn of the loop of cfile_load. */
  method ReadRecord(p: Primitives, k: Keys, f: File, prev: Block, i: nat) returns (ok: bool, e: Entry, mac: Block)
    requires f.pos <= |f.data|
    modifies f`pos
    ensures var rest := f.data[old(f.pos)..]; var r, used := ParseRecord(p, k, prev, i, rest), 0x50 + |e.text|;
      && ok == r.Some?
      && (ok ==> r == Some(e) && f.pos == old(f.pos) + used <= |f.data|)
      && (ok ==> mac == rest[used - 32..used] && f.data[f.pos..] == rest[used..])
  {
    hide ParsePrefix, ParseText;
    e, mac := Entry(0, []), prev;
    ghost var rest := f.data[f.pos..];
    var mlen, sender: uint64, read, text: bytes;
    ok, mlen, sender, read := ReadPrefix(p, k, f, prev, i);
    if !ok { return; }
    ok, text, mac := ReadText(p, k, f, i, mlen, read, rest);
    e := Entry(sender, text);
  }

  /** The links set when a message is put behind the last one of a list. */
  method Link(ghost nodes: seq<CMessage>, last: CMessage?, m: CMessage)
    requires Linked(nodes) && m !in nodes && m.next == null
    requires last == if nodes == [] then null else nodes[|nodes| - 1]
    modifies m`prev, if last == null then {} else {last}`next
    ensures Linked(nodes + [m])
  {
    m.prev := last;
    if last != null {
      last.next := m;
    }
  }

  /** One turn of the loop of cfile_load, with `n` records to go: the next message, linked to the list. */
  method LoadNext(p: Primitives, k: Keys, f: File, prev: Block, i: nat, n: nat, ghost nodes: seq<CMessage>,
                  last: CMessage?, length: uint64)
    returns (m: CMessage?, mac: Block, length': uint64)
    requires f.pos <= |f.data| && n > 0 && Linked(nodes) && length == Wrap64(0x30 + Length(Texts(nodes)))
    requires last == if nodes == [] then null else nodes[|nodes| - 1]
    modifies f`pos, if last == null then {} else {last}`next
    ensures f.pos <= |f.data| || m == null
    ensures Onto(Texts(nodes), ParseRecords(p, k, prev, i, n, f.data[old(f.pos)..])) ==
      if m == null then None else Onto(Texts(nodes + [m]), ParseRecords(p, k, mac, i + 1, n - 1, f.data[f.pos..]))
    ensures if m == null then Linked(nodes) else fresh(m) && Linked(nodes + [m])
    ensures m != null ==> length' == Wrap64(0x30 + Length(Texts(nodes + [m])))
  {
    hide ParseRecord, ParseRecords, Wrap64, Length, Onto, Texts, Linked;
    OntoStep(p, k, prev, i, n, f.data[f.pos..], Texts(nodes));
    var good: bool, e: Entry;
    good, e, mac := ReadRecord(p, k, f, prev, i);
    if !good { return null, prev, length; }
    m := new CMessage(e.sender, e.text);
    Link(nodes, last, m);
    LengthMonotone(Texts(nodes), e);
    WrapSum(0x30 + Length(Texts(nodes)), 0x50 + |e.text|);
    TextsSnoc(nodes, m);
    length' := Wrap64(length + 0x50 + |e.text|);
  }

  lemma TextsSnoc(nodes: seq<CMessage>, m: CMessage)
    ensures Texts(nodes + [m]) == Texts(nodes) + [Entry(m.sender, m.text)]
  {
  }

  /** The loop of cfile_load over the `mnum` records that follow the header. */
  method LoadRecords(p: Primitives, k: Keys, f: File, mnum: nat)
    returns (ok: bool, head: CMessage?, length: uint64, ghost nodes: seq<CMessage>)
    requires f.pos <= |f.data|
    modifies f`pos
    ensures var r := ParseRecords(p, k, INITIAL_MAC, 1, mnum, f.data[old(f.pos)..]);
      ok == r.Some? && (ok ==> r == Some(Texts(nodes)))
    ensures Linked(nodes) && fresh(nodes) && head == if nodes == [] then null else nodes[0]
    ensures ok ==> length == Wrap64(0x30 + Length(Texts(nodes)))
  {
    hide ParseRecord, ParseRecords, Wrap64, Length, Onto, Texts, Linked;
    ghost var target := ParseRecords(p, k, INITIAL_MAC, 1, mnum, f.data[f.pos..]);
    NothingLinked();
    OntoNothing(target);
    head, length, nodes := null, 0x30, [];
    var prev, last: CMessage?, i := INITIAL_MAC, null, 1;
    while i <= mnum
      invariant 1 <= i <= mnum + 1 && f.pos <= |f.data|
      invariant target == Onto(Texts(nodes), ParseRecords(p, k, prev, i, mnum + 1 - i, f.data[f.pos..]))
      invariant Linked(nodes) && fresh(nodes)
      invariant head == if nodes == [] then null else nodes[0]
      invariant last == if nodes == [] then null else nodes[|nodes| - 1]
      invariant length == Wrap64(0x30 + Length(Texts(nodes)))
    {
      var m: CMessage?, mac: Block;
      m, mac, length := LoadNext(p, k, f, prev, i, mnum + 1 - i, nodes, last, length);
      if m == null { ok := false; return; }
      if last == null {
        head := m;
      }
      nodes := nodes + [m];
      prev, last, i := mac, m, i + 1;
    }
    ParseNothing(p, k, prev, i, f.data[f.pos..]);
    OntoNone(Texts(nodes));
    ok := true;
  }

  lemma NothingLinked()
    ensures Linked([]) && Texts([]) == [] && Wrap64(0x30 + Length([])) == 0x30
  {
  }

  /** cfile_load: the messages come back as a well-formed doubly linked list of what Load computes. */
  method LoadList(p: Primitives, k: Keys, f: File) returns (ok: bool, head: CMessage?, ghost nodes: seq<CMessage>)
    modifies f`pos
    ensures ok == Load(p, k, f.data).Some?
    ensures ok ==> Load(p, k, f.data) == Some(Texts(nodes)) && Linked(nodes)
    ensures head == if nodes == [] then null else nodes[0]
    ensures fresh(nodes)
  {
    hide ParseRecords, Wrap64, Length, Texts;
    head, nodes, f.pos := null, [], 0;
    var buf: bytes, length: uint64;
    ok, buf := f.Read(0x30);
    if !ok { return; }
    HeaderRead(p, k.hmac, f.data, buf);
    if p.hmac(k.hmac, buf[..0x10]) != buf[0x10..] { ok := false; return; }
    ok, head, length, nodes := LoadRecords(p, k, f, De64(buf[8..0x10]));
    if !ok || length != De64(buf[..8]) {
      return false, null, [];
    }
  }

  lemma WrapSum(a: nat, b: nat)
    ensures Wrap64(Wrap64(a) + b) == Wrap64(a + b)
  {
  }
}
