/** Where each byte of a conversation file stands and what it depends on, and that a record is bound to all
    records before it. */
module ConversationLayout {
  import opened Bytes
  import opened Crypto
  import opened LogHeader
  import opened Options
  import L = ConversationLog

  /** Where record `n` starts: each record has 0x50 bytes beside its text. */
  function At(es: seq<L.Entry>, n: nat): (o: nat)
    requires n <= |es|
    ensures o >= 0x30
  {
    if n == 0 then 0x30 else At(es, n - 1) + 0x50 + |es[n - 1].text|
  }

  predicate Fits(file: bytes, es: seq<L.Entry>, n: nat)
    requires n < |es|
  {
    At(es, n) + 0x50 + |es[n].text| <= |file|
  }

  function RecordBytes(file: bytes, es: seq<L.Entry>, n: nat): (r: bytes)
    requires n < |es| && Fits(file, es, n)
    ensures |r| == 0x50 + |es[n].text|
  {
    file[At(es, n)..At(es, n) + 0x50 + |es[n].text|]
  }

  /** The 32 bytes before a record, which are the last MAC of the record before it; the first record has the bytes 0 to
      31 instead. */
  function Before(file: bytes, es: seq<L.Entry>, n: nat): (b: Block)
    requires n <= |es| && At(es, n) <= |file|
  {
    if n == 0 then Counting(32) else file[At(es, n) - 32..At(es, n)]
  }

  /** The bytes `r` of a record: its number is the nonce, the prefix is the length of the text and the sender, and the
      keystream goes on with the text.  One MAC covers what is before the record and the prefix, the other one
      everything before it in the record. */
  predicate Reads(p: Primitives, k: Keys, before: bytes, i: nat, e: L.Entry, r: bytes)
    requires |r| == 0x50 + |e.text|
  {
    var len := |e.text|;
    && len < TWO64 && e.sender in {0, 1}
    && Stream(p, k.symm, Wrap64(i), 0, r[..0x10]) == Be64(len) + Be64(e.sender)
    && r[0x10..0x30] == p.hmac(k.hmac, before + r[..0x10])
    && Stream(p, k.symm, Wrap64(i), 0x10, r[0x30..0x30 + len]) == e.text
    && r[0x30 + len..] == p.hmac(k.hmac, r[..0x30 + len])
  }

  predicate RecordStands(p: Primitives, k: Keys, file: bytes, es: seq<L.Entry>, n: nat)
    requires n < |es| && Fits(file, es, n)
  {
    Reads(p, k, Before(file, es, n), n + 1, es[n], RecordBytes(file, es, n))
  }

  /** The header: the length of all and the number of records, and a MAC over both. */
  predicate HeaderStands(p: Primitives, k: Keys, file: bytes, es: seq<L.Entry>)
    requires |file| >= 0x30
  {
    && file[..8] == Be64(Wrap64(At(es, |es|))) && file[8..0x10] == Be64(Wrap64(|es|))
    && file[0x10..0x30] == p.hmac(k.hmac, file[..0x10])
  }

  ghost predicate Stands(p: Primitives, k: Keys, file: bytes, es: seq<L.Entry>) {
    && |es| < TWO64 && At(es, |es|) <= |file| && HeaderStands(p, k, file, es)
    && AllStand(p, k, file, es, |es|)
  }

  lemma {:induction false} AtOfFront(es: seq<L.Entry>, m: nat, n: nat)
    requires n <= m <= |es|
    ensures At(es[..m], n) == At(es, n)
    decreases n
  {
    if n > 0 {
      AtOfFront(es, m, n - 1);
    }
  }

  lemma {:induction false} AtIsLength(es: seq<L.Entry>)
    ensures At(es, |es|) == 0x30 + L.Length(es)
    decreases |es|
  {
    if es != [] {
      var n := |es| - 1;
      AtIsLength(es[..n]);
      AtOfFront(es, n, n);
      L.LengthMonotone(es[..n], es[n]);
      assert es == es[..n] + [es[n]];
    }
  }

  // ----- one record -----

  /** What reads as `e` after the MAC `prev` is the record of `e`. */
  lemma RecordIff(p: Primitives, k: Keys, prev: Block, i: nat, e: L.Entry, r: bytes)
    requires |r| == 0x50 + |e.text|
    ensures L.Loadable(e) && L.Record(p, k, prev, i, e) == r <==> Reads(p, k, prev, i, e, r)
  {
    if L.Loadable(e) {
      hide Stream, Be64, Wrap64;
      var len := |e.text|;
      L.Wrap64Identity(len);
      var a, b, c, d := r[..0x10], r[0x10..0x30], r[0x30..0x30 + len], r[0x30 + len..];
      var plain := Be64(len) + Be64(e.sender);
      StreamTwice(p, k.symm, Wrap64(i), 0, a);
      StreamTwice(p, k.symm, Wrap64(i), 0, plain);
      StreamTwice(p, k.symm, Wrap64(i), 0x10, c);
      StreamTwice(p, k.symm, Wrap64(i), 0x10, e.text);
      assert r[..0x30 + len] == a + b + c && r == a + b + c + d;
      FourEqual(L.Prefix(p, k, i, e), L.PrefixMac(p, k, prev, i, e), L.Cipher(p, k, i, e), L.EndMac(p, k, prev, i, e),
        a, b, c, d);
    }
  }

  lemma FourEqual(a: bytes, b: bytes, c: bytes, d: bytes, a': bytes, b': bytes, c': bytes, d': bytes)
    requires |a| == |a'| && |b| == |b'| && |c| == |c'|
    ensures a + b + c + d == a' + b' + c' + d' <==> a == a' && b == b' && c == c' && d == d'
  {
    if a + b + c + d == a' + b' + c' + d' {
      var s, t := a + b + c + d, a' + b' + c' + d';
      assert a == s[..|a|] == a' && b == s[|a|..|a| + |b|] == b' && c == s[|a| + |b|..|a| + |b| + |c|] == c';
      assert d == s[|a| + |b| + |c|..] == d';
    }
  }

  lemma LastIs(es: seq<L.Entry>)
    requires es != []
    ensures var n := |es| - 1;
      es == es[..n] + [es[n]] && At(es, |es|) == At(es[..n], n) + 0x50 + |es[n].text| && At(es, n) == At(es[..n], n)
  {
    AtOfFront(es, |es| - 1, |es| - 1);
  }

  lemma FrontStands(p: Primitives, k: Keys, file: bytes, es: seq<L.Entry>, m: nat, n: nat)
    requires n < m <= |es|
    ensures Fits(file, es[..m], n) == Fits(file, es, n)
    ensures Fits(file, es, n) ==> RecordStands(p, k, file, es[..m], n) == RecordStands(p, k, file, es, n)
  {
    hide Reads;
    AtOfFront(es, m, n);
  }

  /** What precedes record `n` in a file of records. */
  lemma MacBefore(p: Primitives, k: Keys, file: bytes, es: seq<L.Entry>)
    requires At(es, |es|) <= |file| && L.Records(p, k, INITIAL_MAC, 1, es) == file[0x30..At(es, |es|)]
    ensures L.LastMac(p, k, INITIAL_MAC, 1, es) == Before(file, es, |es|)
  {
    hide L.Record, L.EndMac;
    AtIsLength(es);
    if es != [] {
      L.RecordsEndWithLastMac(p, k, INITIAL_MAC, 1, es);
      var o := At(es, |es|);
      assert file[0x30..o][L.Length(es) - 32..] == file[o - 32..o];
    }
  }

  ghost predicate AllStand(p: Primitives, k: Keys, file: bytes, es: seq<L.Entry>, m: nat)
    requires m <= |es|
  {
    forall n | 0 <= n < m :: Fits(file, es, n) && RecordStands(p, k, file, es, n)
  }

  lemma FrontsStand(p: Primitives, k: Keys, file: bytes, es: seq<L.Entry>)
    requires es != []
    ensures var n := |es| - 1;
      AllStand(p, k, file, es, |es|) <==>
        AllStand(p, k, file, es[..n], n) && Fits(file, es, n) && RecordStands(p, k, file, es, n)
  {
    hide RecordStands;
    var n := |es| - 1;
    forall m | 0 <= m < n
      ensures Fits(file, es[..n], m) == Fits(file, es, m)
      ensures Fits(file, es, m) ==> RecordStands(p, k, file, es[..n], m) == RecordStands(p, k, file, es, m)
    {
      FrontStands(p, k, file, es, n, m);
    }
  }

  lemma LoadableLast(es: seq<L.Entry>)
    requires es != []
    ensures L.AllLoadable(es) <==> L.AllLoadable(es[..|es| - 1]) && L.Loadable(es[|es| - 1])
  {
    hide L.Loadable;
    assert es == es[..|es| - 1] + [es[|es| - 1]];
  }

  lemma LastBytes(file: bytes, es: seq<L.Entry>)
    requires es != [] && At(es, |es|) <= |file|
    ensures var n, o := |es| - 1, At(es, |es| - 1);
      o <= |file| && o <= At(es, |es|) && Fits(file, es, n) && RecordBytes(file, es, n) == file[o..At(es, |es|)]
  {
  }

  lemma LastRecordStands(p: Primitives, k: Keys, file: bytes, es: seq<L.Entry>, mac: Block)
    requires es != [] && At(es, |es|) <= |file|
    ensures At(es, |es| - 1) <= |file| && At(es, |es| - 1) <= At(es, |es|) && Fits(file, es, |es| - 1)
    ensures var n, o := |es| - 1, At(es, |es| - 1);
      mac == Before(file, es, n) ==> (RecordStands(p, k, file, es, n) <==>
        L.Loadable(es[n]) && L.Record(p, k, mac, n + 1, es[n]) == file[o..At(es, |es|)])
  {
    hide L.Record, L.Loadable, Reads, At, Fits, RecordBytes, Before;
    var n := |es| - 1;
    LastBytes(file, es);
    RecordIff(p, k, mac, n + 1, es[n], RecordBytes(file, es, n));
  }

  lemma {:induction false} RecordsIff(p: Primitives, k: Keys, file: bytes, es: seq<L.Entry>)
    requires At(es, |es|) <= |file|
    ensures L.AllLoadable(es) && L.Records(p, k, INITIAL_MAC, 1, es) == file[0x30..At(es, |es|)] <==>
      AllStand(p, k, file, es, |es|)
    decreases |es|
  {
    hide L.Record, L.Records, L.EndMac, L.LastMac, RecordStands, Fits, L.Loadable, L.AllLoadable, AllStand;
    if es == [] {
      NothingStands(p, k, file);
    } else {
      var n := |es| - 1;
      var front, o := es[..n], At(es, n);
      LastIs(es);
      AtIsLength(front);
      RecordsIff(p, k, file, front);
      L.RecordsSnoc(p, k, INITIAL_MAC, 1, front, es[n]);
      FrontsStand(p, k, file, es);
      LoadableLast(es);
      var mac := L.LastMac(p, k, INITIAL_MAC, 1, front);
      SplitOff(file, L.Records(p, k, INITIAL_MAC, 1, front), L.Record(p, k, mac, n + 1, es[n]), o, At(es, |es|));
      if L.Records(p, k, INITIAL_MAC, 1, front) == file[0x30..o] {
        MacBefore(p, k, file, front);
        LastRecordStands(p, k, file, es, mac);
      }
    }
  }

  lemma NothingStands(p: Primitives, k: Keys, file: bytes)
    requires |file| >= 0x30
    ensures L.AllLoadable([]) && L.Records(p, k, INITIAL_MAC, 1, []) == file[0x30..0x30] && AllStand(p, k, file, [], 0)
  {
  }

  /** The loader accepts a file as `es` exactly when every byte of it, up to the length of `es`, is what the format
      says. */
  lemma LoadIffStands(p: Primitives, k: Keys, file: bytes, es: seq<L.Entry>)
    ensures L.Load(p, k, file) == Some(es) <==> Stands(p, k, file, es)
  {
    hide L.Load, L.Records, L.AllLoadable, AllStand, Header, L.Length, Wrap64, Be64;
    L.LoadIffCanonical(p, k, file, es);
    AtIsLength(es);
    if At(es, |es|) <= |file| {
      HeaderIs(p, k.hmac, Wrap64(At(es, |es|)), Wrap64(|es|), file);
      RecordsIff(p, k, file, es);
      var end := At(es, |es|);
      var h, rs := Header(p, k.hmac, Wrap64(end), Wrap64(|es|)), L.Records(p, k, INITIAL_MAC, 1, es);
      assert L.Canonical(p, k, es) == h + rs;
      HeadAndRest(file, h, rs, end);
    }
  }

  // ----- records are bound to what is before them -----

  /** What the two MACs of a record cover. */
  function HeadInput(file: bytes, es: seq<L.Entry>, n: nat): bytes
    requires n < |es| && Fits(file, es, n)
  {
    Before(file, es, n) + RecordBytes(file, es, n)[..0x10]
  }

  function WholeInput(file: bytes, es: seq<L.Entry>, n: nat): bytes
    requires n < |es| && Fits(file, es, n)
  {
    RecordBytes(file, es, n)[..0x30 + |es[n].text|]
  }

  /** Two different texts that the loader checked a MAC of in these files, and that have one MAC. */
  ghost predicate MacsClash(p: Primitives, k: Keys, f: bytes, es: seq<L.Entry>, f': bytes, es': seq<L.Entry>, n: nat)
    requires n < |es| && n < |es'| && Fits(f, es, n) && Fits(f', es', n)
  {
    || (HeadInput(f, es, n) != HeadInput(f', es', n)
        && p.hmac(k.hmac, HeadInput(f, es, n)) == p.hmac(k.hmac, HeadInput(f', es', n)))
    || (WholeInput(f, es, n) != WholeInput(f', es', n)
        && p.hmac(k.hmac, WholeInput(f, es, n)) == p.hmac(k.hmac, WholeInput(f', es', n)))
  }

  /** Two accepted files with the same bytes in record `n` hold the same messages up to there, or two different texts
      that were checked in them, in one record up to there, have the same MAC. */
  lemma {:induction false} SameRecordSameHistory(p: Primitives, k: Keys, f: bytes, es: seq<L.Entry>, f': bytes,
          es': seq<L.Entry>, n: nat)
    requires Stands(p, k, f, es) && Stands(p, k, f', es') && n < |es| && n < |es'|
    requires RecordBytes(f, es, n) == RecordBytes(f', es', n)
    ensures es[..n + 1] == es'[..n + 1] || exists m :: 0 <= m <= n && MacsClash(p, k, f, es, f', es', m)
    decreases n
  {
    hide Reads, MacsClash, HeaderStands, Before, RecordBytes;
    assert Fits(f, es, n) && RecordStands(p, k, f, es, n) && Fits(f', es', n) && RecordStands(p, k, f', es', n);
    SameBytesSameEntry(p, k, Before(f, es, n), Before(f', es', n), n + 1, es[n], es'[n], RecordBytes(f, es, n));
    if !MacsClash(p, k, f, es, f', es', n) {
      HeadsAgree(p, k, f, es, f', es', n);
      if n > 0 {
        RecordBefore(p, k, f, es, n - 1);
        RecordBefore(p, k, f', es', n - 1);
        if !MacsClash(p, k, f, es, f', es', n - 1) {
          WholesAgree(p, k, f, es, f', es', n - 1);
          SameRecordSameHistory(p, k, f, es, f', es', n - 1);
        }
      }
      if es[..n] == es'[..n] {
        assert es[..n + 1] == es[..n] + [es[n]] && es'[..n + 1] == es'[..n] + [es'[n]];
      }
    }
  }

  lemma SameBytesSameEntry(p: Primitives, k: Keys, before: bytes, before': bytes, i: nat, e: L.Entry, e': L.Entry, r: bytes)
    requires |r| == 0x50 + |e.text| == 0x50 + |e'.text|
    requires Reads(p, k, before, i, e, r) && Reads(p, k, before', i, e', r)
    ensures e == e'
  {
    hide Stream, Wrap64, Be64;
    SameWords(|e.text|, e.sender, |e'.text|, e'.sender);
  }

  lemma SameWords(a: uint64, b: uint64, c: uint64, d: uint64)
    ensures Be64(a) + Be64(b) == Be64(c) + Be64(d) ==> a == c && b == d
  {
    hide Be64, De64;
    if Be64(a) + Be64(b) == Be64(c) + Be64(d) {
      var s, t := Be64(a) + Be64(b), Be64(c) + Be64(d);
      assert Be64(a) == s[..8] == t[..8] == Be64(c) && Be64(b) == s[8..] == t[8..] == Be64(d);
      DeBe64(a);
      DeBe64(b);
      DeBe64(c);
      DeBe64(d);
    }
  }

  /** Without a clash the same MAC of the prefix means the same bytes before the record. */
  lemma HeadsAgree(p: Primitives, k: Keys, f: bytes, es: seq<L.Entry>, f': bytes, es': seq<L.Entry>, n: nat)
    requires n < |es| && n < |es'| && Fits(f, es, n) && Fits(f', es', n)
    requires RecordStands(p, k, f, es, n) && RecordStands(p, k, f', es', n)
    requires RecordBytes(f, es, n) == RecordBytes(f', es', n) && !MacsClash(p, k, f, es, f', es', n)
    ensures Before(f, es, n) == Before(f', es', n)
  {
    hide Stream, Wrap64, Be64, Before, RecordBytes;
    var x, y := HeadInput(f, es, n), HeadInput(f', es', n);
    assert x == y;
    assert x[..32] == Before(f, es, n) && y[..32] == Before(f', es', n);
  }

  /** The bytes before a record are the last MAC of the record before it. */
  lemma RecordBefore(p: Primitives, k: Keys, f: bytes, es: seq<L.Entry>, n: nat)
    requires n + 1 < |es| && Fits(f, es, n) && RecordStands(p, k, f, es, n)
    ensures At(es, n + 1) <= |f| && Before(f, es, n + 1) == p.hmac(k.hmac, WholeInput(f, es, n))
  {
    hide Stream, Wrap64, Be64;
    var r, o := RecordBytes(f, es, n), At(es, n);
    assert r[0x30 + |es[n].text|..] == f[At(es, n + 1) - 32..At(es, n + 1)];
  }

  lemma WholesAgree(p: Primitives, k: Keys, f: bytes, es: seq<L.Entry>, f': bytes, es': seq<L.Entry>, n: nat)
    requires n < |es| && n < |es'| && Fits(f, es, n) && Fits(f', es', n)
    requires RecordStands(p, k, f, es, n) && RecordStands(p, k, f', es', n)
    requires p.hmac(k.hmac, WholeInput(f, es, n)) == p.hmac(k.hmac, WholeInput(f', es', n))
    requires !MacsClash(p, k, f, es, f', es', n)
    ensures RecordBytes(f, es, n) == RecordBytes(f', es', n)
  {
    hide Stream, Wrap64, Be64, Before, RecordBytes;
    var x, y := WholeInput(f, es, n), WholeInput(f', es', n);
    assert x == y && |es[n].text| == |es'[n].text|;
    assert RecordBytes(f, es, n) == x + p.hmac(k.hmac, x) && RecordBytes(f', es', n) == y + p.hmac(k.hmac, y);
  }

  /** And so for the loader: the messages of two files that it accepts agree up to a record whose bytes agree, or a
      clash of two MACs is at hand. */
  lemma LoadedHistories(p: Primitives, k: Keys, f: bytes, f': bytes, n: nat)
    requires L.Load(p, k, f).Some? && L.Load(p, k, f').Some?
    requires n < |L.Load(p, k, f).value| && n < |L.Load(p, k, f').value|
    ensures var es, es' := L.Load(p, k, f).value, L.Load(p, k, f').value;
      && (forall m | 0 <= m <= n :: Fits(f, es, m) && Fits(f', es', m))
      && (RecordBytes(f, es, n) == RecordBytes(f', es', n) ==>
            es[..n + 1] == es'[..n + 1] || exists m :: 0 <= m <= n && MacsClash(p, k, f, es, f', es', m))
  {
    hide L.Load, RecordStands, HeaderStands, MacsClash;
    var es, es' := L.Load(p, k, f).value, L.Load(p, k, f').value;
    LoadIffStands(p, k, f, es);
    LoadIffStands(p, k, f', es');
    if RecordBytes(f, es, n) == RecordBytes(f', es', n) {
      SameRecordSameHistory(p, k, f, es, f', es', n);
    }
  }

  /** One record: bytes that are accepted after two different MACs have the same MAC under both. */
  lemma BoundToPredecessor(p: Primitives, k: Keys, prev: Block, prev': Block, i: nat, rest: bytes)
    requires L.ParseRecord(p, k, prev, i, rest).Some? && L.ParseRecord(p, k, prev', i, rest).Some?
    ensures var x, y := prev + rest[..0x10], prev' + rest[..0x10];
      p.hmac(k.hmac, x) == p.hmac(k.hmac, y) && (prev != prev' ==> x != y)
  {
    hide Stream, Wrap64, De64;
    if prev != prev' {
      assert (prev + rest[..0x10])[..32] == prev && (prev' + rest[..0x10])[..32] == prev';
    }
  }
}
