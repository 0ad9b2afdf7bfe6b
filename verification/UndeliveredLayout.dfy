/** Where each byte of an undelivered file stands and what it depends on, and that a record is bound to all
    records before it. */
module UndeliveredLayout {
  import opened Bytes
  import opened Crypto
  import opened LogHeader
  import opened Options
  import L = UndeliveredLog

  /** Where record `n` starts: each record has 40 bytes beside its message. */
  function At(ms: L.Messages, n: nat): (o: nat)
    requires n <= |ms|
    ensures o >= 0x30
  {
    if n == 0 then 0x30 else At(ms, n - 1) + 40 + |ms[n - 1]|
  }

  predicate Fits(file: bytes, ms: L.Messages, n: nat)
    requires n < |ms|
  {
    At(ms, n) + 40 + |ms[n]| <= |file|
  }

  function RecordBytes(file: bytes, ms: L.Messages, n: nat): (r: bytes)
    requires n < |ms| && Fits(file, ms, n)
    ensures |r| == 40 + |ms[n]|
  {
    file[At(ms, n)..At(ms, n) + 40 + |ms[n]|]
  }

  /** The 32 bytes before a record, which are the MAC of the record before it; the first record has the bytes 0 to 31
      instead. */
  function Before(file: bytes, ms: L.Messages, n: nat): (b: Block)
    requires n <= |ms| && At(ms, n) <= |file|
  {
    if n == 0 then Counting(32) else file[At(ms, n) - 32..At(ms, n)]
  }

  /** The bytes `r` of a record: the length, the message, and a MAC over what is before the record and both. */
  predicate Reads(p: Primitives, auth: Block, before: bytes, m: bytes, r: bytes)
    requires |r| == 40 + |m|
  {
    && 0 < |m| < TWO64
    && r[..8] == Be64(|m|) && r[8..8 + |m|] == m
    && r[8 + |m|..] == p.hmac(auth, before + r[..8 + |m|])
  }

  predicate RecordStands(p: Primitives, auth: Block, file: bytes, ms: L.Messages, n: nat)
    requires n < |ms| && Fits(file, ms, n)
  {
    Reads(p, auth, Before(file, ms, n), ms[n], RecordBytes(file, ms, n))
  }

  ghost predicate AllStand(p: Primitives, auth: Block, file: bytes, ms: L.Messages, m: nat)
    requires m <= |ms|
  {
    forall n | 0 <= n < m :: Fits(file, ms, n) && RecordStands(p, auth, file, ms, n)
  }

  /** A length, which the loader does not look at, the number of records, a MAC over both, and the records. */
  ghost predicate Stands(p: Primitives, auth: Block, file: bytes, ms: L.Messages) {
    && |ms| < TWO64 && At(ms, |ms|) <= |file|
    && file[8..0x10] == Be64(|ms|) && file[0x10..0x30] == p.hmac(auth, file[..0x10])
    && AllStand(p, auth, file, ms, |ms|)
  }

  // ----- one record -----

  /** What reads as `m` after the MAC `prev` is the record of `m`. */
  lemma RecordIff(p: Primitives, auth: Block, prev: Block, m: bytes, r: bytes)
    requires |r| == 40 + |m|
    ensures L.Storable(m) && L.Record(p, auth, prev, m) == r <==> Reads(p, auth, prev, m, r)
  {
    if L.Storable(m) {
      hide Be64;
      var n := |m|;
      var l, mac := Be64(n), p.hmac(auth, prev + Be64(n) + m);
      var w := l + m + mac;
      assert w[..8] == l && w[8..8 + n] == m && w[8 + n..] == mac && w[..8 + n] == l + m;
      assert r == r[..8] + r[8..8 + n] + r[8 + n..] && r[..8 + n] == r[..8] + r[8..8 + n];
      assert prev + l + m == prev + (l + m);
      if Reads(p, auth, prev, m, r) {
        assert r[..8 + n] == l + m;
      }
    }
  }

  lemma {:induction false} AtOfFront(ms: L.Messages, m: nat, n: nat)
    requires n <= m <= |ms|
    ensures At(ms[..m], n) == At(ms, n)
    decreases n
  {
    if n > 0 {
      AtOfFront(ms, m, n - 1);
    }
  }

  lemma {:induction false} AtIsLength(ms: L.Messages)
    ensures At(ms, |ms|) == 0x30 + L.Length(ms)
    decreases |ms|
  {
    if ms != [] {
      var n := |ms| - 1;
      AtIsLength(ms[..n]);
      AtOfFront(ms, n, n);
      LengthSnoc(ms[..n], ms[n]);
      assert ms == ms[..n] + [ms[n]];
    }
  }

  lemma {:induction false} LengthSnoc(ms: L.Messages, m: bytes)
    ensures L.Length(ms + [m]) == L.Length(ms) + 40 + |m|
    decreases |ms|
  {
    if ms == [] {
      assert (ms + [m])[1..] == [];
    } else {
      LengthSnoc(ms[1..], m);
      assert (ms + [m])[1..] == ms[1..] + [m];
    }
  }

  lemma LastIs(ms: L.Messages)
    requires ms != []
    ensures var n := |ms| - 1;
      ms == ms[..n] + [ms[n]] && At(ms, |ms|) == At(ms[..n], n) + 40 + |ms[n]| && At(ms, n) == At(ms[..n], n)
  {
    AtOfFront(ms, |ms| - 1, |ms| - 1);
  }

  lemma FrontStands(p: Primitives, auth: Block, file: bytes, ms: L.Messages, m: nat, n: nat)
    requires n < m <= |ms|
    ensures Fits(file, ms[..m], n) == Fits(file, ms, n)
    ensures Fits(file, ms, n) ==> RecordStands(p, auth, file, ms[..m], n) == RecordStands(p, auth, file, ms, n)
  {
    hide Reads;
    AtOfFront(ms, m, n);
  }

  lemma FrontsStand(p: Primitives, auth: Block, file: bytes, ms: L.Messages)
    requires ms != []
    ensures var n := |ms| - 1;
      AllStand(p, auth, file, ms, |ms|) <==>
        AllStand(p, auth, file, ms[..n], n) && Fits(file, ms, n) && RecordStands(p, auth, file, ms, n)
  {
    hide RecordStands;
    var n := |ms| - 1;
    forall m | 0 <= m < n
      ensures Fits(file, ms[..n], m) == Fits(file, ms, m)
      ensures Fits(file, ms, m) ==> RecordStands(p, auth, file, ms[..n], m) == RecordStands(p, auth, file, ms, m)
    {
      FrontStands(p, auth, file, ms, n, m);
    }
  }

  lemma StorableLast(ms: L.Messages)
    requires ms != []
    ensures L.AllStorable(ms) <==> L.AllStorable(ms[..|ms| - 1]) && L.Storable(ms[|ms| - 1])
  {
    hide L.Storable;
    assert ms == ms[..|ms| - 1] + [ms[|ms| - 1]];
  }

  lemma MacBefore(p: Primitives, auth: Block, file: bytes, ms: L.Messages)
    requires At(ms, |ms|) <= |file| && L.Records(p, auth, INITIAL_MAC, ms) == file[0x30..At(ms, |ms|)]
    ensures L.LastMac(p, auth, INITIAL_MAC, ms) == Before(file, ms, |ms|)
  {
    hide L.Record, L.Mac;
    AtIsLength(ms);
    if ms != [] {
      L.RecordsEndWithLastMac(p, auth, INITIAL_MAC, ms);
      var o := At(ms, |ms|);
      assert file[0x30..o][L.Length(ms) - 32..] == file[o - 32..o];
    }
  }

  lemma LastBytes(file: bytes, ms: L.Messages)
    requires ms != [] && At(ms, |ms|) <= |file|
    ensures var n, o := |ms| - 1, At(ms, |ms| - 1);
      o <= |file| && o <= At(ms, |ms|) && Fits(file, ms, n) && RecordBytes(file, ms, n) == file[o..At(ms, |ms|)]
  {
  }

  lemma LastRecordStands(p: Primitives, auth: Block, file: bytes, ms: L.Messages, mac: Block)
    requires ms != [] && At(ms, |ms|) <= |file|
    ensures At(ms, |ms| - 1) <= |file| && At(ms, |ms| - 1) <= At(ms, |ms|) && Fits(file, ms, |ms| - 1)
    ensures var n, o := |ms| - 1, At(ms, |ms| - 1);
      mac == Before(file, ms, n) ==> (RecordStands(p, auth, file, ms, n) <==>
        L.Storable(ms[n]) && L.Record(p, auth, mac, ms[n]) == file[o..At(ms, |ms|)])
  {
    hide L.Record, L.Storable, Reads, At, Fits, RecordBytes, Before;
    var n := |ms| - 1;
    LastBytes(file, ms);
    RecordIff(p, auth, mac, ms[n], RecordBytes(file, ms, n));
  }

  lemma {:induction false} RecordsIff(p: Primitives, auth: Block, file: bytes, ms: L.Messages)
    requires At(ms, |ms|) <= |file|
    ensures L.AllStorable(ms) && L.Records(p, auth, INITIAL_MAC, ms) == file[0x30..At(ms, |ms|)] <==>
      AllStand(p, auth, file, ms, |ms|)
    decreases |ms|
  {
    hide L.Record, L.Records, L.Mac, L.LastMac, RecordStands, Fits, L.Storable, L.AllStorable, AllStand;
    if ms == [] {
      NothingStands(p, auth, file);
    } else {
      var n := |ms| - 1;
      var front, o := ms[..n], At(ms, n);
      LastIs(ms);
      AtIsLength(front);
      RecordsIff(p, auth, file, front);
      L.Snoc(p, auth, INITIAL_MAC, front, ms[n]);
      FrontsStand(p, auth, file, ms);
      StorableLast(ms);
      var mac := L.LastMac(p, auth, INITIAL_MAC, front);
      SplitOff(file, L.Records(p, auth, INITIAL_MAC, front), L.Record(p, auth, mac, ms[n]), o, At(ms, |ms|));
      if L.Records(p, auth, INITIAL_MAC, front) == file[0x30..o] {
        MacBefore(p, auth, file, front);
        LastRecordStands(p, auth, file, ms, mac);
      }
    }
  }

  lemma NothingStands(p: Primitives, auth: Block, file: bytes)
    requires |file| >= 0x30
    ensures L.AllStorable([]) && L.Records(p, auth, INITIAL_MAC, []) == file[0x30..0x30] && AllStand(p, auth, file, [], 0)
  {
  }

  /** The loader accepts a file as `ms` exactly when every byte of it behind the length field, up to the end of `ms`, is
      what the format says. */
  lemma LoadIffStands(p: Primitives, auth: Block, file: bytes, ms: L.Messages)
    ensures L.Load(p, auth, file) == Some(ms) <==> Stands(p, auth, file, ms)
  {
    hide L.Load, L.Records, L.AllStorable, AllStand, Header, L.Length, Be64, De64;
    L.LoadIffImage(p, auth, file, ms);
    AtIsLength(ms);
    if At(ms, |ms|) <= |file| && |ms| < TWO64 {
      var flen, end := FileLength(file), At(ms, |ms|);
      HeaderIs(p, auth, flen, |ms|, file);
      RecordsIff(p, auth, file, ms);
      var h, rs := Header(p, auth, flen, |ms|), L.Records(p, auth, INITIAL_MAC, ms);
      assert L.Image(p, auth, flen, ms) == h + rs;
      HeadAndRest(file, h, rs, end);
    }
  }

  // ----- records are bound to what is before them -----

  /** What the MAC of a record covers. */
  function Input(file: bytes, ms: L.Messages, n: nat): bytes
    requires n < |ms| && Fits(file, ms, n)
  {
    Before(file, ms, n) + RecordBytes(file, ms, n)[..8 + |ms[n]|]
  }

  /** Two different texts that the loader checked the MAC of in these files, and that have one MAC. */
  ghost predicate MacsClash(p: Primitives, auth: Block, f: bytes, ms: L.Messages, f': bytes, ms': L.Messages, n: nat)
    requires n < |ms| && n < |ms'| && Fits(f, ms, n) && Fits(f', ms', n)
  {
    Input(f, ms, n) != Input(f', ms', n) && p.hmac(auth, Input(f, ms, n)) == p.hmac(auth, Input(f', ms', n))
  }

  /** Two accepted files in which record `n` ends with the same MAC hold the same messages up to there, or two different
      texts that were checked in them, in one record up to there, have the same MAC. */
  lemma {:induction false} SameMacSameHistory(p: Primitives, auth: Block, f: bytes, ms: L.Messages, f': bytes,
          ms': L.Messages, n: nat)
    requires Stands(p, auth, f, ms) && Stands(p, auth, f', ms') && n < |ms| && n < |ms'|
    requires At(ms, n + 1) <= |f| && At(ms', n + 1) <= |f'| && Before(f, ms, n + 1) == Before(f', ms', n + 1)
    ensures forall m :: 0 <= m <= n ==> Fits(f, ms, m) && Fits(f', ms', m)
    ensures ms[..n + 1] == ms'[..n + 1] || exists m :: 0 <= m <= n && MacsClash(p, auth, f, ms, f', ms', m)
    decreases n
  {
    hide Reads, MacsClash, Before, RecordBytes, Be64;
    assert Fits(f, ms, n) && RecordStands(p, auth, f, ms, n) && Fits(f', ms', n) && RecordStands(p, auth, f', ms', n);
    RecordBefore(p, auth, f, ms, n);
    RecordBefore(p, auth, f', ms', n);
    if !MacsClash(p, auth, f, ms, f', ms', n) {
      InputsAgree(p, auth, f, ms, f', ms', n);
      if n > 0 {
        assert Fits(f, ms, n - 1) && Fits(f', ms', n - 1);
        SameMacSameHistory(p, auth, f, ms, f', ms', n - 1);
      }
      if ms[..n] == ms'[..n] {
        assert ms[..n + 1] == ms[..n] + [ms[n]] && ms'[..n + 1] == ms'[..n] + [ms'[n]];
      }
    }
  }

  /** The bytes before a record are the MAC of the record before it. */
  lemma RecordBefore(p: Primitives, auth: Block, f: bytes, ms: L.Messages, n: nat)
    requires n < |ms| && Fits(f, ms, n) && RecordStands(p, auth, f, ms, n)
    ensures At(ms, n + 1) <= |f| && Before(f, ms, n + 1) == p.hmac(auth, Input(f, ms, n))
  {
    hide Be64;
    var r := RecordBytes(f, ms, n);
    assert r[8 + |ms[n]|..] == f[At(ms, n + 1) - 32..At(ms, n + 1)];
  }

  lemma InputsAgree(p: Primitives, auth: Block, f: bytes, ms: L.Messages, f': bytes, ms': L.Messages, n: nat)
    requires n < |ms| && n < |ms'| && Fits(f, ms, n) && Fits(f', ms', n)
    requires RecordStands(p, auth, f, ms, n) && RecordStands(p, auth, f', ms', n)
    requires p.hmac(auth, Input(f, ms, n)) == p.hmac(auth, Input(f', ms', n))
    requires !MacsClash(p, auth, f, ms, f', ms', n)
    ensures Before(f, ms, n) == Before(f', ms', n) && ms[n] == ms'[n]
  {
    hide Be64, Before, RecordBytes;
    var x, y := Input(f, ms, n), Input(f', ms', n);
    assert x == y && |ms[n]| == |ms'[n]|;
    assert x[..32] == Before(f, ms, n) && y[..32] == Before(f', ms', n);
    var r, r' := RecordBytes(f, ms, n), RecordBytes(f', ms', n);
    assert x[40..] == r[8..8 + |ms[n]|] && y[40..] == r'[8..8 + |ms'[n]|];
  }

  /** One record: bytes that are accepted after two different MACs have the same MAC under both. */
  lemma BoundToPredecessor(p: Primitives, auth: Block, prev: Block, prev': Block, rest: bytes)
    requires L.ParseRecord(p, auth, prev, rest).Some? && L.ParseRecord(p, auth, prev', rest).Some?
    ensures var n := |L.ParseRecord(p, auth, prev, rest).value|;
      |rest| >= 40 + n && n == |L.ParseRecord(p, auth, prev', rest).value|
    ensures var x, y := prev + rest[..8 + |L.ParseRecord(p, auth, prev, rest).value|],
        prev' + rest[..8 + |L.ParseRecord(p, auth, prev, rest).value|];
      p.hmac(auth, x) == p.hmac(auth, y) && (prev != prev' ==> x != y)
  {
    hide De64;
    var n := |L.ParseRecord(p, auth, prev, rest).value|;
    assert rest[..8 + n] == rest[..8] + rest[8..8 + n];
    assert prev + rest[..8] + rest[8..8 + n] == prev + rest[..8 + n];
    assert prev' + rest[..8] + rest[8..8 + n] == prev' + rest[..8 + n];
    assert (prev + rest[..8 + n])[..32] == prev && (prev' + rest[..8 + n])[..32] == prev';
  }
}
