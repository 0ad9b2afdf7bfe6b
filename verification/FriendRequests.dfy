/** Friend requests and their answers: signed messages whose contents only the receiver can read. */
module FriendRequests {
  import opened Bytes
  import opened Crypto
  import opened Fields
  import opened Options
  import D = Dispatch
  import M = FriendMessages
  import Friends
  import R = Routing

  /** The foreign RSA library.  Keys are in wire form, which starts with the number of bits; `seed` stands
      for the randomness that encryption and signing draw. */
  datatype Rsa = Rsa(
    pubOf: bytes -> bytes,
    pubSize: uint64 -> nat,
    encrypt: (bytes, bytes, bytes) -> Option<bytes>,
    decrypt: (bytes, bytes) -> Option<bytes>,
    sign: (bytes, bytes, bytes) -> Option<bytes>,
    verify: (bytes, bytes, bytes) -> bool)

  function Bits(key: bytes): uint64
    requires |key| >= 8
  {
    De64(key[..8])
  }

  /** The length of a ciphertext block and of a signature. */
  function KeyBytes(bits: uint64): (n: nat)
    ensures bits + 7 < TWO64 ==> bits <= 8 * n < bits + 8
  {
    Wrap64(bits + 7) / 8
  }

  predicate LawfulCipher(rsa: Rsa, priv: bytes, seed: bytes, m: bytes)
    requires |priv| >= 8
  {
    var c := rsa.encrypt(rsa.pubOf(priv), seed, m);
    c.Some? ==> |c.value| == KeyBytes(Bits(priv)) && rsa.decrypt(priv, c.value) == Some(m)
  }

  predicate LawfulSignature(rsa: Rsa, priv: bytes, seed: bytes, m: bytes)
    requires |priv| >= 8
  {
    var s := rsa.sign(priv, seed, m);
    s.Some? ==> |s.value| == KeyBytes(Bits(priv)) && rsa.verify(rsa.pubOf(priv), s.value, m)
  }

  /** What the library promises about a private key and its public key: decryption inverts encryption
      and verification accepts signatures (RSA-OAEP and RSA-PSS, sections 7.1 and 8.1 of RFC 8017). */
  ghost predicate Lawful(rsa: Rsa, priv: bytes) {
    && |priv| >= 8
    && 8 <= |rsa.pubOf(priv)| == rsa.pubSize(Bits(priv)) < TWO63
    && Bits(rsa.pubOf(priv)) == Bits(priv)
    && (forall seed, m | |m| == 64 :: LawfulCipher(rsa, priv, seed, m))
    && (forall seed, m :: LawfulSignature(rsa, priv, seed, m))
  }

  // ----- the format -----

  datatype Identity = Identity(uname: bytes, priv: bytes)

  /** Everything that is drawn at random for one message: the two keys, and the library's own seeds. */
  datatype Draw = Draw(symm: Block, hmac: Block, encSeed: bytes, sigSeed: bytes)

  /** The confidential part: the sender's name and public key, and extra data. */
  function Contents(uname: bytes, key: bytes, ex: bytes): (r: bytes)
    ensures |r| == 0x10 + |uname| + |key| + |ex|
  {
    Be64(Wrap64(|uname|)) + Be64(Wrap64(|key|)) + uname + key + ex
  }

  /** What the signature covers, given the encrypted keys. */
  function Signed(p: Primitives, d: Draw, kind: byte, block: bytes, contents: bytes): (r: bytes)
    ensures |r| == 0x11 + |block| + |contents| + 0x20
  {
    var cipher := Stream(p, d.symm, 0, 0, contents);
    [kind] + Be64(Wrap64(|block|)) + Be64(Wrap64(|contents| + 0x20)) + block + cipher + p.hmac(d.hmac, cipher)
  }

  /** The payload that send_rsa_message builds, unless the library fails. */
  function Packed(p: Primitives, rsa: Rsa, d: Draw, kind: byte, me: Identity, pkey: bytes, ex: bytes): Option<bytes> {
    var block := rsa.encrypt(pkey, d.encSeed, d.symm + d.hmac);
    if block.None? then None else
    var signed := Signed(p, d, kind, block.value, Contents(me.uname, rsa.pubOf(me.priv), ex));
    var sig := rsa.sign(me.priv, d.sigSeed, signed);
    if sig.None? then None else Some(signed + sig.value)
  }

  // ----- parsing -----

  datatype Parsed = Accepted(uname: bytes, key: bytes, ex: bytes) | Invalid | Overread

  /** parse_rsa_message up to the decryption: the two keys and where the data block lies. */
  function OpenBlock(rsa: Rsa, priv: bytes, payload: bytes): (r: Option<(Block, Block, nat, nat)>)
    requires |payload| >= 0x11
    ensures r.Some? ==> 17 <= r.value.2 && r.value.2 + r.value.3 < |payload|
  {
    var kb, db := De64(payload[1..9]), De64(payload[9..0x11]);
    if kb + db + 17 >= |payload| then None else
    match rsa.decrypt(priv, payload[0x11..0x11 + kb])
    case None => None
    case Some(keys) => if |keys| != 64 then None else Some((keys[..32], keys[32..], 17 + kb, db))
  }

  /** What follows the data block's beginning once its `n` encrypted bytes are decrypted in place. */
  function Decrypted(p: Primitives, symm: Block, data: bytes, n: nat): (r: bytes)
    requires n <= |data|
    ensures |r| == |data|
  {
    Stream(p, symm, 0, 0, data[..n]) + data[n..]
  }

  /** The name, the key and the extra data, unless they or the key's number of bits lie outside. */
  function DataFields(data: bytes, exLen: nat): (r: Option<(bytes, bytes, bytes)>)
    ensures r.Some? ==> |r.value.1| >= 8 && |r.value.2| == exLen
  {
    if |data| < 0x10 then None else
    var u, k := De64(data[..8]), De64(data[8..0x10]);
    if |data| < 0x10 + u + k + exLen || k < 8 then None else
    Some((data[0x10..0x10 + u], data[0x10 + u..0x10 + u + k], data[0x10 + u + k..0x10 + u + k + exLen]))
  }

  /** The fields of the decrypted data, and the check of the signature over the payload as it came. */
  function ParseData(rsa: Rsa, payload: bytes, at: nat, db: nat, data: bytes, exLen: nat): Parsed
    requires |payload| < TWO64 && at + db <= |payload|
  {
    match DataFields(data, exLen)
    case None => Overread
    case Some((uname, key, ex)) =>
      if |payload| != at + db + KeyBytes(Bits(key)) then Invalid else
      if !rsa.verify(key, payload[at + db..], payload[..at + db]) then Invalid else
      Accepted(uname, key, ex)
  }

  /** The data block is authenticated, decrypted and parsed. */
  function ParseBlock(p: Primitives, rsa: Rsa, payload: bytes, symm: Block, hmac: Block, at: nat, db: nat,
          exLen: nat): Parsed
    requires at + db <= |payload| < TWO64
  {
    if db < 32 then Overread else
    var data := payload[at..];
    if p.hmac(hmac, data[..db - 32]) != data[db - 32..db] then Invalid else
    ParseData(rsa, payload, at, db, Decrypted(p, symm, data, db - 32), exLen)
  }

  /** parse_rsa_message. */
  function Parse(p: Primitives, rsa: Rsa, priv: bytes, payload: bytes, exLen: nat): Parsed
    requires |payload| < TWO64
  {
    if |payload| < 0x11 then Overread else
    var size: nat := De64(payload[1..9]) + De64(payload[9..0x11]) + 17;
    if size >= TWO64 then (if Wrap64(size) >= |payload| then Invalid else Overread) else
    match OpenBlock(rsa, priv, payload)
    case None => Invalid
    case Some((symm, hmac, at, db)) => ParseBlock(p, rsa, payload, symm, hmac, at, db, exLen)
  }

  // ----- what was packed is what is parsed -----

  lemma SignedParts(p: Primitives, d: Draw, kind: byte, block: bytes, contents: bytes, sig: bytes)
    requires |block| < TWO64 && |contents| + 0x20 < TWO64
    ensures var payload, at, n := Signed(p, d, kind, block, contents) + sig, 0x11 + |block|, |contents|;
      && payload[1..9] == Be64(|block|) && payload[9..0x11] == Be64(n + 0x20)
      && payload[0x11..at] == block
      && payload[at..at + n] == Stream(p, d.symm, 0, 0, contents)
      && payload[at + n..at + n + 0x20] == p.hmac(d.hmac, Stream(p, d.symm, 0, 0, contents))
      && payload[at + n + 0x20..] == sig && payload[..at + n + 0x20] == Signed(p, d, kind, block, contents)
  {
    hide Be64, Stream;
  }

  lemma ContentsParts(uname: bytes, key: bytes, ex: bytes, more: bytes)
    requires |uname| < TWO64 && |key| < TWO64
    ensures var data, u, k := Contents(uname, key, ex) + more, |uname|, |key|;
      && De64(data[..8]) == u && De64(data[8..0x10]) == k
      && data[0x10..0x10 + u] == uname && data[0x10 + u..0x10 + u + k] == key
      && data[0x10 + u + k..0x10 + u + k + |ex|] == ex
  {
    hide Be64, De64;
    var data := Contents(uname, key, ex) + more;
    assert data[..8] == Be64(|uname|) && data[8..0x10] == Be64(|key|);
    DeBe64(|uname|);
    DeBe64(|key|);
  }

  /** The receiver finds the keys and the data block. */
  lemma BlockIsOpened(p: Primitives, rsa: Rsa, d: Draw, kind: byte, priv: bytes, block: bytes, contents: bytes,
          sig: bytes)
    requires |block| + |contents| + 0x31 + |sig| < TWO64 && |sig| > 0
    requires rsa.decrypt(priv, block) == Some(d.symm + d.hmac)
    ensures var payload := Signed(p, d, kind, block, contents) + sig;
      && De64(payload[1..9]) == |block| && De64(payload[9..0x11]) == |contents| + 0x20
      && OpenBlock(rsa, priv, payload) == Some((d.symm, d.hmac, 0x11 + |block|, |contents| + 0x20))
  {
    hide Be64, De64, Signed;
    SignedParts(p, d, kind, block, contents, sig);
    DeBe64(|block|);
    DeBe64(|contents| + 0x20);
    var keys := d.symm + d.hmac;
    assert keys[..32] == d.symm && keys[32..] == d.hmac;
  }

  /** Decryption in place gives the contents back, and what follows them is untouched. */
  lemma DataIsDecrypted(p: Primitives, symm: Block, contents: bytes, more: bytes)
    ensures Decrypted(p, symm, Stream(p, symm, 0, 0, contents) + more, |contents|) == contents + more
  {
    hide Stream;
    StreamTwice(p, symm, 0, 0, contents);
    var data := Stream(p, symm, 0, 0, contents) + more;
    assert data[..|contents|] == Stream(p, symm, 0, 0, contents) && data[|contents|..] == more;
  }

  lemma DataIsParsed(rsa: Rsa, payload: bytes, at: nat, db: nat, more: bytes, uname: bytes, key: bytes, ex: bytes,
          sig: bytes)
    requires |payload| < TWO64 && |uname| < TWO64 && 8 <= |key| < TWO64
    requires at + 0x10 + |uname| + |key| + |ex| + |more| == |payload|
    requires at + db + |sig| == |payload| && payload[at + db..] == sig && |sig| == KeyBytes(Bits(key))
    requires rsa.verify(key, sig, payload[..at + db])
    ensures ParseData(rsa, payload, at, db, Contents(uname, key, ex) + more, |ex|) == Accepted(uname, key, ex)
  {
    hide De64, Contents, KeyBytes;
    ContentsParts(uname, key, ex, more);
  }

  /** The receiver opens what was sealed with a block that it can decrypt, whoever signed it. */
  lemma SignedIsParsed(p: Primitives, rsa: Rsa, d: Draw, kind: byte, priv: bytes, block: bytes,
                       uname: bytes, key: bytes, ex: bytes, sig: bytes, payload: bytes)
    requires payload == Signed(p, d, kind, block, Contents(uname, key, ex)) + sig && |payload| < TWO64
    requires rsa.decrypt(priv, block) == Some(d.symm + d.hmac)
    requires |key| >= 8 && |sig| == KeyBytes(Bits(key)) > 0
    requires rsa.verify(key, sig, Signed(p, d, kind, block, Contents(uname, key, ex)))
    ensures Parse(p, rsa, priv, payload, |ex|) == Accepted(uname, key, ex)
  {
    hide De64, Be64, Stream, Contents, Signed, KeyBytes, OpenBlock, ParseBlock;
    var contents := Contents(uname, key, ex);
    BlockIsOpened(p, rsa, d, kind, priv, block, contents, sig);
    BlockIsParsed(p, rsa, d, kind, block, uname, key, ex, sig, payload);
  }

  lemma BlockIsParsed(p: Primitives, rsa: Rsa, d: Draw, kind: byte, block: bytes,
                      uname: bytes, key: bytes, ex: bytes, sig: bytes, payload: bytes)
    requires payload == Signed(p, d, kind, block, Contents(uname, key, ex)) + sig && |payload| < TWO64
    requires |key| >= 8 && |sig| == KeyBytes(Bits(key))
    requires rsa.verify(key, sig, Signed(p, d, kind, block, Contents(uname, key, ex)))
    ensures ParseBlock(p, rsa, payload, d.symm, d.hmac, 0x11 + |block|, |Contents(uname, key, ex)| + 0x20, |ex|)
         == Accepted(uname, key, ex)
  {
    hide *;
    var contents := Contents(uname, key, ex);
    var at, n := 0x11 + |block|, |contents|;
    var cipher := Stream(p, d.symm, 0, 0, contents);
    var mac := p.hmac(d.hmac, cipher);
    SignedParts(p, d, kind, block, contents, sig);
    DataInPayload(payload, at, n, cipher, mac, sig);
    OpenedBlock(p, rsa, payload, d.symm, d.hmac, at, cipher, mac, sig, |ex|);
    DataIsDecrypted(p, d.symm, contents, mac + sig);
    DataIsParsed(rsa, payload, at, n + 0x20, mac + sig, uname, key, ex, sig);
  }

  lemma DataInPayload(payload: bytes, at: nat, n: nat, cipher: bytes, mac: bytes, sig: bytes)
    requires at + n + 0x20 <= |payload| && |cipher| == n && |mac| == 0x20
    requires payload[at..at + n] == cipher && payload[at + n..at + n + 0x20] == mac && payload[at + n + 0x20..] == sig
    ensures payload[at..] == cipher + (mac + sig)
    ensures payload[at..][..n] == cipher && payload[at..][n..n + 0x20] == mac
  {
    assert payload[at..] == payload[at..at + n] + payload[at + n..at + n + 0x20] + payload[at + n + 0x20..];
  }

  /** The data block when its MAC is right. */
  lemma OpenedBlock(p: Primitives, rsa: Rsa, payload: bytes, symm: Block, hmac: Block, at: nat, cipher: bytes, mac: bytes,
          sig: bytes, exLen: nat)
    requires at + |cipher| + 0x20 <= |payload| < TWO64 && |mac| == 0x20 && mac == p.hmac(hmac, cipher)
    requires payload[at..] == cipher + (mac + sig)
    requires payload[at..][..|cipher|] == cipher && payload[at..][|cipher|..|cipher| + 0x20] == mac
    ensures var n := |cipher|;
      ParseBlock(p, rsa, payload, symm, hmac, at, n + 0x20, exLen)
        == ParseData(rsa, payload, at, n + 0x20, Decrypted(p, symm, cipher + (mac + sig), n), exLen)
  {
    hide ParseData, Decrypted;
  }

  lemma PackedParts(p: Primitives, rsa: Rsa, d: Draw, kind: byte, me: Identity, priv: bytes, ex: bytes, payload: bytes)
    returns (block: bytes, sig: bytes)
    requires Lawful(rsa, me.priv) && Lawful(rsa, priv)
    requires Packed(p, rsa, d, kind, me, rsa.pubOf(priv), ex) == Some(payload)
    ensures payload == Signed(p, d, kind, block, Contents(me.uname, rsa.pubOf(me.priv), ex)) + sig
    ensures |block| == KeyBytes(Bits(priv)) && rsa.decrypt(priv, block) == Some(d.symm + d.hmac)
    ensures |sig| == KeyBytes(Bits(me.priv))
    ensures rsa.verify(rsa.pubOf(me.priv), sig, Signed(p, d, kind, block, Contents(me.uname, rsa.pubOf(me.priv), ex)))
  {
    hide Signed, Contents, KeyBytes;
    block := rsa.encrypt(rsa.pubOf(priv), d.encSeed, d.symm + d.hmac).value;
    var signed := Signed(p, d, kind, block, Contents(me.uname, rsa.pubOf(me.priv), ex));
    sig := rsa.sign(me.priv, d.sigSeed, signed).value;
    assert LawfulCipher(rsa, priv, d.encSeed, d.symm + d.hmac);
    assert LawfulSignature(rsa, me.priv, d.sigSeed, signed);
  }

  /** For every user name, key size and extra data, parse_rsa_message recovers what send_rsa_message
      packed: the sender's name and public key and the extra data. */
  lemma PackedIsParsed(p: Primitives, rsa: Rsa, d: Draw, kind: byte, me: Identity, priv: bytes, ex: bytes,
          payload: bytes)
    requires Lawful(rsa, me.priv) && Lawful(rsa, priv) && |payload| < TWO64
    requires Packed(p, rsa, d, kind, me, rsa.pubOf(priv), ex) == Some(payload)
    requires KeyBytes(Bits(me.priv)) > 0
    ensures Parse(p, rsa, priv, payload, |ex|) == Accepted(me.uname, rsa.pubOf(me.priv), ex)
    ensures |payload| == 0x11 + KeyBytes(Bits(priv))
      + 0x10 + |me.uname| + rsa.pubSize(Bits(me.priv)) + |ex| + 0x20 + KeyBytes(Bits(me.priv))
  {
    hide Signed, Parse, KeyBytes, Packed;
    var block, sig := PackedParts(p, rsa, d, kind, me, priv, ex, payload);
    SignedIsParsed(p, rsa, d, kind, priv, block, me.uname, rsa.pubOf(me.priv), ex, sig, payload);
  }

  /** Nothing is accepted without a signature, under the key that it brings along, over everything that
      stands before the signature as it came. */
  lemma AcceptedIsSigned(p: Primitives, rsa: Rsa, priv: bytes, payload: bytes, exLen: nat)
    requires |payload| < TWO64 && Parse(p, rsa, priv, payload, exLen).Accepted?
    ensures var key := Parse(p, rsa, priv, payload, exLen).key;
      |key| >= 8 && KeyBytes(Bits(key)) < |payload| &&
      var n := |payload| - KeyBytes(Bits(key));
      rsa.verify(key, payload[n..], payload[..n])
    ensures |Parse(p, rsa, priv, payload, exLen).ex| == exLen
  {
    hide De64, Stream, KeyBytes, Decrypted, DataFields;
  }

  /** The payload byte for byte.  The prefix holds the kind and two lengths; the block is the two keys, encrypted for the
      receiver; the data are the name, the key and what is added, behind their lengths, under the first key, and a MAC of
      them under the second one; the signature covers all that. */
  predicate PayloadStands(p: Primitives, rsa: Rsa, d: Draw, kind: byte, me: Identity, pkey: bytes, ex: bytes, payload: bytes,
          kb: nat)
  {
    var key := rsa.pubOf(me.priv);
    var u, k, at := |me.uname|, |key|, 0x11 + kb;
    var n := 0x10 + u + k + |ex|;
    && |payload| >= at + n + 0x20
    && payload[0] == kind && payload[1..9] == Be64(Wrap64(kb)) && payload[9..0x11] == Be64(Wrap64(n + 0x20))
    && rsa.encrypt(pkey, d.encSeed, d.symm + d.hmac) == Some(payload[0x11..at])
    && (var plain := Stream(p, d.symm, 0, 0, payload[at..at + n]);
        && plain[..8] == Be64(Wrap64(u)) && plain[8..0x10] == Be64(Wrap64(k))
        && plain[0x10..0x10 + u] == me.uname && plain[0x10 + u..0x10 + u + k] == key && plain[0x10 + u + k..] == ex)
    && payload[at + n..at + n + 0x20] == p.hmac(d.hmac, payload[at..at + n])
    && rsa.sign(me.priv, d.sigSeed, payload[..at + n + 0x20]) == Some(payload[at + n + 0x20..])
  }

  lemma PackedStands(p: Primitives, rsa: Rsa, d: Draw, kind: byte, me: Identity, pkey: bytes, ex: bytes, payload: bytes)
    returns (kb: nat)
    requires Packed(p, rsa, d, kind, me, pkey, ex) == Some(payload)
    ensures PayloadStands(p, rsa, d, kind, me, pkey, ex, payload, kb)
  {
    hide Be64, Stream, Signed, Contents;
    var block, contents := rsa.encrypt(pkey, d.encSeed, d.symm + d.hmac).value, Contents(me.uname, rsa.pubOf(me.priv), ex);
    kb := |block|;
    var sig := rsa.sign(me.priv, d.sigSeed, Signed(p, d, kind, block, contents)).value;
    SignedStands(p, d, kind, block, contents, sig);
    ContentsStand(me.uname, rsa.pubOf(me.priv), ex);
    StreamTwice(p, d.symm, 0, 0, contents);
  }

  lemma SignedStands(p: Primitives, d: Draw, kind: byte, block: bytes, contents: bytes, sig: bytes)
    ensures var payload, at, n := Signed(p, d, kind, block, contents) + sig, 0x11 + |block|, |contents|;
      && payload[0] == kind && payload[1..9] == Be64(Wrap64(|block|)) && payload[9..0x11] == Be64(Wrap64(n + 0x20))
      && payload[0x11..at] == block
      && payload[at..at + n] == Stream(p, d.symm, 0, 0, contents)
      && payload[at + n..at + n + 0x20] == p.hmac(d.hmac, Stream(p, d.symm, 0, 0, contents))
      && payload[at + n + 0x20..] == sig && payload[..at + n + 0x20] == Signed(p, d, kind, block, contents)
  {
    hide Be64, Stream, Wrap64;
  }

  lemma ContentsStand(uname: bytes, key: bytes, ex: bytes)
    ensures var plain, u, k := Contents(uname, key, ex), |uname|, |key|;
      && plain[..8] == Be64(Wrap64(u)) && plain[8..0x10] == Be64(Wrap64(k))
      && plain[0x10..0x10 + u] == uname && plain[0x10 + u..0x10 + u + k] == key && plain[0x10 + u + k..] == ex
  {
    hide Be64, Wrap64;
  }

  // ----- what is accepted -----

  /** A payload that is accepted, byte for byte, with a block of `kb` bytes and data of `db` bytes: the block is two keys,
      encrypted for the receiver; the second key authenticates the data and the first one decrypts them; the fields
      start where the data do, but nothing keeps them from reaching into what follows; and the rest is a signature
      over everything before it under the key among the fields. */
  predicate AcceptedStands(p: Primitives, rsa: Rsa, priv: bytes, payload: bytes, uname: bytes, key: bytes, ex: bytes,
          kb: uint64, db: uint64)
  {
    var at, end := 0x11 + kb, 0x11 + kb + db;
    && db >= 0x20 && end < |payload|
    && payload[1..9] == Be64(kb) && payload[9..0x11] == Be64(db)
    && (var keys := rsa.decrypt(priv, payload[0x11..at]);
        && keys.Some? && |keys.value| == 64
        && payload[end - 0x20..end] == p.hmac(keys.value[32..], payload[at..end - 0x20])
        && FieldsStand(Stream(p, keys.value[..32], 0, 0, payload[at..end - 0x20]) + payload[end - 0x20..], uname, key, ex))
    && |key| >= 8 && |payload| == end + KeyBytes(Bits(key))
    && rsa.verify(key, payload[end..], payload[..end])
  }

  predicate FieldsStand(data: bytes, uname: bytes, key: bytes, ex: bytes) {
    var u, k := |uname|, |key|;
    && u < TWO64 && k < TWO64 && |data| >= 0x10 + u + k + |ex|
    && data[..8] == Be64(u) && data[8..0x10] == Be64(k)
    && data[0x10..0x10 + u] == uname && data[0x10 + u..0x10 + u + k] == key && data[0x10 + u + k..0x10 + u + k + |ex|] == ex
  }

  lemma FieldsIff(data: bytes, exLen: nat, uname: bytes, key: bytes, ex: bytes)
    ensures DataFields(data, exLen) == Some((uname, key, ex)) <==> |ex| == exLen && |key| >= 8 && FieldsStand(data, uname, key, ex)
  {
    hide De64, Be64;
    if |uname| < TWO64 && |key| < TWO64 {
      DeBe64(|uname|);
      DeBe64(|key|);
    }
  }

  /** parse_rsa_message accepts exactly such payloads. */
  lemma AcceptedIff(p: Primitives, rsa: Rsa, priv: bytes, payload: bytes, exLen: nat, uname: bytes, key: bytes, ex: bytes)
    requires |payload| < TWO64
    ensures Parse(p, rsa, priv, payload, exLen) == Accepted(uname, key, ex) <==>
      |ex| == exLen && exists kb, db :: AcceptedStands(p, rsa, priv, payload, uname, key, ex, kb, db)
  {
    hide De64, Be64, Stream, KeyBytes, AcceptedStands, Parse;
    if Parse(p, rsa, priv, payload, exLen) == Accepted(uname, key, ex) {
      ParsedStands(p, rsa, priv, payload, exLen, uname, key, ex);
    }
    if |ex| == exLen && exists kb, db :: AcceptedStands(p, rsa, priv, payload, uname, key, ex, kb, db) {
      var kb, db :| AcceptedStands(p, rsa, priv, payload, uname, key, ex, kb, db);
      StandingIsParsed(p, rsa, priv, payload, uname, key, ex, kb, db);
    }
  }

  lemma ParsedStands(p: Primitives, rsa: Rsa, priv: bytes, payload: bytes, exLen: nat, uname: bytes, key: bytes, ex: bytes)
    requires |payload| < TWO64 && Parse(p, rsa, priv, payload, exLen) == Accepted(uname, key, ex)
    ensures |payload| >= 0x11 && |ex| == exLen
    ensures AcceptedStands(p, rsa, priv, payload, uname, key, ex, De64(payload[1..9]), De64(payload[9..0x11]))
  {
    hide De64, Be64, Stream, KeyBytes, FieldsStand, DataFields;
    var kb, db := De64(payload[1..9]), De64(payload[9..0x11]);
    var at, end := 0x11 + kb, 0x11 + kb + db;
    assert payload[at..][..db - 32] == payload[at..end - 0x20] && payload[at..][db - 32..db] == payload[end - 0x20..end];
    assert payload[at..][db - 32..] == payload[end - 0x20..];
    var keys := rsa.decrypt(priv, payload[0x11..at]).value;
    FieldsIff(Decrypted(p, keys[..32], payload[at..], db - 32), exLen, uname, key, ex);
  }

  lemma StandingIsParsed(p: Primitives, rsa: Rsa, priv: bytes, payload: bytes, uname: bytes, key: bytes, ex: bytes,
          kb: uint64, db: uint64)
    requires |payload| < TWO64 && AcceptedStands(p, rsa, priv, payload, uname, key, ex, kb, db)
    ensures Parse(p, rsa, priv, payload, |ex|) == Accepted(uname, key, ex)
  {
    hide De64, Be64, Stream, KeyBytes, FieldsStand, DataFields;
    DeBe64(kb);
    DeBe64(db);
    var at, end := 0x11 + kb, 0x11 + kb + db;
    assert payload[at..][..db - 32] == payload[at..end - 0x20] && payload[at..][db - 32..db] == payload[end - 0x20..end];
    assert payload[at..][db - 32..] == payload[end - 0x20..];
    var keys := rsa.decrypt(priv, payload[0x11..at]).value;
    FieldsIff(Decrypted(p, keys[..32], payload[at..], db - 32), |ex|, uname, key, ex);
  }

  // ----- where a packed message goes -----

  lemma PackedKind(p: Primitives, rsa: Rsa, d: Draw, kind: byte, me: Identity, pkey: bytes, ex: bytes, payload: bytes)
    requires Packed(p, rsa, d, kind, me, pkey, ex) == Some(payload)
    ensures payload != [] && payload[0] == kind
  {
    hide Be64, Stream;
  }

  /** A friend request reaches parse_friendreq and an answer parse_friendreq_response, whoever the server says that it is
      from; either reaches nothing else, and other kinds reach neither of them. */
  lemma PackedReaches(p: Primitives, rsa: Rsa, d: Draw, kind: byte, me: Identity, pkey: bytes, ex: bytes, payload: bytes,
          asking: bool, from: Block)
    requires Packed(p, rsa, d, kind, me, pkey, ex) == Some(payload) && |payload| + 0x29 < TWO64
    ensures var call := D.Called(asking, R.Letter(from, payload));
      && (kind == 1 <==> call == D.FriendRequest(from, payload))
      && (kind == 2 <==> call == D.FriendAnswer(from, payload))
      && (kind == 0 <==> call == D.ConvMessage(from, payload))
      && (kind > 2 <==> call == D.Nothing)
  {
    hide Packed, D.Called, R.Letter;
    PackedKind(p, rsa, d, kind, me, pkey, ex, payload);
    D.LetterReaches(asking, from, payload);
  }

  /** What a client makes of a message from the server as a friend request: parse_friendreq. */
  function Requested(p: Primitives, rsa: Rsa, priv: bytes, m: bytes): Option<Parsed>
    requires |m| < TWO64
  {
    match D.Called(false, m)
    case FriendRequest(_, payload) => Some(Parse(p, rsa, priv, payload, 0))
    case _ => None
  }

  /** And as the answer to one: parse_friendreq_response. */
  function Answered(p: Primitives, rsa: Rsa, priv: bytes, m: bytes): Option<Parsed>
    requires |m| < TWO64
  {
    match D.Called(false, m)
    case FriendAnswer(_, payload) => Some(Parse(p, rsa, priv, payload, 0x80))
    case _ => None
  }

  // ----- the exchange -----

  /** The keys that the one who answers a request draws for the pair, as the answerer keeps them. */
  function AnswererKeys(f: Friends.Friend, keys: bytes): Friends.Friend
    requires |keys| == 0x80
  {
    f.(sSymm := keys[..0x20], sHmac := keys[0x20..0x40], rSymm := keys[0x40..0x60], rHmac := keys[0x60..])
  }

  /** The same keys as the one who asked keeps them. */
  function AskerKeys(f: Friends.Friend, keys: bytes): Friends.Friend
    requires |keys| == 0x80
  {
    f.(rSymm := keys[..0x20], rHmac := keys[0x20..0x40], sSymm := keys[0x40..0x60], sHmac := keys[0x60..])
  }

  lemma NameIsKept(p: Primitives, uname: bytes)
    requires 0 !in uname
    ensures Friends.CopiedName(uname) == uname && Friends.UidOf(p, uname) == p.sha(uname + [0])
  {
  }

  /** After a request and its answer each side knows the other's name and public key, each side's send
      keys are the other's receive keys, and a first message in either direction is accepted. */
  lemma ExchangeMirrorsKeys(p: Primitives, rsa: Rsa, asker: Identity, answerer: Identity, d1: Draw, d2: Draw,
                            keys: bytes, request: bytes, response: bytes, f1: Block, f2: Block, text: bytes)
    requires Lawful(rsa, asker.priv) && Lawful(rsa, answerer.priv)
    requires KeyBytes(Bits(asker.priv)) > 0 && KeyBytes(Bits(answerer.priv)) > 0
    requires |request| + 0x29 < TWO64 && |response| + 0x29 < TWO64 && |keys| == 0x80 && |text| + 0x31 < TWO64
    requires Packed(p, rsa, d1, 1, asker, rsa.pubOf(answerer.priv), []) == Some(request)
    requires Packed(p, rsa, d2, 2, answerer, rsa.pubOf(asker.priv), keys) == Some(response)
    ensures forall from: Block ::
      Requested(p, rsa, answerer.priv, R.Letter(from, request)) == Some(Accepted(asker.uname, rsa.pubOf(asker.priv), []))
    ensures forall from: Block ::
      Answered(p, rsa, asker.priv, R.Letter(from, response)) == Some(Accepted(answerer.uname, rsa.pubOf(answerer.priv), keys))
    ensures var atAnswerer := AnswererKeys(Friends.Created(p, asker.uname, rsa.pubOf(asker.priv), f1), keys);
      var atAsker := AskerKeys(Friends.Created(p, answerer.uname, rsa.pubOf(answerer.priv), f2), keys);
      && Friends.SendKeys(atAsker) == Friends.RecvKeys(atAnswerer) == Keys(keys[0x40..0x60], keys[0x60..])
      && Friends.SendKeys(atAnswerer) == Friends.RecvKeys(atAsker) == Keys(keys[..0x20], keys[0x20..0x40])
      && (0 !in asker.uname ==> atAnswerer.uname == asker.uname && atAnswerer.uid == p.sha(asker.uname + [0]))
      && (0 !in answerer.uname ==> atAsker.uname == answerer.uname && atAsker.uid == p.sha(answerer.uname + [0]))
      && atAnswerer.cFile == f1 && atAsker.cFile == f2
      && atAnswerer.pkey == rsa.pubOf(asker.priv) && atAsker.pkey == rsa.pubOf(answerer.priv)
      && M.Judged(p, Friends.RecvKeys(atAnswerer), atAnswerer.rNonce,
           M.Payload(p, Friends.SendKeys(atAsker), 0, atAsker.sNonce + 1, text)) == (1, M.Accepted(text))
      && M.Judged(p, Friends.RecvKeys(atAsker), atAsker.rNonce,
           M.Payload(p, Friends.SendKeys(atAnswerer), 0, atAnswerer.sNonce + 1, text)) == (1, M.Accepted(text))
  {
    hide Packed, Parse, M.Judged, M.Payload, KeyBytes, Lawful, Friends.CopiedName, Friends.UidOf, D.Called, R.Letter;
    if 0 !in asker.uname {
      NameIsKept(p, asker.uname);
    }
    if 0 !in answerer.uname {
      NameIsKept(p, answerer.uname);
    }
    forall from: Block
      ensures D.Called(false, R.Letter(from, request)) == D.FriendRequest(from, request)
      ensures D.Called(false, R.Letter(from, response)) == D.FriendAnswer(from, response)
    {
      PackedReaches(p, rsa, d1, 1, asker, rsa.pubOf(answerer.priv), [], request, false, from);
      PackedReaches(p, rsa, d2, 2, answerer, rsa.pubOf(asker.priv), keys, response, false, from);
    }
    PackedIsParsed(p, rsa, d1, 1, asker, answerer.priv, [], request);
    PackedIsParsed(p, rsa, d2, 2, answerer, asker.priv, keys, response);
    M.PayloadJudged(p, Keys(keys[..0x20], keys[0x20..0x40]), 0, 0, 1, text);
    M.PayloadJudged(p, Keys(keys[0x40..0x60], keys[0x60..]), 0, 0, 1, text);
  }

  /** The friends after parse_friendreq_response, if the message `m` from the server gets there; `file` is the name drawn
      for the new friend's conversation.  The sender's id and the requests that are pending play no part. */
  function WithResponder(p: Primitives, rsa: Rsa, priv: bytes, friends: seq<Friends.Friend>, m: bytes, file: Block)
    : seq<Friends.Friend>
    requires |m| < TWO64
  {
    match Answered(p, rsa, priv, m)
    case None => friends
    case Some(parsed) =>
      if !parsed.Accepted? || |parsed.ex| != 0x80 then friends
      else friends + [AskerKeys(Friends.Created(p, parsed.uname, parsed.key, file), parsed.ex)]
  }

  /** So an answer that nobody asked for makes a friend: whoever packs one, under whatever name and from
      whatever id, becomes the last of the friends, with the keys that this person chose, and is heard at once. */
  lemma UnaskedResponseIsTaken(p: Primitives, rsa: Rsa, anyone: Identity, d: Draw, priv: bytes, keys: bytes, payload: bytes,
          friends: seq<Friends.Friend>, sender: Block, file: Block, text: bytes)
    requires Lawful(rsa, anyone.priv) && Lawful(rsa, priv) && KeyBytes(Bits(anyone.priv)) > 0
    requires |payload| + 0x29 < TWO64 && |keys| == 0x80 && |text| + 0x31 < TWO64
    requires Packed(p, rsa, d, 2, anyone, rsa.pubOf(priv), keys) == Some(payload)
    ensures var f := AskerKeys(Friends.Created(p, anyone.uname, rsa.pubOf(anyone.priv), file), keys);
      && WithResponder(p, rsa, priv, friends, R.Letter(sender, payload), file) == friends + [f]
      && Friends.SendKeys(f) == Keys(keys[0x40..0x60], keys[0x60..])
      && M.Judged(p, Friends.RecvKeys(f), f.rNonce, M.Payload(p, Keys(keys[..0x20], keys[0x20..0x40]), 0, 1, text))
         == (1, M.Accepted(text))
  {
    hide Packed, Parse, M.Judged, M.Payload, KeyBytes, Lawful, Friends.CopiedName, Friends.UidOf, D.Called, R.Letter;
    PackedReaches(p, rsa, d, 2, anyone, rsa.pubOf(priv), keys, payload, false, sender);
    PackedIsParsed(p, rsa, d, 2, anyone, priv, keys, payload);
    M.PayloadJudged(p, Keys(keys[..0x20], keys[0x20..0x40]), 0, 0, 1, text);
  }

  // ----- the code -----

  /** chacha_enc and chacha_dec of a part of a buffer, with the output over the input. */
  method CryptRange(p: Primitives, key: Block, a: array<byte>, from: nat, to: nat)
    requires from <= to <= a.Length
    modifies a
    ensures a[..from] == old(a[..from]) && a[to..] == old(a[to..])
    ensures a[from..to] == Stream(p, key, 0, 0, old(a[from..to]))
  {
    hide Xor;
    for i := from to to
      invariant forall j | from <= j < i :: a[j] == Xor(old(a[j]), p.keystream(key, 0, 0 + (j - from)))
      invariant forall j | 0 <= j < from || i <= j < a.Length :: a[j] == old(a[j])
    {
      a[i] := Xor(a[i], p.keystream(key, 0, 0 + (i - from)));
    }
  }

  /** parse_rsa_message: the data are decrypted in place for reading, and encrypted again, which restores
      the signed bytes, before the signature is checked. */
  method ParseMessage(p: Primitives, rsa: Rsa, priv: bytes, payload: array<byte>, exLen: nat) returns (r: Parsed)
    requires payload.Length < TWO64
    modifies payload
    ensures r == Parse(p, rsa, priv, old(payload[..]), exLen)
    ensures r.Accepted? ==> payload[..] == old(payload[..])
  {
    hide De64, ParseBlock, Wrap64;
    var pLen := payload.Length;
    if pLen < 0x11 { return Overread; }
    ghost var was := payload[..];
    assert payload[1..9] == was[1..9] && payload[9..0x11] == was[9..0x11];
    var kb: nat, db: nat := De64(payload[1..9]), De64(payload[9..0x11]);
    if Wrap64(kb + db + 17) >= pLen { return Invalid; }
    if kb + db + 17 >= TWO64 { return Overread; }
    assert payload[0x11..0x11 + kb] == was[0x11..0x11 + kb];
    var keys := rsa.decrypt(priv, payload[0x11..0x11 + kb]);
    if keys.None? || |keys.value| != 64 { return Invalid; }
    r := DecryptAndCheck(p, rsa, payload, keys.value[..32], keys.value[32..], 17 + kb, db, exLen);
  }

  /** From the keys on. */
  method DecryptAndCheck(p: Primitives, rsa: Rsa, payload: array<byte>, symm: Block, hmac: Block, at: nat, db: nat,
          exLen: nat)
    returns (r: Parsed)
    requires at + db <= payload.Length < TWO64
    modifies payload
    ensures r == ParseBlock(p, rsa, old(payload[..]), symm, hmac, at, db, exLen)
    ensures r.Accepted? ==> payload[..] == old(payload[..])
  {
    hide Stream, ParseData, Decrypted;
    if db < 32 { return Overread; }
    ghost var was := payload[..];
    assert payload[at..at + db - 32] == was[at..][..db - 32] && payload[at + db - 32..at + db] == was[at..][db - 32..db];
    if p.hmac(hmac, payload[at..at + db - 32]) != payload[at + db - 32..at + db] { return Invalid; }
    CryptRange(p, symm, payload, at, at + db - 32);
    DecryptedInPlace(p, symm, was, payload[..], at, at + db - 32);
    r := CheckSignature(p, rsa, payload, symm, at, db, exLen, was);
  }

  lemma DecryptedInPlace(p: Primitives, symm: Block, was: bytes, now: bytes, from: nat, to: nat)
    requires from <= to <= |was| == |now| && now[..from] == was[..from] && now[to..] == was[to..]
    requires now[from..to] == Stream(p, symm, 0, 0, was[from..to])
    ensures now[from..] == Decrypted(p, symm, was[from..], to - from)
  {
    hide Stream;
    assert was[from..][..to - from] == was[from..to] && was[from..][to - from..] == was[to..];
    assert now[from..] == now[from..to] + now[to..];
  }

  lemma EncryptedAgain(p: Primitives, symm: Block, was: bytes, plain: bytes, now: bytes, from: nat, to: nat)
    requires from <= to <= |was| == |now| == |plain|
    requires plain[..from] == was[..from] && plain[from..] == Decrypted(p, symm, was[from..], to - from)
    requires now[..from] == plain[..from] && now[to..] == plain[to..] && now[from..to] == Stream(p, symm, 0, 0, plain[from..to])
    ensures now == was
  {
    hide Stream;
    var n := to - from;
    assert was[from..][..n] == was[from..to] && was[from..][n..] == was[to..];
    assert plain[from..to] == plain[from..][..n] && plain[to..] == plain[from..][n..];
    StreamTwice(p, symm, 0, 0, was[from..to]);
    assert now == now[..from] + now[from..to] + now[to..];
    assert was == was[..from] + was[from..to] + was[to..];
  }

  /** The fields of the data that start at `at`. */
  method ReadFields(payload: array<byte>, at: nat, exLen: nat) returns (r: Option<(bytes, bytes, bytes)>)
    requires at <= payload.Length
    ensures r == DataFields(payload[at..], exLen)
  {
    hide De64;
    var data := payload[at..];
    if |data| < 0x10 { return None; }
    var u: nat, k: nat := De64(data[..8]), De64(data[8..0x10]);
    if |data| < 0x10 + u + k + exLen || k < 8 { return None; }
    r := Some((data[0x10..0x10 + u], data[0x10 + u..0x10 + u + k], data[0x10 + u + k..0x10 + u + k + exLen]));
  }

  /** The second half of parse_rsa_message, on the payload with its data in the clear. */
  method CheckSignature(p: Primitives, rsa: Rsa, payload: array<byte>, symm: Block, at: nat, db: nat, exLen: nat,
          ghost was: bytes)
    returns (r: Parsed)
    requires payload.Length == |was| < TWO64 && 32 <= db && at + db <= |was|
    requires payload[..at] == was[..at] && payload[at..] == Decrypted(p, symm, was[at..], db - 32)
    modifies payload
    ensures r == ParseData(rsa, was, at, db, Decrypted(p, symm, was[at..], db - 32), exLen)
    ensures r.Accepted? ==> payload[..] == was
  {
    hide De64, Stream, Decrypted, KeyBytes, DataFields;
    var pLen := payload.Length;
    var fields := ReadFields(payload, at, exLen);
    if fields.None? { return Overread; }
    var (uname, key, ex) := fields.value;
    var sigLen := KeyBytes(Bits(key));
    if pLen != at + db + sigLen { return Invalid; }
    ghost var plain := payload[..];
    assert plain[..at] == payload[..at] && plain[at..] == payload[at..];
    CryptRange(p, symm, payload, at, at + db - 32);
    EncryptedAgain(p, symm, was, plain, payload[..], at, at + db - 32);
    assert payload[at + db..] == was[at + db..] && payload[..at + db] == was[..at + db];
    if !rsa.verify(key, payload[pLen - sigLen..], payload[..pLen - sigLen]) { return Invalid; }
    r := Accepted(uname, key, ex);
  }

  /** What stands before the encrypted contents: the route, and the prefix with the encrypted keys. */
  function Front(target: Block, kind: byte, block: bytes, contentsLen: nat, sigLen: nat): (r: bytes)
    ensures |r| == 0x3a + |block|
  {
    [0] + target + Be64(Wrap64(0x31 + |block| + contentsLen + sigLen))
      + [kind] + Be64(Wrap64(|block|)) + Be64(Wrap64(contentsLen + 0x20)) + block
  }

  /** send_rsa_message up to the encrypted keys. */
  method WriteFront(pen: Pen, rsa: Rsa, d: Draw, kind: byte, target: Block, pkey: bytes, contentsLen: nat, sigLen: nat)
    returns (ok: bool, ghost block: bytes)
    requires pen.Valid() && pen.written == [] && pen.start == pen.ptr == 0 && |pkey| >= 8
    requires pen.buf.Length >= 0x3a + KeyBytes(Bits(pkey))
    requires var c := rsa.encrypt(pkey, d.encSeed, d.symm + d.hmac); c.Some? ==> |c.value| == KeyBytes(Bits(pkey))
    modifies pen, pen.buf
    ensures pen.Valid() && pen.start == 0
    ensures var c := rsa.encrypt(pkey, d.encSeed, d.symm + d.hmac); ok == c.Some? && (ok ==> block == c.value)
    ensures ok ==> Join(pen.written) == Front(target, kind, block, contentsLen, sigLen) && pen.ptr == 0x3a + |block|
  {
    hide Be64, Wrap64, Join, Pen.Valid, KeyBytes;
    var encbLen := KeyBytes(Bits(pkey));
    JoinOfNone();
    pen.Put([0]);
    pen.Put(target);
    pen.Put(Be64(Wrap64(0x31 + encbLen + contentsLen + sigLen)));
    pen.Put([kind]);
    pen.Put(Be64(Wrap64(encbLen)));
    pen.Put(Be64(Wrap64(contentsLen + 0x20)));
    var c := rsa.encrypt(pkey, d.encSeed, d.symm + d.hmac);
    if c.None? { return false, []; }
    block := c.value;
    pen.Put(c.value);
    ok := true;
    assert [] + [0] == [0];
  }

  lemma JoinOfNone()
    ensures Join([]) == []
  {
  }

  /** The contents, before they are encrypted. */
  method WriteContents(pen: Pen, uname: bytes, key: bytes, ex: bytes)
    requires pen.Valid() && pen.written == [] && pen.ptr + 0x10 + |uname| + |key| + |ex| <= pen.buf.Length
    modifies pen, pen.buf
    ensures pen.Valid() && pen.ptr == old(pen.ptr) + |Contents(uname, key, ex)|
    ensures Join(pen.written) == Contents(uname, key, ex)
  {
    hide Be64, Wrap64, Join, Pen.Valid;
    JoinOfNone();
    pen.Put(Be64(Wrap64(|uname|)));
    pen.Put(Be64(Wrap64(|key|)));
    pen.Put(uname);
    pen.Put(key);
    pen.Put(ex);
    assert [] + Be64(Wrap64(|uname|)) == Be64(Wrap64(|uname|));
  }

  /** The contents are written at `at` and encrypted there. */
  method FillContents(p: Primitives, symm: Block, body: array<byte>, at: nat, uname: bytes, key: bytes, ex: bytes)
    requires at + 0x10 + |uname| + |key| + |ex| <= body.Length
    modifies body
    ensures var n := 0x10 + |uname| + |key| + |ex|;
      body[..at] == old(body[..at]) && body[at..at + n] == Stream(p, symm, 0, 0, Contents(uname, key, ex))
  {
    hide Stream, Contents, Join, Pen.Valid;
    var pen := new Pen(body, at);
    assert pen.before[..at] == body[..at];
    WriteContents(pen, uname, key, ex);
    PenWrote(pen);
    CryptRange(p, symm, body, at, pen.ptr);
  }

  /** Something is written at `at`, and nothing before it changes. */
  method WriteAt(body: array<byte>, at: nat, s: bytes)
    requires at + |s| <= body.Length
    modifies body
    ensures body[..at] == old(body[..at]) && body[at..at + |s|] == s
  {
    hide Join, Pen.Valid;
    var pen := new Pen(body, at);
    assert pen.before[..at] == body[..at];
    pen.Put(s);
    JoinOfOne(s);
    PenWrote(pen);
  }

  /** send_rsa_message: the buffer is filled field by field, its contents are encrypted in place, and the
      MAC and the signature are appended.  The lengths that were added up beforehand fit exactly. */
  method SendMessage(p: Primitives, rsa: Rsa, d: Draw, kind: byte, me: Identity, target: Block, pkey: bytes, ex: bytes)
    returns (r: Option<array<byte>>)
    requires Lawful(rsa, me.priv) && |pkey| >= 8
    requires var c := rsa.encrypt(pkey, d.encSeed, d.symm + d.hmac); c.Some? ==> |c.value| == KeyBytes(Bits(pkey))
    ensures r.Some? == Packed(p, rsa, d, kind, me, pkey, ex).Some?
    ensures r.Some? ==> r.value[..] == R.Letter(target, Packed(p, rsa, d, kind, me, pkey, ex).value)
    ensures r.Some? && r.value.Length < TWO64 ==> Reaches(target, kind, r.value[..])
  {
    hide Be64, De64, Wrap64, Stream, Contents, Signed, Front, KeyBytes, Join, Pen.Valid, R.Letter, LawfulCipher, Reaches;
    var encbLen, sigLen, myLen := KeyBytes(Bits(pkey)), KeyBytes(Bits(me.priv)), rsa.pubSize(Bits(me.priv));
    var n := 0x10 + |me.uname| + myLen + |ex|;
    var body := new byte[0x3a + encbLen + n + 0x20 + sigLen];
    var pen := new Pen(body, 0);
    var ok, block := WriteFront(pen, rsa, d, kind, target, pkey, n, sigLen);
    if !ok { return None; }
    PenWrote(pen);
    assert body[0..pen.ptr] == body[..pen.ptr];
    var sigAt := pen.ptr + n + 0x20;
    FinishBody(p, d, body, target, kind, block, pen.ptr, sigLen, me.uname, rsa.pubOf(me.priv), ex);
    var sig := rsa.sign(me.priv, d.sigSeed, body[0x29..sigAt]);
    assert LawfulSignature(rsa, me.priv, d.sigSeed, body[0x29..sigAt]);
    if sig.None? { return None; }
    WriteSignature(p, d, body, target, kind, block, Contents(me.uname, rsa.pubOf(me.priv), ex), sigAt, sig.value);
    r := Some(body);
    if body.Length < TWO64 {
      BodyReaches(p, rsa, d, kind, me, target, pkey, ex, body[..]);
    }
  }

  /** The server takes these bytes for a letter to `target`, and with a sender's id in place of the target's they get to the
      parser that the kind names. */
  ghost predicate Reaches(target: Block, kind: byte, m: bytes)
    requires |m| < TWO64
  {
    && |m| > 0x29 && m[0] == 0 && m[1..0x21] == target && m[0x21..0x29] == Be64(|m| - 0x29)
    && forall asking, from: Block :: var call := D.Called(asking, [0] + from + m[0x21..]);
         && (kind == 1 ==> call == D.FriendRequest(from, m[0x29..]))
         && (kind == 2 ==> call == D.FriendAnswer(from, m[0x29..]))
  }

  lemma BodyReaches(p: Primitives, rsa: Rsa, d: Draw, kind: byte, me: Identity, target: Block, pkey: bytes, ex: bytes, m: bytes)
    requires Packed(p, rsa, d, kind, me, pkey, ex).Some? && |m| < TWO64
    requires m == R.Letter(target, Packed(p, rsa, d, kind, me, pkey, ex).value)
    ensures Reaches(target, kind, m)
  {
    hide Packed, D.Called, Be64;
    var payload := Packed(p, rsa, d, kind, me, pkey, ex).value;
    PackedKind(p, rsa, d, kind, me, pkey, ex, payload);
    assert m[0x29..] == payload;
    forall asking, from: Block
      ensures var call := D.Called(asking, [0] + from + m[0x21..]);
        && (kind == 1 ==> call == D.FriendRequest(from, m[0x29..]))
        && (kind == 2 ==> call == D.FriendAnswer(from, m[0x29..]))
    {
      PackedReaches(p, rsa, d, kind, me, pkey, ex, payload, asking, from);
      assert [0] + from + m[0x21..] == R.Letter(from, payload);
    }
  }

  method WriteSignature(p: Primitives, d: Draw, body: array<byte>, target: Block, kind: byte, ghost block: bytes,
          ghost contents: bytes, sigAt: nat, sig: bytes)
    requires sigAt == 0x3a + |block| + |contents| + 0x20 && body.Length == sigAt + |sig|
    requires body[..sigAt] == R.Letter(target, Signed(p, d, kind, block, contents) + Zeros(|sig|))[..sigAt]
    modifies body
    ensures body[..] == R.Letter(target, Signed(p, d, kind, block, contents) + sig)
  {
    hide Be64, Wrap64, Stream, Signed, R.Letter;
    ghost var b2 := body[..];
    assert b2[..sigAt] == body[..sigAt];
    WriteAt(body, sigAt, sig);
    ghost var b3 := body[..];
    assert b3[..sigAt] == body[..sigAt] && b3[sigAt..] == body[sigAt..sigAt + |sig|];
    SignatureAppended(p, d, target, kind, block, contents, sig, b2, b3);
  }

  /** Everything between the front and the signature. */
  method FinishBody(p: Primitives, d: Draw, body: array<byte>, target: Block, kind: byte, ghost block: bytes,
          at: nat, ghost sigLen: nat,
                    uname: bytes, key: bytes, ex: bytes)
    requires at == 0x3a + |block| && body.Length == at + 0x10 + |uname| + |key| + |ex| + 0x20 + sigLen
    requires body[..at] == Front(target, kind, block, 0x10 + |uname| + |key| + |ex|, sigLen)
    modifies body
    ensures var signed := Signed(p, d, kind, block, Contents(uname, key, ex));
      && body[0x29..body.Length - sigLen] == signed
      && body[..body.Length - sigLen] == R.Letter(target, signed + Zeros(sigLen))[..body.Length - sigLen]
  {
    hide Be64, Wrap64, Stream, Contents, Signed, Front, R.Letter;
    var macAt := at + 0x10 + |uname| + |key| + |ex|;
    FillContents(p, d.symm, body, at, uname, key, ex);
    ghost var b1, end := body[..], macAt + 0x20;
    assert b1[..at] == body[..at] && b1[at..macAt] == body[at..macAt] && b1[..macAt] == body[..macAt];
    WriteAt(body, macAt, p.hmac(d.hmac, body[at..macAt]));
    ghost var b2 := body[..];
    assert b2[..macAt] == body[..macAt] && b2[macAt..end] == body[macAt..end];
    MacAppended(p, d, target, kind, block, Contents(uname, key, ex), sigLen, b1, b2);
    assert b2[0x29..end] == body[0x29..end] && b2[..end] == body[..end];
  }

  /** The buffer before and after the MAC is written. */
  lemma MacAppended(p: Primitives, d: Draw, target: Block, kind: byte, block: bytes, contents: bytes, sigLen: nat,
          b1: bytes, b2: bytes)
    requires var at, n := 0x3a + |block|, |contents|; var cipher := Stream(p, d.symm, 0, 0, contents);
      && |b1| == |b2| == at + n + 0x20 + sigLen
      && b1[..at] == Front(target, kind, block, n, sigLen) && b1[at..at + n] == cipher
      && b2[..at + n] == b1[..at + n] && b2[at + n..at + n + 0x20] == p.hmac(d.hmac, cipher)
    ensures b2[0x29..|b2| - sigLen] == Signed(p, d, kind, block, contents)
    ensures b2[..|b2| - sigLen] == R.Letter(target, Signed(p, d, kind, block, contents) + Zeros(sigLen))[..|b2| - sigLen]
  {
    hide Be64, Wrap64, Stream;
    var at, n := 0x3a + |block|, |contents|;
    assert b2[..at] == b1[..at + n][..at] == b1[..at] && b2[at..at + n] == b1[at..at + n];
    var end := |b2| - sigLen;
    assert b2[..end] == b2[..at] + b2[at..at + n] + b2[at + n..end];
  }

  /** The buffer before and after the signature is written. */
  lemma SignatureAppended(p: Primitives, d: Draw, target: Block, kind: byte, block: bytes, contents: bytes,
          sig: bytes, b2: bytes, b3: bytes)
    requires var end := 0x3a + |block| + |contents| + 0x20;
      && |b2| == |b3| == end + |sig| && b3[..end] == b2[..end] && b3[end..] == sig
      && b2[..end] == R.Letter(target, Signed(p, d, kind, block, contents) + Zeros(|sig|))[..end]
    ensures b3 == R.Letter(target, Signed(p, d, kind, block, contents) + sig)
  {
    hide Be64, Wrap64, Signed;
    var end := 0x3a + |block| + |contents| + 0x20;
    assert b3 == b3[..end] + b3[end..];
  }
}
