/** The encryption layer between a connection and its callers: each side counts its messages, seals
    them, and opens what the other side sealed. */
module SecureChannel {
  import opened Bytes
  import opened Crypto
  import opened MessageQueue
  import opened Options
  import Connection
  import Duplex

  /** What travels: the nonce, the encrypted text, and a MAC over both. */
  function Seal(p: Primitives, k: Keys, nonce: uint64, text: bytes): (r: bytes)
    ensures |r| == |text| + 40
  {
    var b := Be64(nonce) + Stream(p, k.symm, nonce, 0, text);
    b + p.hmac(k.hmac, b)
  }

  /** encrypt_message. */
  function Sealed(p: Primitives, k: Keys, nonce: uint64, text: bytes): Message {
    Message(nonce, Seal(p, k, nonce, text))
  }

  /** decrypt_message into a buffer that has room for all of the text. */
  function Open(p: Primitives, k: Keys, body: bytes): Option<bytes> {
    if |body| < 40 || p.hmac(k.hmac, body[..|body| - 32]) != body[|body| - 32..] then None else
    Some(Stream(p, k.symm, De64(body[..8]), 0, body[8..|body| - 32]))
  }

  /** The messages of one direction, each under some nonce. */
  function SealedAll(p: Primitives, k: Keys, nonces: seq<uint64>, texts: seq<bytes>): (r: seq<Message>)
    requires |nonces| == |texts|
    ensures |r| == |texts|
    ensures forall i | 0 <= i < |texts| :: r[i] == Sealed(p, k, nonces[i], texts[i])
  {
    seq(|texts|, i requires 0 <= i < |texts| => Sealed(p, k, nonces[i], texts[i]))
  }

  function OpenAll(p: Primitives, k: Keys, ms: seq<Message>): Option<seq<bytes>> {
    if ms == [] then Some([]) else
    match OpenAll(p, k, ms[..|ms| - 1])
    case None => None
    case Some(texts) =>
      match Open(p, k, ms[|ms| - 1].body)
      case None => None
      case Some(text) => Some(texts + [text])
  }

  /** What opens as a text is exactly what was sealed over that text, under some nonce. */
  lemma OpenIffSealed(p: Primitives, k: Keys, body: bytes, text: bytes)
    ensures Open(p, k, body) == Some(text) <==> exists nonce :: body == Seal(p, k, nonce, text)
  {
    hide De64, Be64, Stream;
    if Open(p, k, body) == Some(text) {
      var nonce := De64(body[..8]);
      StreamTwice(p, k.symm, nonce, 0, body[8..|body| - 32]);
      assert body == body[..8] + body[8..|body| - 32] + body[|body| - 32..];
      assert body[..|body| - 32] == body[..8] + body[8..|body| - 32];
      assert body == Seal(p, k, nonce, text);
    }
    if nonce :| body == Seal(p, k, nonce, text) {
      SealedIsOpened(p, k, nonce, text);
    }
  }

  lemma SealedIsOpened(p: Primitives, k: Keys, nonce: uint64, text: bytes)
    ensures Open(p, k, Seal(p, k, nonce, text)) == Some(text)
  {
    hide De64, Be64, Stream;
    var body, cipher := Seal(p, k, nonce, text), Stream(p, k.symm, nonce, 0, text);
    DeBe64(nonce);
    StreamTwice(p, k.symm, nonce, 0, text);
    assert body[..8] == Be64(nonce) && body[8..|body| - 32] == cipher;
    assert body[..|body| - 32] == Be64(nonce) + cipher;
  }

  lemma {:induction false} SealedAreOpened(p: Primitives, k: Keys, nonces: seq<uint64>, texts: seq<bytes>)
    requires |nonces| == |texts|
    ensures OpenAll(p, k, SealedAll(p, k, nonces, texts)) == Some(texts)
    decreases |texts|
  {
    hide Open, Seal;
    if texts != [] {
      var n := |texts| - 1;
      SealedAreOpened(p, k, nonces[..n], texts[..n]);
      assert SealedAll(p, k, nonces, texts)[..n] == SealedAll(p, k, nonces[..n], texts[..n]);
      SealedIsOpened(p, k, nonces[n], texts[n]);
      assert texts == texts[..n] + [texts[n]];
    }
  }

  /** A sealed text byte for byte: the nonce, the text under the keystream of that nonce, and a MAC over both. */
  lemma SealIff(p: Primitives, k: Keys, nonce: uint64, text: bytes, body: bytes)
    ensures body == Seal(p, k, nonce, text) <==>
      && |body| == 8 + |text| + 32
      && body[..8] == Be64(nonce)
      && Stream(p, k.symm, nonce, 0, body[8..|body| - 32]) == text
      && body[|body| - 32..] == p.hmac(k.hmac, body[..|body| - 32])
  {
    hide Be64, Stream;
    if |body| == 8 + |text| + 32 {
      var a, b := body[..8], body[8..|body| - 32];
      StreamTwice(p, k.symm, nonce, 0, b);
      StreamTwice(p, k.symm, nonce, 0, text);
      assert body[..|body| - 32] == a + b && body == a + b + body[|body| - 32..];
      var x := Be64(nonce) + Stream(p, k.symm, nonce, 0, text);
      assert x[..8] == Be64(nonce) && x[8..] == Stream(p, k.symm, nonce, 0, text);
      var y := x + p.hmac(k.hmac, x);
      assert y[..|y| - 32] == x && y[|y| - 32..] == p.hmac(k.hmac, x);
    }
  }

  // ----- keys -----

  /** The bytes of a key buffer that expand_keyset gives to one direction: the even thirty-twos belong
      to what the client sends, the odd ones to what the server sends. */
  function ClientKeys(keybuf: bytes): Keys
    requires |keybuf| == 0x80
  {
    Keys(keybuf[..0x20], keybuf[0x40..0x60])
  }

  function ServerKeys(keybuf: bytes): Keys
    requires |keybuf| == 0x80
  {
    Keys(keybuf[0x20..0x40], keybuf[0x60..])
  }

  /** The four keys are the four quarters of the buffer: no byte of it goes into two of them, and none into none. */
  lemma KeysAreQuarters(a: Block, b: Block, c: Block, d: Block)
    ensures var keybuf := a + b + c + d;
      |keybuf| == 0x80 && ClientKeys(keybuf) == Keys(a, c) && ServerKeys(keybuf) == Keys(b, d)
  {
    var keybuf := a + b + c + d;
    assert keybuf[..0x20] == a && keybuf[0x20..0x40] == b && keybuf[0x40..0x60] == c && keybuf[0x60..] == d;
  }

  /** One side's keyset. */
  class Keyset {
    var nonce: uint64
    var sendSymm: Block
    var recvSymm: Block
    var sendHmac: Block
    var recvHmac: Block

    function SendKeys(): Keys
      reads this
    {
      Keys(sendSymm, sendHmac)
    }

    function RecvKeys(): Keys
      reads this
    {
      Keys(recvSymm, recvHmac)
    }

    /** expand_keyset: type 0 is a client, type 1 a server; any other type changes nothing. */
    method Expand(keybuf: bytes, kind: int) returns (ok: bool)
      requires |keybuf| == 0x80
      modifies this
      ensures nonce == old(nonce) && ok == (kind in {0, 1})
      ensures kind == 0 ==> SendKeys() == ClientKeys(keybuf) && RecvKeys() == ServerKeys(keybuf)
      ensures kind == 0 ==> keybuf == sendSymm + recvSymm + sendHmac + recvHmac
      ensures kind == 1 ==> keybuf == recvSymm + sendSymm + recvHmac + sendHmac
      ensures kind == 1 ==> SendKeys() == ServerKeys(keybuf) && RecvKeys() == ClientKeys(keybuf)
      ensures !ok ==> SendKeys() == old(SendKeys()) && RecvKeys() == old(RecvKeys())
    {
      ok := true;
      if kind == 0 {
        sendSymm, recvSymm := keybuf[..0x20], keybuf[0x20..0x40];
        sendHmac, recvHmac := keybuf[0x40..0x60], keybuf[0x60..];
      } else if kind == 1 {
        recvSymm, sendSymm := keybuf[..0x20], keybuf[0x20..0x40];
        recvHmac, sendHmac := keybuf[0x40..0x60], keybuf[0x60..];
      } else {
        ok := false;
      }
    }

    /** send_message: the text is sealed under the current nonce and queued, and the nonce moves on. */
    method Send(p: Primitives, con: Connection.Handle, text: bytes)
      requires con.Valid() && |text| + 40 < TWO64
      modifies this`nonce, con`pipe, con.outQueue, con.outQueue.elements
      ensures con.Valid() && nonce == Wrap64(old(nonce) + 1) && con.pipe == old(con.pipe) + 1
      ensures con.outQueue.Contents() == old(con.outQueue.Contents()) + [Sealed(p, SendKeys(), old(nonce), text)]
    {
      hide Stream, Wrap64;
      var head := Be64(nonce) + Stream(p, sendSymm, nonce, 0, text);
      var m := Message(nonce, head + p.hmac(sendHmac, head));
      var next: int := nonce;
      nonce := Wrap64(next + 1);
      con.AddMessage(m);
    }

    /** recv_message, which waits as get_message does: a message that does not open is taken as well. */
    method Receive(p: Primitives, con: Connection.Handle, start: uint64, timeout: uint64, killed: bool,
                   waits: seq<Connection.Wait>)
      returns (r: Option<bytes>)
      requires con.Valid()
      modifies con.inQueue, con.inQueue.elements
      ensures con.Valid()
      ensures var (reply, left) := Connection.Awaited(old(con.inQueue.Contents()), start, start, killed, timeout, waits);
        && con.inQueue.Contents() == left
        && r == if reply.Taken? then Open(p, RecvKeys(), reply.m.body) else None
    {
      hide Stream, De64, Connection.Awaited;
      var reply := con.GetMessage(start, timeout, killed, waits);
      r := None;
      if reply.Taken? {
        var body := reply.m.body;
        if |body| >= 40 && p.hmac(recvHmac, body[..|body| - 32]) == body[|body| - 32..] {
          r := Some(Stream(p, recvSymm, De64(body[..8]), 0, body[8..|body| - 32]));
        }
      }
    }
  }

  // ----- the channel -----

  /** What one side handed over: the messages of the handshake, and then sealed texts only. */
  predicate Speaks(p: Primitives, side: Duplex.Endpoint, hello: seq<Message>, k: Keys, nonces: seq<uint64>,
          texts: seq<bytes>) {
    |nonces| == |texts| && side.submitted == hello + SealedAll(p, k, nonces, texts)
  }

  /** What the other side's callers took after the handshake opens, all of it, as the first texts sent. */
  predicate Hears(p: Primitives, side: Duplex.Endpoint, hello: seq<Message>, k: Keys, texts: seq<bytes>) {
    var n := |side.delivered| - |hello|;
    n >= 0 ==> n <= |texts| && OpenAll(p, k, side.delivered[|hello|..]) == Some(texts[..n])
  }

  lemma HearsWhatIsSpoken(p: Primitives, speaker: Duplex.Endpoint, listener: Duplex.Endpoint,
                          hello: seq<Message>, k: Keys, nonces: seq<uint64>, texts: seq<bytes>)
    requires Speaks(p, speaker, hello, k, nonces, texts) && listener.delivered <= speaker.submitted
    ensures Hears(p, listener, hello, k, texts)
  {
    hide Sealed, Open;
    var heard, n := listener.delivered, |listener.delivered| - |hello|;
    if n >= 0 {
      assert heard[|hello|..] == SealedAll(p, k, nonces, texts)[..n];
      assert SealedAll(p, k, nonces, texts)[..n] == SealedAll(p, k, nonces[..n], texts[..n]);
      SealedAreOpened(p, k, nonces[..n], texts[..n]);
    }
  }

  /** Over every run of a connection between a client and a server that expanded the same key buffer,
      each side reads exactly a prefix of the texts the other side sent, whatever the network does with
      the bytes, however the two sides and their callers are interleaved, and under whatever nonces the
      texts were sealed. */
  lemma ChannelCarriesPrefix(p: Primitives, run: Duplex.Schedule, s: Duplex.System, keybuf: bytes,
                             clientHello: seq<Message>, clientTexts: seq<bytes>, clientNonces: seq<uint64>,
                             serverHello: seq<Message>, serverTexts: seq<bytes>, serverNonces: seq<uint64>)
    requires s == Duplex.Run(p, run) && |keybuf| == 0x80
    requires Speaks(p, s.a, clientHello, ClientKeys(keybuf), clientNonces, clientTexts)
    requires Speaks(p, s.b, serverHello, ServerKeys(keybuf), serverNonces, serverTexts)
    ensures Hears(p, s.b, clientHello, ClientKeys(keybuf), clientTexts)
    ensures Hears(p, s.a, serverHello, ServerKeys(keybuf), serverTexts)
  {
    hide Speaks, Hears, Duplex.Run, ClientKeys, ServerKeys;
    Duplex.DeliveredIsPrefix(p, run);
    HearsWhatIsSpoken(p, s.a, s.b, clientHello, ClientKeys(keybuf), clientNonces, clientTexts);
    HearsWhatIsSpoken(p, s.b, s.a, serverHello, ServerKeys(keybuf), serverNonces, serverTexts);
  }
}
