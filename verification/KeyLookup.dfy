/** Asking the server for a user's public key: what the server answers over any run, and what the asker makes
    of the answer before a friend request is sent. */
module KeyLookup {
  import opened Bytes
  import opened Crypto
  import opened Options
  import opened Routing
  import opened HandlerTable
  import D = Dispatch
  import L = UndeliveredLog
  import Q = FriendRequests
  import T = RoutingThreads

  // ----- the asker -----

  /** send_pkey_req. */
  function KeyRequest(uid: Block): (m: bytes)
    ensures |m| == 0x21
  {
    [1] + uid
  }

  datatype Found = NoSuchUser | Key(pkey: bytes) | Refused | TooShort

  /** send_friendreq on the answer, up to the point where the key is shown to the user.  A size that does not agree with
      the length of the message is only logged. */
  function Read(rsa: Q.Rsa, uid: Block, m: bytes): Found {
    if |m| < 0x21 then Refused
    else if m[0] == 0xff then NoSuchUser
    else if |m| < 0x29 || m[1..0x21] != uid then Refused
    else
      var size := rsa.pubSize(De64(m[0x21..0x29]));
      if 0x21 + size > |m| then TooShort else Key(m[0x21..0x21 + size])
  }

  /** A public key in wire form: the number of bits and as much as goes with it. */
  predicate WireKey(rsa: Q.Rsa, key: bytes) {
    |key| >= 8 && |key| == rsa.pubSize(De64(key[..8]))
  }

  /** An answer is read as a key exactly when it names the user and a whole key follows. */
  lemma ReadIff(rsa: Q.Rsa, uid: Block, key: bytes)
    ensures Read(rsa, uid, [1] + uid + key) == Key(key) <==> WireKey(rsa, key)
    ensures Read(rsa, uid, [1] + uid + key) != NoSuchUser
    ensures Read(rsa, uid, [0xff] + uid) == NoSuchUser
    ensures forall other: Block | other != uid :: !Read(rsa, other, [1] + uid + key).Key?
  {
    hide De64;
    var m := [1] + uid + key;
    assert m[1..0x21] == uid && m[0x21..] == key;
    if |key| >= 8 {
      assert m[0x21..0x29] == key[..8];
      var size := rsa.pubSize(De64(key[..8]));
      if 0x21 + size <= |m| {
        assert m[0x21..0x21 + size] == key[..size];
      }
    }
  }

  // ----- the server -----

  /** The answers to one message of a client. */
  function AnswersTo(reg: Registry, m: bytes): seq<bytes> {
    if |m| < 33 || |m| >= TWO64 || m[0] > 1 then []
    else if m[1..33] !in reg then [[0xff] + m[1..33]]
    else if m[0] == 1 then [[1] + m[1..33] + reg[m[1..33]].key]
    else []
  }

  lemma HandledAnswers(p: Primitives, reg: Registry, w: World, from: Block, m: bytes)
    requires FilesPresent(reg, w) && |m| < TWO64
    ensures Handled(p, reg, w, from, m).answers == w.answers + ParcelsTo(from, AnswersTo(reg, m))
    ensures |m| >= 33 && m[0] == 1 ==> Handled(p, reg, w, from, m).(answers := w.answers) == w
  {
    hide Room, Forwarded, Letter;
    OutcomeIff(reg, m);
    match Parse(reg, m)
    case Deliver(to, payload) => ForwardedAnswers(p, reg, w, Parcel(to, Letter(from, payload)));
    case NotFound(id) =>
    case KeyOf(id) =>
    case _ =>
  }

  lemma ForwardedAnswers(p: Primitives, reg: Registry, w: World, x: Parcel)
    requires x.to in reg && x.to in w.files
    ensures Forwarded(p, reg, w, x).answers == w.answers
  {
    hide L.AfterAdd;
  }

  /** What the messages of one client are answered with over a run, in order. */
  function AnswersOver(reg: Registry, u: Block, ops: seq<Operation>): seq<bytes> {
    if ops == [] then [] else
    var op := ops[|ops| - 1];
    AnswersOver(reg, u, ops[..|ops| - 1]) + if op.Message? && op.from == u then AnswersTo(reg, op.m) else []
  }

  /** Over every run each client gets, in order, the answers to its own messages and no others. */
  lemma {:induction false} AnswersAreOwn(p: Primitives, reg: Registry, ops: seq<Operation>, u: Block)
    ensures For(u, Operations(p, reg, ops).answers) == AnswersOver(reg, u, ops)
  {
    hide For, AnswersTo, Handled, LoggedIn;
    if ops == [] {
      NothingAnswered(u);
    } else {
      var w, op := Operations(p, reg, ops[..|ops| - 1]), ops[|ops| - 1];
      AnswersAreOwn(p, reg, ops[..|ops| - 1], u);
      assert For(u, w.answers) + [] == For(u, w.answers);
      match op
      case Message(from, m) =>
        if |m| < TWO64 {
          HandledAnswers(p, reg, w, from, m);
          ForParcels(u, w.answers, from, AnswersTo(reg, m));
        } else {
          TooLong(reg, m);
        }
      case Login(h) => LoggedInAnswers(p, reg, w, h);
      case Logout(v) =>
    }
  }

  lemma TooLong(reg: Registry, m: bytes)
    requires |m| >= TWO64
    ensures AnswersTo(reg, m) == []
  {
  }

  lemma NothingAnswered(u: Block)
    ensures For(u, []) == []
  {
  }

  lemma LoggedInAnswers(p: Primitives, reg: Registry, w: World, h: Handler)
    requires FilesPresent(reg, w)
    ensures LoggedIn(p, reg, w, h).answers == w.answers
  {
    hide L.Load, L.Canonical, ParcelsTo;
  }

  /** After any run, a request for a key brings the asker one more answer and changes nothing else: no other client's
      answers, nobody's letters, no file.  The asker reads the key that is registered for the user, or that there
      is no such user exactly when nobody is registered under the id. */
  lemma AskerLearnsKey(p: Primitives, rsa: Q.Rsa, reg: Registry, ops: seq<Operation>, u: Block, id: Block) returns (x: bytes)
    ensures var w, next := Operations(p, reg, ops), Operations(p, reg, ops + [Message(u, KeyRequest(id))]);
      && next.(answers := w.answers) == w
      && next.answers == w.answers + [Parcel(u, x)]
      && For(u, next.answers) == For(u, w.answers) + [x]
      && (forall v | v != u :: For(v, next.answers) == For(v, w.answers))
    ensures Read(rsa, id, x) == NoSuchUser <==> id !in reg
    ensures id in reg && WireKey(rsa, reg[id].key) ==> Read(rsa, id, x) == Key(reg[id].key)
    ensures |x| < TWO64 ==> D.Called(true, x) == D.KeyAnswer(x)
  {
    hide For, Handled, Read, WireKey;
    var w, m := Operations(p, reg, ops), KeyRequest(id);
    assert (ops + [Message(u, m)])[..|ops|] == ops;
    assert m[1..33] == id;
    x := AnswersTo(reg, m)[0];
    HandledAnswers(p, reg, w, u, m);
    assert ParcelsTo(u, AnswersTo(reg, m)) == [Parcel(u, x)];
    ReadIff(rsa, id, if id in reg then reg[id].key else []);
    forall v
      ensures For(v, w.answers + [Parcel(u, x)]) == For(v, w.answers) + if v == u then [x] else []
    {
      ForSnoc(v, w.answers, Parcel(u, x));
    }
  }

  /** The same when the request comes to one of many client threads. */
  lemma AskerLearnsKeyInSteps(p: Primitives, rsa: Q.Rsa, reg: Registry, run: seq<T.Step>, i: nat, id: Block) returns (x: bytes)
    requires i < |T.Run(p, reg, run).threads| && T.Run(p, reg, run).threads[i].job.Idle?
    ensures var s, next := T.Run(p, reg, run), T.Run(p, reg, run + [T.Receive(i, KeyRequest(id))]);
      && next.threads == s.threads && next.world.(answers := s.world.answers) == s.world
      && next.world.answers == s.world.answers + [Parcel(s.threads[i].id, x)]
    ensures Read(rsa, id, x) == NoSuchUser <==> id !in reg
    ensures id in reg && WireKey(rsa, reg[id].key) ==> Read(rsa, id, x) == Key(reg[id].key)
  {
    hide Read, WireKey, T.Run;
    var m := KeyRequest(id);
    assert m[1..33] == id;
    x := AnswersTo(reg, m)[0];
    T.RunOneMore(p, reg, run, T.Receive(i, m));
    OutcomeIff(reg, m);
    assert Parse(reg, m) == if id in reg then KeyOf(id) else NotFound(id);
    ReadIff(rsa, id, if id in reg then reg[id].key else []);
  }

  // ----- and then the request -----

  /** From the question to the request: the asker reads the target's public key off the answer, packs a request
      under it, and the server passes it on as a letter; it reaches the target's parser and is accepted with the
      asker's name and key. */
  lemma RequestIsAccepted(p: Primitives, rsa: Q.Rsa, reg: Registry, ops: seq<Operation>, asker: Q.Identity, u: Block,
          id: Block, priv: bytes, d: Q.Draw, x: bytes, payload: bytes)
    requires Q.Lawful(rsa, asker.priv) && Q.Lawful(rsa, priv) && Q.KeyBytes(Q.Bits(asker.priv)) > 0
    requires id in reg && reg[id].key == rsa.pubOf(priv)
    requires var w, next := Operations(p, reg, ops), Operations(p, reg, ops + [Message(u, KeyRequest(id))]);
      For(u, next.answers) == For(u, w.answers) + [x]
    requires Read(rsa, id, x).Key? ==> Q.Packed(p, rsa, d, 1, asker, Read(rsa, id, x).pkey, []) == Some(payload)
    requires |payload| + 0x29 < TWO64
    ensures Read(rsa, id, x) == Key(rsa.pubOf(priv))
    ensures Parse(reg, Letter(id, payload)) == Deliver(id, payload)
    ensures Q.Requested(p, rsa, priv, Letter(u, payload)) == Some(Q.Accepted(asker.uname, rsa.pubOf(asker.priv), []))
  {
    hide For, Operations, Read, Parse, Q.Parse, Q.Packed, Q.KeyBytes, Letter, D.Called;
    var y := AskerLearnsKey(p, rsa, reg, ops, u, id);
    LastAgrees(For(u, Operations(p, reg, ops).answers), x, y);
    assert WireKey(rsa, rsa.pubOf(priv));
    DeliverIffLetter(reg, Letter(id, payload), id, payload);
    Q.PackedReaches(p, rsa, d, 1, asker, rsa.pubOf(priv), [], payload, false, u);
    Q.PackedIsParsed(p, rsa, d, 1, asker, priv, [], payload);
  }

  lemma LastAgrees(s: seq<bytes>, x: bytes, y: bytes)
    requires s + [x] == s + [y]
    ensures x == y
  {
    assert (s + [x])[|s|] == (s + [y])[|s|];
  }
}
