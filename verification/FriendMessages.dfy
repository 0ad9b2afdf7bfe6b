/** Messages between friends: sealed under a pair's own keys and numbered, so that a receiver can tell
    what is new however the server passes them on. */
module FriendMessages {
  import opened Bytes
  import opened Crypto
  import opened Options
  import D = Dispatch
  import R = Routing

  // ----- the format -----

  /** What the MAC of a message covers. */
  function Body(p: Primitives, k: Keys, tag: byte, nonce: uint64, text: bytes): (r: bytes)
    ensures |r| == 0x11 + |text|
  {
    [tag] + Be64(nonce) + Be64(Wrap64(|text|)) + Stream(p, k.symm, nonce, 0, text)
  }

  function Payload(p: Primitives, k: Keys, tag: byte, nonce: uint64, text: bytes): (r: bytes)
    ensures |r| == 0x31 + |text|
  {
    Body(p, k, tag, nonce, text) + p.hmac(k.hmac, Body(p, k, tag, nonce, text))
  }

  /** gen_uid: the hash of a user name with the NUL that ends it. */
  function Uid(p: Primitives, uname: bytes): Block {
    p.sha(uname + [0])
  }

  datatype Verdict = Accepted(text: bytes) | Invalid | Overread

  /** The number a payload claims, when its length field is right. */
  function Claimed(payload: bytes): Option<uint64>
    requires |payload| < TWO64
  {
    if |payload| < 0x11 || |payload| != Wrap64(0x31 + De64(payload[9..0x11])) then None
    else Some(De64(payload[1..9]))
  }

  predicate MacHolds(p: Primitives, k: Keys, payload: bytes) {
    |payload| >= 0x20 && p.hmac(k.hmac, payload[..|payload| - 0x20]) == payload[|payload| - 0x20..]
  }

  /** parse_conv_message_payload: the number seen last afterwards, and what becomes of the payload.
      A length field that only fits because the sum wraps leads outside the payload. */
  function Judged(p: Primitives, k: Keys, last: uint64, payload: bytes): (uint64, Verdict)
    requires |payload| < TWO64
  {
    match Claimed(payload)
    case None => (last, Invalid)
    case Some(nonce) =>
      if nonce <= last then (last, Invalid)
      else if |payload| < 0x20 then (nonce, Overread)
      else if !MacHolds(p, k, payload) then (nonce, Invalid)
      else if |payload| < 0x31 then (nonce, Overread)
      else (nonce, Accepted(Stream(p, k.symm, nonce, 0, payload[0x11..|payload| - 0x20])))
  }

  lemma PayloadParts(p: Primitives, k: Keys, tag: byte, nonce: uint64, text: bytes)
    requires |text| + 0x31 < TWO64
    ensures var pl := Payload(p, k, tag, nonce, text);
      && pl[0] == tag && pl[1..9] == Be64(nonce) && pl[9..0x11] == Be64(|text|)
      && pl[0x11..|pl| - 0x20] == Stream(p, k.symm, nonce, 0, text)
      && MacHolds(p, k, pl) && Claimed(pl) == Some(nonce)
  {
    hide De64, Be64, Stream;
    var pl := Payload(p, k, tag, nonce, text);
    assert pl[..|pl| - 0x20] == Body(p, k, tag, nonce, text);
    assert pl[1..9] == Be64(nonce) && pl[9..0x11] == Be64(|text|);
    DeBe64(nonce);
    DeBe64(|text|);
  }

  /** A message from a friend reaches parse_conv_message, whoever the server says that it is from. */
  lemma SealedReachesConversation(p: Primitives, k: Keys, asking: bool, from: Block, nonce: uint64, text: bytes)
    requires |text| + 0x5a < TWO64
    ensures var sealed := Payload(p, k, 0, nonce, text);
      D.Called(asking, R.Letter(from, sealed)) == D.ConvMessage(from, sealed)
  {
    hide Payload, D.Called, R.Letter;
    PayloadParts(p, k, 0, nonce, text);
    D.LetterReaches(asking, from, Payload(p, k, 0, nonce, text));
  }

  /** A payload is accepted exactly when it is a whole message under these keys with a number that is
      greater than the last one; its text and number are then the ones that were sealed. */
  lemma AcceptedIff(p: Primitives, k: Keys, last: uint64, payload: bytes, nonce: uint64, text: bytes)
    requires |payload| < TWO64
    ensures Judged(p, k, last, payload) == (nonce, Accepted(text))
       <==> nonce > last && exists tag :: payload == Payload(p, k, tag, nonce, text)
  {
    hide Be64, De64, Stream, Payload;
    if Judged(p, k, last, payload) == (nonce, Accepted(text)) {
      AcceptedIsPayload(p, k, last, payload, nonce, text);
    }
    if nonce > last && exists tag :: payload == Payload(p, k, tag, nonce, text) {
      var tag :| payload == Payload(p, k, tag, nonce, text);
      PayloadJudged(p, k, last, tag, nonce, text);
    }
  }

  /** What becomes of a friend's message depends on its number alone. */
  lemma PayloadJudged(p: Primitives, k: Keys, last: uint64, tag: byte, nonce: uint64, text: bytes)
    requires |text| + 0x31 < TWO64
    ensures Judged(p, k, last, Payload(p, k, tag, nonce, text)) == if nonce > last then (nonce, Accepted(text)) else (last, Invalid)
  {
    hide Be64, De64, Stream, Payload, MacHolds, Claimed;
    PayloadParts(p, k, tag, nonce, text);
    StreamTwice(p, k.symm, nonce, 0, text);
  }

  lemma AcceptedIsPayload(p: Primitives, k: Keys, last: uint64, payload: bytes, nonce: uint64, text: bytes)
    requires |payload| < TWO64 && Judged(p, k, last, payload) == (nonce, Accepted(text))
    ensures nonce > last && payload == Payload(p, k, payload[0], nonce, text)
  {
    hide Be64, De64, Stream;
    var mlen, n := De64(payload[9..0x11]), |payload| - 0x20;
    LengthFits(mlen, |payload|);
    StreamTwice(p, k.symm, nonce, 0, payload[0x11..n]);
    assert payload[..n] == [payload[0]] + payload[1..9] + payload[9..0x11] + payload[0x11..n];
    assert payload == payload[..n] + payload[n..];
  }

  lemma LengthFits(mlen: uint64, len: uint64)
    requires len == Wrap64(0x31 + mlen) && len >= 0x31
    ensures mlen == len - 0x31
  {
  }

  /** What the server makes of a letter to `uid`: the sender's id instead. */
  lemma SendReaches(p: Primitives, k: Keys, uid: Block, nonce: uint64, text: bytes)
    requires |text| + 0x5a < TWO64
    ensures var m := R.Letter(uid, Payload(p, k, 0, nonce, text));
      |m| == 0x5a + |text| &&
      forall asking, from: Block :: D.Called(asking, [0] + from + m[0x21..]) == D.ConvMessage(from, m[0x29..])
  {
    hide Payload, D.Called, Be64;
    var sealed := Payload(p, k, 0, nonce, text);
    var m := R.Letter(uid, sealed);
    forall asking, from: Block
      ensures D.Called(asking, [0] + from + m[0x21..]) == D.ConvMessage(from, m[0x29..])
    {
      SealedReachesConversation(p, k, asking, from, nonce, text);
      assert m[0x29..] == sealed && [0] + from + m[0x21..] == R.Letter(from, sealed);
    }
  }

  // ----- the two ends -----

  /** One side's record of a friend: the keys and the counters. */
  class Friend {
    const sendKeys: Keys
    const recvKeys: Keys
    var sNonce: uint64
    var rNonce: uint64

    constructor (sendKeys: Keys, recvKeys: Keys)
      ensures this.sendKeys == sendKeys && this.recvKeys == recvKeys && sNonce == rNonce == 0
    {
      this.sendKeys, this.recvKeys := sendKeys, recvKeys;
      sNonce, rNonce := 0, 0;
    }

    /** cmessage_send_server: the counter moves on even when it has run out and nothing is sent. */
    method Send(p: Primitives, uid: Block, text: bytes) returns (r: Option<bytes>)
      requires |text| + 0x5a < TWO64
      modifies this`sNonce
      ensures sNonce == Wrap64(old(sNonce) + 1)
      ensures r == if sNonce == 0 then None else Some(R.Letter(uid, Payload(p, sendKeys, 0, sNonce, text)))
      ensures r.Some? ==> |r.value| == 0x5a + |text| && forall asking, from: Block ::
        D.Called(asking, [0] + from + r.value[0x21..]) == D.ConvMessage(from, r.value[0x29..])
    {
      hide Be64, Stream, D.Called;
      SendReaches(p, sendKeys, uid, Wrap64(sNonce as int + 1), text);
      var n: int := sNonce;
      sNonce := Wrap64(n + 1);
      if sNonce == 0 {
        return None;
      }
      var mlen := |text|;
      var head := [0] + uid + Be64(0x31 + mlen);
      var body := [0] + Be64(sNonce) + Be64(mlen) + Stream(p, sendKeys.symm, sNonce, 0, text);
      return Some(head + (body + p.hmac(sendKeys.hmac, body)));
    }

    /** parse_conv_message_payload. */
    method Receive(p: Primitives, payload: bytes) returns (v: Verdict)
      requires |payload| < TWO64
      modifies this`rNonce
      ensures (rNonce, v) == Judged(p, recvKeys, old(rNonce), payload)
    {
      hide De64, Stream;
      var plen := |payload|;
      if plen < 0x11 {
        return Invalid;
      }
      var mlen: int := De64(payload[9..0x11]);
      if plen != Wrap64(0x31 + mlen) {
        return Invalid;
      }
      var nonce := De64(payload[1..9]);
      if nonce <= rNonce {
        return Invalid;
      }
      rNonce := nonce;
      if plen < 0x20 {
        return Overread;
      }
      if p.hmac(recvKeys.hmac, payload[..plen - 0x20]) != payload[plen - 0x20..] {
        return Invalid;
      }
      if plen < 0x31 {
        return Overread;
      }
      return Accepted(Stream(p, recvKeys.symm, nonce, 0, payload[0x11..plen - 0x20]));
    }
  }

  // ----- runs -----

  /** What a friend whose counter stood at `from` sends for these texts, until the counter runs out. */
  function Sent(p: Primitives, k: Keys, from: nat, texts: seq<bytes>): (r: seq<bytes>)
    requires from + |texts| < TWO64
    ensures |r| == |texts|
  {
    seq(|texts|, i requires 0 <= i < |texts| => Payload(p, k, 0, from + 1 + i, texts[i]))
  }

  datatype Taken = Taken(nonce: uint64, text: bytes)

  /** The receiver over any course of payloads: the number seen last, and what was accepted. */
  function Inbox(p: Primitives, k: Keys, last: uint64, arrived: seq<bytes>): (uint64, seq<Taken>)
    requires forall a | a in arrived :: |a| < TWO64
  {
    if arrived == [] then (last, []) else
    var n := |arrived| - 1;
    var (l, taken) := Inbox(p, k, last, arrived[..n]);
    var (l', v) := Judged(p, k, l, arrived[n]);
    (l', if v.Accepted? then taken + [Taken(l', v.text)] else taken)
  }

  function Texts(taken: seq<Taken>): (r: seq<bytes>)
    ensures |r| == |taken|
  {
    seq(|taken|, i requires 0 <= i < |taken| => taken[i].text)
  }

  /** What the server can hand over: payloads of the friend, any of them any number of times in any
      order, and anything else whose MAC does not hold. */
  predicate Delivered(p: Primitives, k: Keys, sent: seq<bytes>, arrived: seq<bytes>) {
    forall a | a in arrived :: |a| < TWO64 && (a in sent || !MacHolds(p, k, a))
  }

  /** The texts that were taken are texts that were sent, each under its number, with increasing numbers. */
  predicate Genuine(from: nat, texts: seq<bytes>, last: uint64, taken: seq<Taken>) {
    && (forall i | 0 <= i < |taken| :: from < taken[i].nonce <= from + |texts| && taken[i].text == texts[taken[i].nonce - from - 1])
    && (forall i, j | 0 <= i < j < |taken| :: taken[i].nonce < taken[j].nonce)
    && (forall i | 0 <= i < |taken| :: taken[i].nonce <= last)
  }

  lemma SentIsOne(p: Primitives, k: Keys, from: nat, texts: seq<bytes>, a: bytes) returns (i: nat)
    requires from + |texts| < TWO64 && a in Sent(p, k, from, texts)
    ensures i < |texts| && a == Payload(p, k, 0, from + 1 + i, texts[i])
  {
    hide Payload;
    i :| 0 <= i < |texts| && Sent(p, k, from, texts)[i] == a;
  }

  lemma JudgedGrows(p: Primitives, k: Keys, last: uint64, payload: bytes)
    requires |payload| < TWO64
    ensures var (l, v) := Judged(p, k, last, payload);
      && (l == if Claimed(payload).Some? && Claimed(payload).value > last then Claimed(payload).value else last)
      && (v.Accepted? ==> l > last && MacHolds(p, k, payload))
  {
    hide De64, Stream;
  }

  /** What is accepted of a delivery is a text that was sent, under its own number. */
  lemma TakenWasSent(p: Primitives, k: Keys, from: nat, texts: seq<bytes>, last: uint64, a: bytes, nonce: uint64,
          text: bytes)
    requires from + |texts| < TWO64 && |a| < TWO64 && (a in Sent(p, k, from, texts) || !MacHolds(p, k, a))
    requires forall t | t in texts :: |t| + 0x31 < TWO64
    requires Judged(p, k, last, a) == (nonce, Accepted(text))
    ensures from < nonce <= from + |texts| && text == texts[nonce - from - 1]
  {
    hide Payload, Judged, MacHolds, Sent;
    JudgedGrows(p, k, last, a);
    var i := SentIsOne(p, k, from, texts, a);
    AcceptedIff(p, k, last, a, nonce, text);
    OneNumber(p, k, a, 0, from + 1 + i, texts[i], nonce, text);
  }

  lemma GenuineSnoc(from: nat, texts: seq<bytes>, l: uint64, taken: seq<Taken>, nonce: uint64, text: bytes)
    requires Genuine(from, texts, l, taken) && nonce > l
    requires from < nonce <= from + |texts| && text == texts[nonce - from - 1]
    ensures Genuine(from, texts, nonce, taken + [Taken(nonce, text)])
  {
  }

  lemma {:induction false} InboxIsGenuine(p: Primitives, k: Keys, from: nat, texts: seq<bytes>, last: uint64,
          arrived: seq<bytes>)
    requires from + |texts| < TWO64 && Delivered(p, k, Sent(p, k, from, texts), arrived)
    requires forall t | t in texts :: |t| + 0x31 < TWO64
    ensures var (l, taken) := Inbox(p, k, last, arrived); Genuine(from, texts, l, taken)
    decreases |arrived|
  {
    hide Payload, Judged, MacHolds, Sent, Claimed;
    if arrived != [] {
      var n := |arrived| - 1;
      var a := arrived[n];
      var (l, taken) := Inbox(p, k, last, arrived[..n]);
      InboxIsGenuine(p, k, from, texts, last, arrived[..n]);
      JudgedGrows(p, k, l, a);
      var (l', v) := Judged(p, k, l, a);
      if v.Accepted? {
        TakenWasSent(p, k, from, texts, l, a, l', v.text);
        GenuineSnoc(from, texts, l, taken, l', v.text);
      }
    }
  }

  /** A payload has one number and one text. */
  lemma OneNumber(p: Primitives, k: Keys, a: bytes, tag: byte, nonce: uint64, text: bytes, nonce': uint64, text': bytes)
    requires |text| + 0x31 < TWO64 && |a| < TWO64
    requires a == Payload(p, k, tag, nonce, text) && exists tag' :: a == Payload(p, k, tag', nonce', text')
    ensures nonce == nonce' && text == text'
  {
    hide Payload, Stream, Be64, De64, MacHolds, Claimed;
    var tag' :| a == Payload(p, k, tag', nonce', text');
    PayloadParts(p, k, tag, nonce, text);
    PayloadParts(p, k, tag', nonce', text');
    StreamTwice(p, k.symm, nonce, 0, text);
    StreamTwice(p, k.symm, nonce, 0, text');
  }

  /** `a` is `b` with some elements left out. */
  predicate Subsequence(a: seq<bytes>, b: seq<bytes>) {
    if a == [] then true
    else if b == [] then false
    else if a[|a| - 1] == b[|b| - 1] && Subsequence(a[..|a| - 1], b[..|b| - 1]) then true
    else Subsequence(a, b[..|b| - 1])
  }

  lemma {:induction false} IncreasingIsSubsequence(from: nat, texts: seq<bytes>, last: uint64, taken: seq<Taken>)
    requires Genuine(from, texts, last, taken)
    ensures Subsequence(Texts(taken), texts)
    decreases |texts|
  {
    if taken != [] {
      var m, n := |taken| - 1, |texts| - 1;
      assert Texts(taken)[..m] == Texts(taken[..m]);
      if taken[m].nonce == from + |texts| {
        IncreasingIsSubsequence(from, texts[..n], last, taken[..m]);
      } else {
        IncreasingIsSubsequence(from, texts[..n], last, taken);
      }
    }
  }

  /** Whatever the server drops, repeats, reorders or makes up without the MAC key, what a client accepts
      from a friend is, in order and without repetition, some of what the friend sent. */
  lemma AcceptedIsSubsequence(p: Primitives, k: Keys, from: nat, texts: seq<bytes>, last: uint64, arrived: seq<bytes>)
    requires from + |texts| < TWO64 && Delivered(p, k, Sent(p, k, from, texts), arrived)
    requires forall t | t in texts :: |t| + 0x31 < TWO64
    ensures Subsequence(Texts(Inbox(p, k, last, arrived).1), texts)
  {
    hide Sent, Judged;
    InboxIsGenuine(p, k, from, texts, last, arrived);
    var (l, taken) := Inbox(p, k, last, arrived);
    IncreasingIsSubsequence(from, texts, l, taken);
  }

  /** The number seen last is the greatest number that any payload with a right length field claimed:
      a payload that is refused for its MAC counts as well. */
  lemma {:induction false} LastIsGreatestClaim(p: Primitives, k: Keys, last: uint64, arrived: seq<bytes>)
    requires forall a | a in arrived :: |a| < TWO64
    ensures var l := Inbox(p, k, last, arrived).0;
      && last <= l && (forall a | a in arrived :: Claimed(a).Some? ==> Claimed(a).value <= l)
      && (l == last || exists a | a in arrived :: Claimed(a) == Some(l))
    decreases |arrived|
  {
    hide Judged, Claimed;
    if arrived != [] {
      var n := |arrived| - 1;
      LastIsGreatestClaim(p, k, last, arrived[..n]);
      JudgedGrows(p, k, Inbox(p, k, last, arrived[..n]).0, arrived[n]);
      assert arrived == arrived[..n] + [arrived[n]];
    }
  }

  /** A friend's message is accepted exactly when its number is greater than every number claimed before
      it in a payload with a right length field, genuine or not, and than the one seen last. */
  lemma GenuineAcceptedIff(p: Primitives, k: Keys, last: uint64, arrived: seq<bytes>, nonce: uint64, text: bytes)
    requires (forall a | a in arrived :: |a| < TWO64) && |text| + 0x31 < TWO64
    ensures var (_, taken) := Inbox(p, k, last, arrived);
      Inbox(p, k, last, arrived + [Payload(p, k, 0, nonce, text)]).1 == taken + [Taken(nonce, text)]
      <==> nonce > last && forall a | a in arrived :: Claimed(a).Some? ==> Claimed(a).value < nonce
  {
    hide Judged, Claimed, Payload;
    var a := Payload(p, k, 0, nonce, text);
    assert (arrived + [a])[..|arrived|] == arrived;
    LastIsGreatestClaim(p, k, last, arrived);
    var (l, taken) := Inbox(p, k, last, arrived);
    PayloadJudged(p, k, l, 0, nonce, text);
    assert |taken| < |taken + [Taken(nonce, text)]|;
  }

  /** What one payload adds to what was taken. */
  function TookOne(p: Primitives, k: Keys, last: uint64, payload: bytes): seq<Taken>
    requires |payload| < TWO64
  {
    var (l, v) := Judged(p, k, last, payload);
    if v.Accepted? then [Taken(l, v.text)] else []
  }

  predicate AllFit(arrived: seq<bytes>) {
    forall i | 0 <= i < |arrived| :: |arrived[i]| < TWO64
  }

  lemma InboxSnoc(p: Primitives, k: Keys, last: uint64, arrived: seq<bytes>, x: bytes)
    requires AllFit(arrived) && |x| < TWO64
    ensures AllFit(arrived + [x])
    ensures var (l, taken) := Inbox(p, k, last, arrived);
      Inbox(p, k, last, arrived + [x]) == (Judged(p, k, l, x).0, taken + TookOne(p, k, l, x))
  {
    hide Judged;
    assert (arrived + [x])[..|arrived|] == arrived;
    assert Inbox(p, k, last, arrived).1 + [] == Inbox(p, k, last, arrived).1;
  }

  lemma {:induction false} InboxAppend(p: Primitives, k: Keys, last: uint64, a: seq<bytes>, b: seq<bytes>)
    requires AllFit(a) && AllFit(b)
    ensures AllFit(a + b)
    ensures var (l, taken) := Inbox(p, k, last, a); var (l', more) := Inbox(p, k, l, b);
      Inbox(p, k, last, a + b) == (l', taken + more)
    decreases |b|
  {
    hide Judged, TookOne;
    if b == [] {
      assert a + b == a;
      assert Inbox(p, k, last, a).1 + [] == Inbox(p, k, last, a).1;
    } else {
      var n := |b| - 1;
      InboxAppend(p, k, last, a, b[..n]);
      assert b == b[..n] + [b[n]] && a + b == (a + b[..n]) + [b[n]];
      InboxSnoc(p, k, last, a + b[..n], b[n]);
      InboxSnoc(p, k, Inbox(p, k, last, a).0, b[..n], b[n]);
      hide Inbox;
      var (l, taken) := Inbox(p, k, last, a);
      var (l', more) := Inbox(p, k, l, b[..n]);
      assert (taken + more) + TookOne(p, k, l', b[n]) == taken + (more + TookOne(p, k, l', b[n]));
    }
  }

  lemma NothingIsGreater(p: Primitives, k: Keys, x: bytes)
    requires |x| < TWO64
    ensures Judged(p, k, TWO64 - 1, x) == (TWO64 - 1, Invalid)
  {
    hide Claimed;
  }

  /** Once the greatest number has been claimed, nothing is accepted any more. */
  lemma {:induction false} NothingAfterTheGreatest(p: Primitives, k: Keys, arrived: seq<bytes>)
    requires forall a | a in arrived :: |a| < TWO64
    ensures Inbox(p, k, TWO64 - 1, arrived) == (TWO64 - 1, [])
    decreases |arrived|
  {
    hide Judged;
    if arrived != [] {
      var n := |arrived| - 1;
      NothingAfterTheGreatest(p, k, arrived[..n]);
      NothingIsGreater(p, k, arrived[n]);
    }
  }

  /** A payload of the right length that claims a number and carries a MAC that does not hold. */
  function Forged(p: Primitives, k: Keys, nonce: uint64): (r: bytes)
    ensures |r| == 0x31
  {
    var mac := p.hmac(k.hmac, Body(p, k, 0, nonce, []));
    Body(p, k, 0, nonce, []) + mac[0 := if mac[0] == 0 then 1 else 0]
  }

  lemma ForgedIsRefused(p: Primitives, k: Keys, last: uint64, nonce: uint64)
    ensures !MacHolds(p, k, Forged(p, k, nonce)) && Claimed(Forged(p, k, nonce)) == Some(nonce)
    ensures nonce > last ==> Judged(p, k, last, Forged(p, k, nonce)) == (nonce, Invalid)
  {
    hide De64, Be64, Stream;
    var pl, mac := Forged(p, k, nonce), p.hmac(k.hmac, Body(p, k, 0, nonce, []));
    assert pl[..0x11] == Body(p, k, 0, nonce, []) && pl[0x11..][0] != mac[0];
    assert pl[1..9] == Be64(nonce) && pl[9..0x11] == Be64(0);
    DeBe64(nonce);
    DeBe64(0);
  }

  /** One payload without the key, and whatever the friend sends afterwards is refused, although the next
      message would have been accepted. */
  lemma OneForgeryShutsTheInbox(p: Primitives, k: Keys, last: uint64, nonce: uint64, text: bytes, arrived: seq<bytes>)
    requires last < nonce < TWO64 - 1 && |text| + 0x31 < TWO64 && forall a | a in arrived :: |a| < TWO64
    ensures !MacHolds(p, k, Forged(p, k, TWO64 - 1))
    ensures Inbox(p, k, last, [Payload(p, k, 0, nonce, text)]).1 == [Taken(nonce, text)]
    ensures Inbox(p, k, last, [Forged(p, k, TWO64 - 1)] + arrived) == (TWO64 - 1, [])
  {
    hide Payload, Judged, Forged, MacHolds, Claimed, Inbox;
    ForgedIsRefused(p, k, last, TWO64 - 1);
    PayloadJudged(p, k, last, 0, nonce, text);
    InboxOne(p, k, last, Payload(p, k, 0, nonce, text));
    var fake := [Forged(p, k, TWO64 - 1)];
    InboxOne(p, k, last, fake[0]);
    assert Inbox(p, k, last, fake) == (TWO64 - 1, []);
    InboxAppend(p, k, last, fake, arrived);
    NothingAfterTheGreatest(p, k, arrived);
    assert [] + Inbox(p, k, TWO64 - 1, arrived).1 == [];
  }

  lemma InboxOne(p: Primitives, k: Keys, last: uint64, x: bytes)
    requires |x| < TWO64
    ensures Inbox(p, k, last, [x]) == (Judged(p, k, last, x).0, TookOne(p, k, last, x))
  {
    hide Judged, TookOne;
    InboxSnoc(p, k, last, [], x);
    assert [] + [x] == [x] && [] + TookOne(p, k, last, x) == TookOne(p, k, last, x);
  }

  lemma TextsAppend(a: seq<Taken>, b: seq<Taken>)
    ensures Texts(a + b) == Texts(a) + Texts(b)
  {
  }

  lemma SentSnoc(p: Primitives, k: Keys, from: nat, texts: seq<bytes>, text: bytes)
    requires from + |texts| + 1 < TWO64
    ensures Sent(p, k, from, texts + [text]) == Sent(p, k, from, texts) + [Payload(p, k, 0, from + 1 + |texts|, text)]
  {
    hide Payload;
  }

  lemma TakeOne(taken: seq<Taken>, nonce: uint64, text: bytes)
    ensures Texts(taken + [Taken(nonce, text)]) == Texts(taken) + [text]
    ensures Texts(taken + []) == Texts(taken) && Texts(taken) + [] == Texts(taken)
  {
    TextsAppend(taken, [Taken(nonce, text)]);
    assert taken + [] == taken;
  }

  /** When everything a friend sends arrives in order, everything is accepted. */
  lemma {:induction false} LosslessIsComplete(p: Primitives, k: Keys, from: uint64, texts: seq<bytes>)
    requires from + |texts| < TWO64 && forall t | t in texts :: |t| + 0x31 < TWO64
    ensures forall a | a in Sent(p, k, from, texts) :: |a| < TWO64
    ensures Inbox(p, k, from, Sent(p, k, from, texts)).0 == from + |texts|
    ensures Texts(Inbox(p, k, from, Sent(p, k, from, texts)).1) == texts
    decreases |texts|
  {
    hide Judged, Payload, Inbox, Sent, Texts;
    if texts == [] {
      NothingArrives(p, k, from);
    } else {
      var n := |texts| - 1;
      var front, sent := texts[..n], Sent(p, k, from, texts[..n]);
      assert texts == front + [texts[n]];
      LosslessIsComplete(p, k, from, front);
      SentSnoc(p, k, from, front, texts[n]);
      InboxSnoc(p, k, from, sent, Payload(p, k, 0, from + 1 + n, texts[n]));
      PayloadJudged(p, k, from + n, 0, from + 1 + n, texts[n]);
      TakeOne(Inbox(p, k, from, sent).1, from + 1 + n, texts[n]);
    }
  }

  lemma NothingArrives(p: Primitives, k: Keys, from: uint64)
    ensures Sent(p, k, from, []) == [] && Inbox(p, k, from, []) == (from, []) && Texts([]) == []
  {
  }
}
