/** What the client's background thread makes of a message from the server: the switches of background_thread
    and add_umessage. */
module Dispatch {
  import opened Bytes
  import opened Options
  import opened Routing

  /** Who is called, with what.  Broken is an answer other than 0, which ends the thread. */
  datatype Call =
    | ConvMessage(sender: Block, payload: bytes)
    | FriendRequest(sender: Block, payload: bytes)
    | FriendAnswer(sender: Block, payload: bytes)
    | KeyAnswer(m: bytes)
    | Nothing
    | Broken
    | Overread

  /** add_umessage: the sender and the payload of a letter whose length field is right. */
  function Opened(letter: bytes): Option<(Block, bytes)> {
    if |letter| < 0x29 || letter[0] != 0 || Wrap64(De64(letter[0x21..0x29]) + 0x29) != |letter| then None
    else Some((letter[1..0x21], letter[0x29..]))
  }

  lemma LetterIsOpened(from: Block, payload: bytes)
    requires |payload| + 0x29 < TWO64
    ensures Opened(Letter(from, payload)) == Some((from, payload))
  {
    hide Be64, De64;
    var m := Letter(from, payload);
    assert m[1..0x21] == from && m[0x21..0x29] == Be64(|payload|) && m[0x29..] == payload;
    DeBe64(|payload|);
  }

  lemma OpenedIsLetter(m: bytes, from: Block, payload: bytes)
    requires |m| < TWO64 && Opened(m) == Some((from, payload))
    ensures m == Letter(from, payload)
  {
    hide Be64, De64;
    assert m == m[..1] + m[1..0x21] + m[0x21..0x29] + m[0x29..];
  }

  /** The switch on the first byte, and for a letter the one on the first byte of its payload, which is read before the
      length is checked.  `asking` says whether a request for a key is waiting for its answer. */
  function Called(asking: bool, m: bytes): Call
    requires |m| < TWO64
  {
    if m == [] then Call.Overread else
    match m[0]
    case 0 =>
      if |m| < 0x2a then Call.Overread else
      (match Opened(m)
       case None => Broken
       case Some((sender, payload)) =>
         match m[0x29]
         case 0 => ConvMessage(sender, payload)
         case 1 => FriendRequest(sender, payload)
         case 2 => FriendAnswer(sender, payload)
         case _ => Nothing)
    case 1 => if asking then KeyAnswer(m) else Broken
    case 0xff => if asking then KeyAnswer(m) else Broken
    case _ => Nothing
  }

  /** A letter goes where the first byte of its payload says, with the sender's id and the whole payload. */
  lemma LetterReaches(asking: bool, from: Block, payload: bytes)
    requires payload != [] && |payload| + 0x29 < TWO64
    ensures var call := Called(asking, Letter(from, payload));
      && (payload[0] == 0 ==> call == ConvMessage(from, payload))
      && (payload[0] == 1 ==> call == FriendRequest(from, payload))
      && (payload[0] == 2 ==> call == FriendAnswer(from, payload))
      && (payload[0] > 2 ==> call == Nothing)
  {
    hide Opened, Be64;
    LetterIsOpened(from, payload);
    assert Letter(from, payload)[0x29] == payload[0];
  }

  /** And nothing but a letter gets there. */
  lemma ReachedIff(asking: bool, m: bytes, from: Block, payload: bytes)
    requires |m| < TWO64
    ensures Called(asking, m) == ConvMessage(from, payload) <==> payload != [] && payload[0] == 0 && m == Letter(from, payload)
    ensures Called(asking, m) == FriendRequest(from, payload) <==> payload != [] && payload[0] == 1 && m == Letter(from, payload)
    ensures Called(asking, m) == FriendAnswer(from, payload) <==> payload != [] && payload[0] == 2 && m == Letter(from, payload)
  {
    hide Opened, Letter;
    if m == Letter(from, payload) && payload != [] {
      LetterReaches(asking, from, payload);
    }
    if |m| >= 0x2a && m[0] == 0 && Opened(m) == Some((from, payload)) {
      OpenedIsLetter(m, from, payload);
      OpenedPayload(m);
    }
  }

  lemma OpenedPayload(m: bytes)
    requires |m| >= 0x2a && Opened(m).Some?
    ensures Opened(m).value.1 == m[0x29..] && m[0x29..][0] == m[0x29]
  {
    hide De64;
  }
}
