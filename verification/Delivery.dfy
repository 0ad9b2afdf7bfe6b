/** A friend's messages from end to end: sealed by the sender, passed on or stored by the server, and
    judged by the receiver. */
module Delivery {
  import opened Bytes
  import opened Crypto
  import opened Options
  import opened Dispatch
  import opened Routing
  import M = FriendMessages
  import L = UndeliveredLog
  import O = RoutingOrder
  import T = RoutingThreads
  import Turns = RoutingTurns

  /** The payload of one letter, if it is a message from `from`. */
  function PayloadFrom(from: Block, letter: bytes): seq<bytes> {
    if |letter| >= TWO64 then [] else
    match Called(false, letter)
    case ConvMessage(id, payload) => if id == from then [payload] else []
    case _ => []
  }

  /** What a client is given as messages from one friend, in order. */
  function PayloadsFrom(from: Block, letters: seq<bytes>): seq<bytes> {
    if letters == [] then [] else
    PayloadsFrom(from, letters[..|letters| - 1]) + PayloadFrom(from, letters[|letters| - 1])
  }

  lemma {:induction false} PayloadsAppend(from: Block, a: seq<bytes>, b: seq<bytes>)
    ensures PayloadsFrom(from, a + b) == PayloadsFrom(from, a) + PayloadsFrom(from, b)
    decreases |b|
  {
    hide PayloadFrom, PayloadsFrom;
    if b == [] {
      assert a + b == a;
      PayloadsOfNone(from);
      assert PayloadsFrom(from, a) + [] == PayloadsFrom(from, a);
    } else {
      var n := |b| - 1;
      PayloadsAppend(from, a, b[..n]);
      assert b == b[..n] + [b[n]] && a + b == (a + b[..n]) + [b[n]];
      PayloadsSnoc(from, b[..n], b[n]);
      PayloadsSnoc(from, a + b[..n], b[n]);
    }
  }

  lemma PayloadsOfNone(from: Block)
    ensures PayloadsFrom(from, []) == []
  {
  }

  lemma {:induction false} PayloadMember(from: Block, letters: seq<bytes>, payload: bytes)
    ensures payload in PayloadsFrom(from, letters) <==> exists m :: m in letters && payload in PayloadFrom(from, m)
    decreases |letters|
  {
    hide PayloadFrom;
    if letters != [] {
      var n := |letters| - 1;
      PayloadMember(from, letters[..n], payload);
      assert letters == letters[..n] + [letters[n]];
    }
  }

  lemma PayloadsSnoc(from: Block, letters: seq<bytes>, m: bytes)
    ensures PayloadsFrom(from, letters + [m]) == PayloadsFrom(from, letters) + PayloadFrom(from, m)
  {
    hide PayloadFrom;
    assert (letters + [m])[..|letters|] == letters;
  }

  // ----- what was posted -----

  /** The payload of one request of `from`, if it is a message for `b` that came from `a`. */
  function Post(reg: Registry, a: Block, b: Block, from: Block, m: bytes): seq<bytes>
    requires |m| < TWO64
  {
    match Parse(reg, m)
    case Deliver(to, payload) => if from == a && to == b && payload != [] && payload[0] == 0 then [payload] else []
    case _ => []
  }

  /** A friend's message to a registered user counts as posted. */
  lemma SealedIsPosted(p: Primitives, reg: Registry, a: Block, b: Block, k: Keys, nonce: uint64, text: bytes)
    requires b in reg && |text| + 0x5a < TWO64
    ensures var sealed := M.Payload(p, k, 0, nonce, text); Post(reg, a, b, a, Letter(b, sealed)) == [sealed]
  {
    hide Parse, Letter, M.Payload;
    var sealed := M.Payload(p, k, 0, nonce, text);
    DeliverIffLetter(reg, Letter(b, sealed), b, sealed);
    M.PayloadParts(p, k, 0, nonce, text);
  }

  /** What `a` sent to `b` as messages over a run of operations. */
  function Posted(reg: Registry, a: Block, b: Block, ops: seq<Operation>): seq<bytes> {
    if ops == [] then [] else
    var op := ops[|ops| - 1];
    Posted(reg, a, b, ops[..|ops| - 1]) + if op.Message? && |op.m| < TWO64 then Post(reg, a, b, op.from, op.m) else []
  }

  /** No file grows past what can be addressed. */
  predicate AllFit(p: Primitives, reg: Registry, ops: seq<Operation>) {
    ops == [] ||
    (AllFit(p, reg, ops[..|ops| - 1]) && Fits(reg, Operations(p, reg, ops[..|ops| - 1]), ops[|ops| - 1]))
  }

  predicate Fits(reg: Registry, w: World, op: Operation)
    requires FilesPresent(reg, w)
  {
    op.Message? && |op.m| < TWO64 ==>
      match Parse(reg, op.m)
      case Deliver(to, _) => to in w.online || Room(w.files[to])
      case _ => true
  }

  lemma LetterIsFrom(a: Block, from: Block, payload: bytes)
    requires |payload| + 0x29 < TWO64
    ensures PayloadFrom(a, Letter(from, payload)) == if from == a && payload != [] && payload[0] == 0 then [payload] else []
  {
    hide Called, Letter, Opened;
    if payload == [] {
      EmptyLetter(from);
    } else {
      LetterReaches(false, from, payload);
    }
  }

  lemma EmptyLetter(from: Block)
    ensures Called(false, Letter(from, [])) == Call.Overread
  {
    hide Be64;
  }

  /** A letter that the server accepts carries the id of the client that sent it. */
  lemma AcceptedLetter(reg: Registry, w: World, a: Block, b: Block, from: Block, m: bytes, to: Block, payload: bytes)
    requires |m| < TWO64 && Parse(reg, m) == Deliver(to, payload)
    ensures PayloadsFrom(a, For(b, w.accepted + [Parcel(to, Letter(from, payload))]))
         == PayloadsFrom(a, For(b, w.accepted)) + Post(reg, a, b, from, m)
  {
    hide For, Letter, PayloadsFrom, Parse, Called;
    DeliverIffLetter(reg, m, to, payload);
    LetterIsFrom(a, from, payload);
    ForSnoc(b, w.accepted, Parcel(to, Letter(from, payload)));
    PayloadsSnoc(a, For(b, w.accepted), Letter(from, payload));
    assert For(b, w.accepted) + [] == For(b, w.accepted);
    assert PayloadsFrom(a, For(b, w.accepted)) + [] == PayloadsFrom(a, For(b, w.accepted));
  }

  /** What is accepted for `b` as messages from `a` is what `a` sent to `b`, in order. */
  lemma {:induction false} AcceptedIsPosted(p: Primitives, reg: Registry, ops: seq<Operation>, a: Block, b: Block)
    requires AllFit(p, reg, ops)
    ensures PayloadsFrom(a, For(b, Operations(p, reg, ops).accepted)) == Posted(reg, a, b, ops)
  {
    hide For, Letter, PayloadsFrom, Parse, Room, Store, L.Load, L.Canonical;
    if ops == [] {
      NothingFor(a, b);
    } else {
      var w, op := Operations(p, reg, ops[..|ops| - 1]), ops[|ops| - 1];
      AcceptedIsPosted(p, reg, ops[..|ops| - 1], a, b);
      OperationAccepts(p, reg, w, op, a, b);
    }
  }

  lemma OperationAccepts(p: Primitives, reg: Registry, w: World, op: Operation, a: Block, b: Block)
    requires FilesPresent(reg, w) && Fits(reg, w, op)
    ensures PayloadsFrom(a, For(b, Operate(p, reg, w, op).accepted)) ==
      PayloadsFrom(a, For(b, w.accepted)) + if op.Message? && |op.m| < TWO64 then Post(reg, a, b, op.from, op.m) else []
  {
    hide For, Letter, PayloadsFrom, Parse, Room, L.Load, L.Canonical, L.AfterAdd;
    var before := PayloadsFrom(a, For(b, w.accepted));
    assert before + [] == before;
    if op.Message? && |op.m| < TWO64 {
      match Parse(reg, op.m)
      case Deliver(to, payload) => {
        DeliverIffLetter(reg, op.m, to, payload);
        AcceptedLetter(reg, w, a, b, op.from, op.m, to, payload);
      }
      case _ =>
    }
  }

  lemma NothingFor(a: Block, b: Block)
    ensures PayloadsFrom(a, For(b, [])) == []
  {
  }

  /** The same over a run of steps of many threads. */
  function PostedBySteps(p: Primitives, reg: Registry, a: Block, b: Block, run: seq<T.Step>): seq<bytes> {
    if run == [] then [] else
    var s, step := T.Run(p, reg, run[..|run| - 1]), run[|run| - 1];
    PostedBySteps(p, reg, a, b, run[..|run| - 1]) +
      if step.Receive? && step.i < |s.threads| && s.threads[step.i].job.Idle? && |step.m| < TWO64
      then Post(reg, a, b, s.threads[step.i].id, step.m) else []
  }

  lemma {:induction false} AcceptedIsPostedBySteps(p: Primitives, reg: Registry, run: seq<T.Step>, a: Block, b: Block)
    ensures PayloadsFrom(a, For(b, T.Run(p, reg, run).world.accepted)) == PostedBySteps(p, reg, a, b, run)
  {
    hide For, Letter, PayloadsFrom, Parse, Room, L.Load, L.Canonical, L.AfterAdd, Post;
    if run == [] {
      NothingFor(a, b);
    } else {
      var s, step := T.Run(p, reg, run[..|run| - 1]), run[|run| - 1];
      AcceptedIsPostedBySteps(p, reg, run[..|run| - 1], a, b);
      StepAccepts(p, reg, s, step, a, b);
    }
  }

  lemma StepAccepts(p: Primitives, reg: Registry, s: T.State, step: T.Step, a: Block, b: Block)
    requires FilesPresent(reg, s.world)
    ensures PayloadsFrom(a, For(b, T.Apply(p, reg, s, step).world.accepted)) ==
      PayloadsFrom(a, For(b, s.world.accepted)) +
      if step.Receive? && step.i < |s.threads| && s.threads[step.i].job.Idle? && |step.m| < TWO64
      then Post(reg, a, b, s.threads[step.i].id, step.m) else []
  {
    hide For, Letter, PayloadsFrom, Parse, Room, L.Load, L.Canonical, L.AfterAdd;
    var before := PayloadsFrom(a, For(b, s.world.accepted));
    assert before + [] == before;
    if step.Receive? && step.i < |s.threads| && s.threads[step.i].job.Idle? && |step.m| < TWO64 {
      match Parse(reg, step.m)
      case Deliver(to, payload) =>
        AcceptedLetter(reg, s.world, a, b, s.threads[step.i].id, step.m, to, payload);
      case _ =>
    }
  }

  /** A run in which `a` sends these texts to `b` and nothing else happens. */
  function Course(p: Primitives, k: Keys, a: Block, b: Block, texts: seq<bytes>): (ops: seq<Operation>)
    requires |texts| < TWO64
    ensures |ops| == |texts|
  {
    seq(|texts|, i requires 0 <= i < |texts| => Message(a, Letter(b, M.Payload(p, k, 0, 1 + i, texts[i]))))
  }

  /** So for all texts there is a run of the kind that the theorems below speak of. */
  lemma {:induction false} CourseIsPosted(p: Primitives, reg: Registry, a: Block, b: Block, k: Keys, texts: seq<bytes>)
    requires b in reg && |texts| < TWO64 && forall t | t in texts :: |t| + 0x5a < TWO64
    ensures Posted(reg, a, b, Course(p, k, a, b, texts)) == M.Sent(p, k, 0, texts)
    decreases |texts|
  {
    hide Post, Course, Letter, M.Sent, M.Payload;
    if texts != [] {
      var n := |texts| - 1;
      CourseIsPosted(p, reg, a, b, k, texts[..n]);
      CourseMore(p, k, a, b, texts);
      assert texts[n] in texts;
      SealedIsPosted(p, reg, a, b, k, 1 + n, texts[n]);
      SealedFits(p, k, b, 1 + n, texts[n]);
    } else {
      NothingPosted(p, reg, a, b, k);
    }
  }

  lemma NothingPosted(p: Primitives, reg: Registry, a: Block, b: Block, k: Keys)
    ensures Posted(reg, a, b, Course(p, k, a, b, [])) == M.Sent(p, k, 0, [])
  {
  }

  lemma CourseMore(p: Primitives, k: Keys, a: Block, b: Block, texts: seq<bytes>)
    requires 0 < |texts| < TWO64
    ensures var n := |texts| - 1; var sealed := M.Payload(p, k, 0, 1 + n, texts[n]);
      && Course(p, k, a, b, texts)[..n] == Course(p, k, a, b, texts[..n])
      && Course(p, k, a, b, texts)[n] == Message(a, Letter(b, sealed))
      && M.Sent(p, k, 0, texts) == M.Sent(p, k, 0, texts[..n]) + [sealed]
  {
    hide Letter, M.Payload;
  }

  lemma SealedFits(p: Primitives, k: Keys, b: Block, nonce: uint64, text: bytes)
    ensures |Letter(b, M.Payload(p, k, 0, nonce, text))| == 0x5a + |text|
  {
  }

  // ----- end to end -----

  lemma SentFits(p: Primitives, k: Keys, texts: seq<bytes>)
    requires |texts| < TWO64 && forall t | t in texts :: |t| + 0x31 < TWO64
    ensures forall a | a in M.Sent(p, k, 0, texts) :: |a| < TWO64
  {
    M.LosslessIsComplete(p, k, 0, texts);
  }

  lemma SentPrefix(p: Primitives, k: Keys, texts: seq<bytes>, n: nat)
    requires |texts| < TWO64 && n <= |texts|
    ensures M.Sent(p, k, 0, texts)[..n] == M.Sent(p, k, 0, texts[..n])
  {
    hide M.Payload;
  }

  /** Letters handed over in order are heard in order. */
  lemma PrefixIsHeard(p: Primitives, a: Block, k: Keys, texts: seq<bytes>, accepted: seq<bytes>, handed: seq<bytes>)
    requires |texts| < TWO64 && forall t | t in texts :: |t| + 0x31 < TWO64
    requires handed <= accepted && PayloadsFrom(a, accepted) == M.Sent(p, k, 0, texts)
    ensures var got := PayloadsFrom(a, handed);
      && |got| <= |texts| && (forall x | x in got :: |x| < TWO64)
      && M.Texts(M.Inbox(p, k, 0, got).1) == texts[..|got|]
      && PayloadsFrom(a, accepted) == got + PayloadsFrom(a, accepted[|handed|..])
  {
    hide M.Sent, M.Inbox, M.Texts, PayloadsFrom;
    var got := PayloadsFrom(a, handed);
    assert accepted == handed + accepted[|handed|..];
    PayloadsAppend(a, handed, accepted[|handed|..]);
    assert got == M.Sent(p, k, 0, texts)[..|got|];
    SentPrefix(p, k, texts, |got|);
    SentFits(p, k, texts[..|got|]);
    M.LosslessIsComplete(p, k, 0, texts[..|got|]);
  }

  /** When each operation of the server is done at once, the receiver's client accepts exactly the first
      texts that a friend sent, as many as were handed over, and all of them once the receiver is logged
      in; whoever else sends what, and whoever comes and goes. */
  lemma FriendIsHeardInOrder(p: Primitives, reg: Registry, ops: seq<Operation>, w: World, a: Block, b: Block,
          k: Keys, texts: seq<bytes>)
    requires w == Operations(p, reg, ops) && b in reg
    requires |texts| < TWO64 && forall t | t in texts :: |t| + 0x31 < TWO64
    requires AllFit(p, reg, ops) && Posted(reg, a, b, ops) == M.Sent(p, k, 0, texts)
    ensures var got := PayloadsFrom(a, For(b, w.handed));
      && |got| <= |texts| && (forall x | x in got :: |x| < TWO64)
      && M.Texts(M.Inbox(p, k, 0, got).1) == texts[..|got|]
      && (b in w.online ==> |got| == |texts|)
  {
    hide Operations, AllFit, Posted, For, Logged, M.Sent, M.Inbox, M.Texts, PayloadsFrom, FilesSound;
    AcceptedIsPosted(p, reg, ops, a, b);
    OperationsKeepOrder(p, reg, ops);
    assert InOrder(p, reg, w, b);
    PrefixIsHeard(p, a, k, texts, For(b, w.accepted), For(b, w.handed));
    if b in w.online {
      NothingFrom(a);
      assert For(b, w.accepted)[|For(b, w.handed)|..] == [];
    }
  }

  /** The same while many client threads are interleaved, as long as no step overtakes. */
  lemma FriendIsHeardInSteps(p: Primitives, reg: Registry, run: seq<T.Step>, w: World, a: Block, b: Block, k: Keys,
          texts: seq<bytes>)
    requires w == T.Run(p, reg, run).world && b in reg && !O.Overtaken(p, reg, b, run)
    requires |texts| < TWO64 && forall t | t in texts :: |t| + 0x31 < TWO64
    requires PostedBySteps(p, reg, a, b, run) == M.Sent(p, k, 0, texts)
    ensures var got := PayloadsFrom(a, For(b, w.handed));
      && |got| <= |texts| && (forall x | x in got :: |x| < TWO64)
      && M.Texts(M.Inbox(p, k, 0, got).1) == texts[..|got|]
  {
    hide T.Run, PostedBySteps, For, Logged, M.Sent, M.Inbox, M.Texts, PayloadsFrom, O.Overtaken, T.InHands;
    AcceptedIsPostedBySteps(p, reg, run, a, b);
    O.OrderOfLetters(p, reg, b, run);
    PrefixIsHeard(p, a, k, texts, For(b, w.accepted), For(b, w.handed));
  }

  /** And while deliveries to the receiver and the receiver's logins take turns; all of the texts are heard once
      the receiver is there and nothing is under way. */
  lemma FriendIsHeardInTurns(p: Primitives, reg: Registry, run: seq<T.Step>, w: World, a: Block, b: Block, k: Keys,
          texts: seq<bytes>)
    requires w == T.Run(p, reg, run).world && b in reg && !Turns.Meddled(p, reg, b, run)
    requires |texts| < TWO64 && forall t | t in texts :: |t| + 0x31 < TWO64
    requires PostedBySteps(p, reg, a, b, run) == M.Sent(p, k, 0, texts)
    ensures var got := PayloadsFrom(a, For(b, w.handed));
      && |got| <= |texts| && (forall x | x in got :: |x| < TWO64)
      && M.Texts(M.Inbox(p, k, 0, got).1) == texts[..|got|]
      && (b in w.online && !Turns.Busy(T.Run(p, reg, run), b) ==> |got| == |texts|)
  {
    hide *;
    Turns.TurnsKeepOrder(p, reg, b, run);
    FriendIsHeardInSteps(p, reg, run, w, a, b, k, texts);
    if b in w.online && !Turns.Busy(T.Run(p, reg, run), b) {
      Turns.TurnsDeliverAll(p, reg, b, run);
      AcceptedIsPostedBySteps(p, reg, run, a, b);
    }
  }

  lemma NothingFrom(a: Block)
    ensures PayloadsFrom(a, []) == []
  {
  }

  /** And when the operations of many client threads are interleaved, what the receiver's client accepts
      is still, in order and without repetition, some of what the friend sent. */
  lemma FriendIsNeverMisheard(p: Primitives, reg: Registry, run: seq<T.Step>, w: World, a: Block, b: Block, k: Keys,
          texts: seq<bytes>)
    requires w == T.Run(p, reg, run).world && b in reg
    requires |texts| < TWO64 && forall t | t in texts :: |t| + 0x31 < TWO64
    requires PostedBySteps(p, reg, a, b, run) == M.Sent(p, k, 0, texts)
    ensures var got := PayloadsFrom(a, For(b, w.handed));
      (forall x | x in got :: |x| < TWO64) && M.Subsequence(M.Texts(M.Inbox(p, k, 0, got).1), texts)
  {
    hide T.Run, PostedBySteps, For, Logged, M.Sent, M.Inbox, M.Texts, PayloadsFrom, PayloadFrom, FilesSound, T.InHands, M.MacHolds,
      M.Subsequence;
    var got := PayloadsFrom(a, For(b, w.handed));
    AcceptedIsPostedBySteps(p, reg, run, a, b);
    T.NothingLostOrDuplicated(p, reg, run);
    assert T.Conserved(p, reg, T.Run(p, reg, run), b);
    SentFits(p, k, texts);
    forall x | x in got
      ensures x in M.Sent(p, k, 0, texts)
    {
      HandedWasAccepted(p, reg, T.Run(p, reg, run), a, b, x);
    }
    M.AcceptedIsSubsequence(p, k, 0, texts, 0, got);
  }

  lemma HandedWasAccepted(p: Primitives, reg: Registry, s: T.State, a: Block, b: Block, x: bytes)
    requires b in reg && b in s.world.files && T.Conserved(p, reg, s, b) && x in PayloadsFrom(a, For(b, s.world.handed))
    ensures x in PayloadsFrom(a, For(b, s.world.accepted))
  {
    hide For, Logged, PayloadsFrom, PayloadFrom, T.InHands;
    PayloadMember(a, For(b, s.world.handed), x);
    var m :| m in For(b, s.world.handed) && x in PayloadFrom(a, m);
    assert m in multiset(For(b, s.world.accepted));
    PayloadMember(a, For(b, s.world.accepted), x);
  }
}
