/** Two connection handlers and the byte streams between them, stepped one chunk of bytes at a time.
    Any number of callers add messages to and take messages from both sides. */
module Duplex {
  import opened Bytes
  import opened Crypto
  import opened MessageQueue
  import opened Frames
  import A = AckMap

  /** Where the handler's thread is. */
  datatype Phase =
    | Selecting
    | Reading(got: bytes)
    | Acknowledging(rest: bytes)
    | Woken
    | Draining(unspent: bool)
    | Sending(rest: bytes, unspent: bool)
    | Beating(rest: bytes)

  /** Refused is the end of a connection over what the peer sent; Stopped any other end. */
  datatype Status = Live | Stopped | Refused

  /** Who holds the mutex of the outgoing queue. */
  datatype Holder = Nobody | Caller | Handler

  /** One side: its queues, its map of unacknowledged messages, the unread bytes of its wake-up pipe,
      and, for the record, what was submitted, completely written, and handed to callers. */
  datatype Endpoint = Endpoint(
    outQueue: seq<Message>,
    inQueue: seq<Message>,
    acks: A.Lists,
    pipe: nat,
    holder: Holder,
    phase: Phase,
    status: Status,
    submitted: seq<Message>,
    completed: seq<Message>,
    delivered: seq<Message>)

  /** One direction: the bytes under way, and for the record the frames they are part of. */
  datatype Link = Link(wire: bytes, frames: seq<Frame>)

  datatype Step =
    | Push(m: Message)
    | Signal
    | Take
    | Wake
    | Lock
    | StartSend
    | SendSome(n: nat)
    | FinishSend(time: uint64)
    | Release
    | StartRead
    | ReadSome(n: nat)
    | Act
    | AckSome(n: nat)
    | FinishAck
    | StartBeat
    | BeatSome(n: nat)
    | FinishBeat
    | Stop

  const IDLE: Endpoint := Endpoint([], [], A.EMPTY, 0, Nobody, Selecting, Live, [], [], [])

  function Tail(fs: seq<Frame>): seq<Frame> {
    if fs == [] then [] else fs[1..]
  }

  /** The effect of one step of one side on itself and on its two links.  A step that the side cannot
      take now changes nothing. */
  function Apply(p: Primitives, me: Endpoint, inn: Link, out: Link, step: Step): (r: (Endpoint, Link, Link))
    requires |me.acks| == A.BUCKETS
    ensures |r.0.acks| == A.BUCKETS
  {
    if me.status != Live then (me, inn, out) else
    match step
    case Push(m) =>
      // add_message, with the mutex taken
      if me.holder == Nobody && |m.body| < TWO64 then
        (me.(holder := Caller, outQueue := me.outQueue + [m], submitted := me.submitted + [m]), inn, out)
      else (me, inn, out)
    case Signal =>
      // the byte for the pipe, and the mutex given back
      if me.holder == Caller then (me.(holder := Nobody, pipe := me.pipe + 1), inn, out) else (me, inn, out)
    case Take =>
      // get_message, which needs the mutex that read_message holds
      if me.inQueue != [] && !me.phase.Reading? && !me.phase.Acknowledging? then
        (me.(inQueue := me.inQueue[1..], delivered := me.delivered + [me.inQueue[0]]), inn, out)
      else (me, inn, out)
    case Wake =>
      if me.phase == Selecting && me.pipe > 0 then (me.(pipe := me.pipe - 1, phase := Woken), inn, out)
      else (me, inn, out)
    case Lock =>
      if me.phase == Woken && me.holder == Nobody then (me.(holder := Handler, phase := Draining(true)), inn, out)
      else (me, inn, out)
    case StartSend =>
      if me.phase.Draining? && me.outQueue != [] then
        var f := Data(me.outQueue[0]);
        (me.(phase := Sending(Encode(p, f), me.phase.unspent)), inn, out.(frames := out.frames + [f]))
      else (me, inn, out)
    case SendSome(n) =>
      if me.phase.Sending? && n <= |me.phase.rest| then
        (me.(phase := Sending(me.phase.rest[n..], me.phase.unspent)), inn, out.(wire := out.wire + me.phase.rest[..n]))
      else (me, inn, out)
    case FinishSend(time) =>
      if me.phase.Sending? && me.phase.rest == [] && me.outQueue != [] then
        var m := me.outQueue[0];
        (me.(phase := Draining(false), acks := A.Added(me.acks, m.seqNum, time),
             outQueue := me.outQueue[1..], completed := me.completed + [m]), inn, out)
      else (me, inn, out)
    case Release =>
      // the queue is empty, or at least one message went out and the time for sending is over
      if me.phase.Draining? && (me.outQueue == [] || !me.phase.unspent) then
        (me.(phase := Selecting, holder := Nobody), inn, out)
      else (me, inn, out)
    case StartRead =>
      if me.phase == Selecting && inn.wire != [] then (me.(phase := Reading([])), inn, out) else (me, inn, out)
    case ReadSome(n) =>
      if me.phase.Reading? && n <= |inn.wire| && Wanted(p, me.phase.got).Need? && n <= Wanted(p, me.phase.got).n then
        (me.(phase := Reading(me.phase.got + inn.wire[..n])), inn.(wire := inn.wire[n..]), out)
      else (me, inn, out)
    case Act =>
      if me.phase.Reading? && !Wanted(p, me.phase.got).Need? then Handle(p, me, inn, out) else (me, inn, out)
    case AckSome(n) =>
      if me.phase.Acknowledging? && n <= |me.phase.rest| then
        (me.(phase := Acknowledging(me.phase.rest[n..])), inn, out.(wire := out.wire + me.phase.rest[..n]))
      else (me, inn, out)
    case FinishAck =>
      if me.phase == Acknowledging([]) then (me.(phase := Selecting), inn, out) else (me, inn, out)
    case StartBeat =>
      if me.phase == Selecting then
        (me.(phase := Beating(Encode(p, KeepAlive))), inn, out.(frames := out.frames + [KeepAlive]))
      else (me, inn, out)
    case BeatSome(n) =>
      if me.phase.Beating? && n <= |me.phase.rest| then
        (me.(phase := Beating(me.phase.rest[n..])), inn, out.(wire := out.wire + me.phase.rest[..n]))
      else (me, inn, out)
    case FinishBeat =>
      if me.phase == Beating([]) then (me.(phase := Selecting), inn, out) else (me, inn, out)
    case Stop =>
      (me.(status := Stopped), inn, out)
  }

  /** What read_message does with the bytes of a frame, or of something that is none. */
  function Handle(p: Primitives, me: Endpoint, inn: Link, out: Link): (r: (Endpoint, Link, Link))
    requires |me.acks| == A.BUCKETS && me.phase.Reading?
    ensures |r.0.acks| == A.BUCKETS
  {
    match Wanted(p, me.phase.got)
    case Need(_) => (me, inn, out)
    case Malformed => (me.(status := Refused), inn, out)
    case Complete(KeepAlive) => (me.(phase := Selecting), inn.(frames := Tail(inn.frames)), out)
    case Complete(Ack(s)) =>
      var (found, acks) := A.Removed(me.acks, s);
      if found then (me.(phase := Selecting, acks := acks), inn.(frames := Tail(inn.frames)), out)
      else (me.(status := Refused), inn, out)
    case Complete(Data(m)) =>
      var a := Ack(m.seqNum);
      (me.(inQueue := me.inQueue + [m], phase := Acknowledging(Encode(p, a))),
       inn.(frames := Tail(inn.frames)), out.(frames := out.frames + [a]))
  }

  // ----- what holds all the time -----

  /** The bytes of the current frame that this side still has to write. */
  function Unwritten(me: Endpoint): bytes {
    match me.phase
    case Acknowledging(rest) => rest
    case Sending(rest, _) => rest
    case Beating(rest) => rest
    case _ => []
  }

  /** The bytes of the current frame that this side has read already. */
  function Got(me: Endpoint): bytes {
    if me.phase.Reading? then me.phase.got else []
  }

  /** The message that is being written and is not in the map yet. */
  function Current(me: Endpoint): seq<Message> {
    if me.phase.Sending? && me.outQueue != [] then [me.outQueue[0]] else []
  }

  function CurrentNumber(me: Endpoint): multiset<uint64> {
    if me.phase.Sending? && me.outQueue != [] then multiset{me.outQueue[0].seqNum} else multiset{}
  }

  function Received(me: Endpoint): seq<Message> {
    me.delivered + me.inQueue
  }

  function DataOf(fs: seq<Frame>): seq<Message> {
    if fs == [] then [] else (if fs[0].Data? then [fs[0].m] else []) + DataOf(fs[1..])
  }

  function DataNumbers(fs: seq<Frame>): multiset<uint64> {
    if fs == [] then multiset{} else (if fs[0].Data? then multiset{fs[0].m.seqNum} else multiset{}) + DataNumbers(fs[1..])
  }

  function AckNumbers(fs: seq<Frame>): multiset<uint64> {
    if fs == [] then multiset{} else (if fs[0].Ack? then multiset{fs[0].seqNum} else multiset{}) + AckNumbers(fs[1..])
  }

  /** One side on its own.  The last line is the reason why no wake-up is lost: every queued message has
      a byte in the pipe, or a caller about to write one, or a handler that took one and has not sent
      anything for it yet. */
  predicate SideInv(me: Endpoint) {
    && |me.acks| == A.BUCKETS && A.WellFormed(me.acks)
    && (forall m | m in me.outQueue :: |m.body| < TWO64)
    && me.submitted == me.completed + me.outQueue
    && (me.phase.Sending? ==> me.outQueue != [])
    && (me.holder == Handler <==> me.phase.Draining? || me.phase.Sending?)
    && |me.outQueue| <= me.pipe + (if me.holder == Caller then 1 else 0) + Credit(me.phase)
  }

  function Credit(ph: Phase): nat {
    if ph == Woken || (ph.Draining? && ph.unspent) || (ph.Sending? && ph.unspent) then 1 else 0
  }

  /** One direction: the bytes read, under way and unwritten are exactly the frames in flight, and the
      messages sent are the messages received and then the messages in flight. */
  predicate LinkInv(p: Primitives, from: Endpoint, to: Endpoint, link: Link) {
    && Got(to) + link.wire + Unwritten(from) == EncodeAll(p, link.frames)
    && (forall f | f in link.frames :: Sendable(f))
    && (to.phase.Reading? ==> link.frames != [] && to.phase.got <= Encode(p, link.frames[0]))
    && from.completed + Current(from) == Received(to) + DataOf(link.frames)
  }

  /** What one side waits for is what is in flight to the other and the acknowledgements in flight back. */
  predicate AckInv(me: Endpoint, out: Link, inn: Link) {
    A.Outstanding(me.acks) + CurrentNumber(me) == DataNumbers(out.frames) + AckNumbers(inn.frames)
  }

  datatype System = System(a: Endpoint, b: Endpoint, ab: Link, ba: Link)

  function Swap(s: System): System {
    System(s.b, s.a, s.ba, s.ab)
  }

  predicate Inv(p: Primitives, s: System) {
    && SideInv(s.a) && SideInv(s.b)
    && LinkInv(p, s.a, s.b, s.ab) && LinkInv(p, s.b, s.a, s.ba)
    && AckInv(s.a, s.ab, s.ba) && AckInv(s.b, s.ba, s.ab)
    && s.a.status != Refused && s.b.status != Refused
  }

  const START: System := System(IDLE, IDLE, Link([], []), Link([], []))

  function StepOfA(p: Primitives, s: System, step: Step): System
    requires |s.a.acks| == A.BUCKETS
  {
    var (a, ba, ab) := Apply(p, s.a, s.ba, s.ab, step);
    System(a, s.b, ab, ba)
  }

  // ----- every step keeps it -----

  /** Bytes moved from the writer to the wire do not change what is in flight. */
  lemma MovedOut(got: bytes, wire: bytes, rest: bytes, n: nat)
    requires n <= |rest|
    ensures got + (wire + rest[..n]) + rest[n..] == got + wire + rest
  {
    assert rest == rest[..n] + rest[n..];
  }

  lemma MovedIn(got: bytes, wire: bytes, rest: bytes, n: nat)
    requires n <= |wire|
    ensures (got + wire[..n]) + wire[n..] + rest == got + wire + rest
  {
    assert wire == wire[..n] + wire[n..];
  }

  lemma {:induction false} DataOfSnoc(fs: seq<Frame>, f: Frame)
    ensures DataOf(fs + [f]) == DataOf(fs) + (if f.Data? then [f.m] else [])
  {
    if fs == [] {
      assert (fs + [f])[1..] == [];
    } else {
      DataOfSnoc(fs[1..], f);
      assert (fs + [f])[1..] == fs[1..] + [f];
    }
  }

  lemma {:induction false} DataNumbersSnoc(fs: seq<Frame>, f: Frame)
    ensures DataNumbers(fs + [f]) == DataNumbers(fs) + (if f.Data? then multiset{f.m.seqNum} else multiset{})
  {
    if fs == [] {
      assert (fs + [f])[1..] == [];
    } else {
      DataNumbersSnoc(fs[1..], f);
      assert (fs + [f])[1..] == fs[1..] + [f];
    }
  }

  lemma {:induction false} AckNumbersSnoc(fs: seq<Frame>, f: Frame)
    ensures AckNumbers(fs + [f]) == AckNumbers(fs) + (if f.Ack? then multiset{f.seqNum} else multiset{})
  {
    if fs == [] {
      assert (fs + [f])[1..] == [];
    } else {
      AckNumbersSnoc(fs[1..], f);
      assert (fs + [f])[1..] == fs[1..] + [f];
    }
  }

  /** As a sender the side is where it was: the same bytes to write, the same messages written or begun. */
  predicate SameSender(me: Endpoint, next: Endpoint) {
    Unwritten(next) == Unwritten(me) && next.completed + Current(next) == me.completed + Current(me)
  }

  /** And so as a reader. */
  predicate SameReader(me: Endpoint, next: Endpoint) {
    Got(next) == Got(me) && next.phase.Reading? == me.phase.Reading? && Received(next) == Received(me)
  }

  predicate SameWaiting(me: Endpoint, next: Endpoint)
    requires |me.acks| == |next.acks| == A.BUCKETS
  {
    A.Outstanding(next.acks) + CurrentNumber(next) == A.Outstanding(me.acks) + CurrentNumber(me)
  }

  lemma SenderStays(p: Primitives, me: Endpoint, next: Endpoint, to: Endpoint, out: Link)
    requires LinkInv(p, me, to, out) && SameSender(me, next)
    ensures LinkInv(p, next, to, out)
  {
    hide Encode, EncodeAll, DataOf, Received, Unwritten, Current, Got;
  }

  lemma ReaderStays(p: Primitives, from: Endpoint, me: Endpoint, next: Endpoint, inn: Link)
    requires LinkInv(p, from, me, inn) && SameReader(me, next)
    ensures LinkInv(p, from, next, inn)
  {
    hide Encode, EncodeAll, DataOf, Received, Unwritten, Current;
  }

  lemma WaitingStays(me: Endpoint, next: Endpoint, out: Link, inn: Link)
    requires |me.acks| == |next.acks| == A.BUCKETS && AckInv(me, out, inn) && SameWaiting(me, next)
    ensures AckInv(next, out, inn)
  {
    hide DataNumbers, AckNumbers, A.Outstanding, CurrentNumber;
  }

  lemma BucketsStay(p: Primitives, s: System)
    requires Inv(p, s)
    ensures |s.a.acks| == |s.b.acks| == A.BUCKETS
  {
    hide LinkInv, AckInv, A.WellFormed;
  }

  /** A step of the first side that writes and reads no byte and starts and ends no frame. */
  lemma AsideKeeps(p: Primitives, s: System, next: Endpoint)
    requires Inv(p, s) && SideInv(next) && next.status != Refused
    requires SameSender(s.a, next) && SameReader(s.a, next) && SameWaiting(s.a, next)
    ensures Inv(p, System(next, s.b, s.ab, s.ba))
  {
    BucketsStay(p, s);
    assert |next.acks| == A.BUCKETS;
    hide SideInv, LinkInv, AckInv, SameSender, SameReader, SameWaiting;
    SenderStays(p, s.a, next, s.b, s.ab);
    ReaderStays(p, s.b, s.a, next, s.ba);
    WaitingStays(s.a, next, s.ab, s.ba);
  }

  lemma PushKeeps(p: Primitives, s: System, m: Message)
    requires Inv(p, s)
    ensures Inv(p, StepOfA(p, s, Push(m)))
  {
    hide LinkInv, AckInv, A.Outstanding, A.WellFormed, Wanted;
    var next := StepOfA(p, s, Push(m)).a;
    assert s.a.submitted + [m] == s.a.completed + (s.a.outQueue + [m]);
    assert Current(next) == Current(s.a);
    AsideKeeps(p, s, next);
  }

  lemma TakeKeeps(p: Primitives, s: System)
    requires Inv(p, s)
    ensures Inv(p, StepOfA(p, s, Take))
  {
    hide LinkInv, AckInv, A.Outstanding, A.WellFormed, Wanted;
    var next := StepOfA(p, s, Take).a;
    if next != s.a {
      var d, q := s.a.delivered, s.a.inQueue;
      assert (d + [q[0]]) + q[1..] == d + q;
    }
    AsideKeeps(p, s, next);
  }

  lemma MutexStepKeeps(p: Primitives, s: System, step: Step)
    requires Inv(p, s) && (step.Lock? || step.Release?)
    ensures Inv(p, StepOfA(p, s, step))
  {
    hide LinkInv, AckInv, A.Outstanding, A.WellFormed, Wanted;
    AsideKeeps(p, s, StepOfA(p, s, step).a);
  }

  lemma PipeStepKeeps(p: Primitives, s: System, step: Step)
    requires Inv(p, s) && (step.Signal? || step.Wake? || step.Stop?)
    ensures Inv(p, StepOfA(p, s, step))
  {
    hide LinkInv, AckInv, A.Outstanding, A.WellFormed, Wanted;
    AsideKeeps(p, s, StepOfA(p, s, step).a);
  }

  lemma WrittenStepKeeps(p: Primitives, s: System, step: Step)
    requires Inv(p, s) && (step.FinishAck? || step.FinishBeat?)
    ensures Inv(p, StepOfA(p, s, step))
  {
    hide LinkInv, AckInv, A.Outstanding, A.WellFormed, Wanted;
    AsideKeeps(p, s, StepOfA(p, s, step).a);
  }

  /** A message enters the map as it leaves the queue. */
  lemma FinishSendKeeps(p: Primitives, s: System, time: uint64)
    requires Inv(p, s)
    ensures Inv(p, StepOfA(p, s, FinishSend(time)))
  {
    hide LinkInv, AckInv, A.Outstanding, A.WellFormed, A.Added, Wanted;
    var next := StepOfA(p, s, FinishSend(time)).a;
    if next != s.a {
      var m, q := s.a.outQueue[0], s.a.outQueue;
      A.AddedOutstanding(s.a.acks, m.seqNum, time);
      assert (s.a.completed + [m]) + [] == s.a.completed + [m];
      assert (s.a.completed + [m]) + q[1..] == s.a.completed + q;
      assert forall x | x in q[1..] :: x in q;
    }
    AsideKeeps(p, s, next);
  }

  // ----- writing -----

  /** Bytes of the current frame go onto the wire. */
  lemma WriterMoves(p: Primitives, me: Endpoint, next: Endpoint, to: Endpoint, out: Link, n: nat)
    requires LinkInv(p, me, to, out) && n <= |Unwritten(me)| && Unwritten(next) == Unwritten(me)[n..]
    requires next.completed + Current(next) == me.completed + Current(me)
    ensures LinkInv(p, next, to, out.(wire := out.wire + Unwritten(me)[..n]))
  {
    hide Encode, EncodeAll, DataOf, Received, Unwritten, Current, Got;
    MovedOut(Got(to), out.wire, Unwritten(me), n);
  }

  lemma WritingKeeps(p: Primitives, s: System, next: Endpoint, n: nat)
    requires Inv(p, s) && SideInv(next) && next.status != Refused && n <= |Unwritten(s.a)|
    requires Unwritten(next) == Unwritten(s.a)[n..] && next.completed + Current(next) == s.a.completed + Current(s.a)
    requires SameReader(s.a, next) && SameWaiting(s.a, next)
    ensures Inv(p, System(next, s.b, s.ab.(wire := s.ab.wire + Unwritten(s.a)[..n]), s.ba))
  {
    BucketsStay(p, s);
    assert |next.acks| == A.BUCKETS;
    hide SideInv, LinkInv, SameReader, SameWaiting, Unwritten, Current, CurrentNumber, DataNumbers, AckNumbers, A.Outstanding;
    WriterMoves(p, s.a, next, s.b, s.ab, n);
    ReaderStays(p, s.b, s.a, next, s.ba);
    WaitingStays(s.a, next, s.ab, s.ba);
  }

  lemma SendSomeKeeps(p: Primitives, s: System, n: nat)
    requires Inv(p, s)
    ensures Inv(p, StepOfA(p, s, SendSome(n)))
  {
    hide LinkInv, AckInv, A.Outstanding, A.WellFormed, Wanted;
    var t := StepOfA(p, s, SendSome(n));
    if s.a.status == Live && s.a.phase.Sending? && n <= |Unwritten(s.a)| {
      WritingKeeps(p, s, t.a, n);
    }
  }

  lemma AnswerSomeKeeps(p: Primitives, s: System, step: Step)
    requires Inv(p, s) && (step.AckSome? || step.BeatSome?)
    ensures Inv(p, StepOfA(p, s, step))
  {
    hide LinkInv, AckInv, A.Outstanding, A.WellFormed, Wanted;
    var t := StepOfA(p, s, step);
    if t.a != s.a {
      WritingKeeps(p, s, t.a, step.n);
    } else if t != s {
      assert step.n == 0;
      WritingKeeps(p, s, t.a, 0);
    }
  }

  /** A frame that is started is in flight at once, all of it unwritten. */
  lemma LaunchedLink(p: Primitives, got: bytes, link: Link, f: Frame)
    requires got + link.wire + [] == EncodeAll(p, link.frames)
    ensures got + link.wire + Encode(p, f) == EncodeAll(p, link.frames + [f])
  {
    hide Encode, EncodeAll;
    EncodeAllSnoc(p, link.frames, f);
    assert got + link.wire + [] == got + link.wire;
  }

  /** A side that writes nothing starts a frame. */
  lemma Launches(p: Primitives, me: Endpoint, next: Endpoint, to: Endpoint, out: Link, f: Frame)
    requires LinkInv(p, me, to, out) && Unwritten(me) == [] && Current(me) == [] && Sendable(f)
    requires Unwritten(next) == Encode(p, f) && next.completed == me.completed
    requires Current(next) == if f.Data? then [f.m] else []
    ensures LinkInv(p, next, to, out.(frames := out.frames + [f]))
  {
    hide Encode, EncodeAll, DataOf, Received, Unwritten, Current, Got;
    LaunchedLink(p, Got(to), out, f);
    DataOfSnoc(out.frames, f);
    NothingCurrent(me.completed);
    Regroup(Received(to), DataOf(out.frames), Current(next));
  }

  lemma NothingCurrent(ms: seq<Message>)
    ensures ms + [] == ms
  {
  }

  lemma Regroup(a: seq<Message>, b: seq<Message>, c: seq<Message>)
    ensures a + (b + c) == (a + b) + c
  {
  }

  lemma StartSendKeeps(p: Primitives, s: System)
    requires Inv(p, s)
    ensures Inv(p, StepOfA(p, s, StartSend))
  {
    hide Encode, LinkInv, DataNumbers, AckNumbers, A.Outstanding, A.WellFormed, Wanted;
    var t := StepOfA(p, s, StartSend);
    if t.a != s.a {
      var m := s.a.outQueue[0];
      assert m in s.a.outQueue;
      Launches(p, s.a, t.a, s.b, s.ab, Data(m));
      ReaderStays(p, s.b, s.a, t.a, s.ba);
      DataNumbersSnoc(s.ab.frames, Data(m));
      AckNumbersSnoc(s.ab.frames, Data(m));
      OneMore(A.Outstanding(s.a.acks), DataNumbers(s.ab.frames), AckNumbers(s.ba.frames), m.seqNum);
      PlusNone(AckNumbers(s.ab.frames));
    }
  }

  lemma PlusNone(x: multiset<uint64>)
    ensures x + multiset{} == x && multiset{} + x == x
  {
  }

  lemma OneMore(waiting: multiset<uint64>, data: multiset<uint64>, acks: multiset<uint64>, s: uint64)
    requires waiting + multiset{} == data + acks
    ensures waiting + multiset{s} == (data + multiset{s}) + acks
  {
    assert waiting + multiset{} == waiting;
    assert (data + multiset{s}) + acks == (data + acks) + multiset{s};
  }

  lemma StartBeatKeeps(p: Primitives, s: System)
    requires Inv(p, s)
    ensures Inv(p, StepOfA(p, s, StartBeat))
  {
    hide Encode, LinkInv, DataNumbers, AckNumbers, A.Outstanding, A.WellFormed, Wanted;
    var t := StepOfA(p, s, StartBeat);
    if t.a != s.a {
      Launches(p, s.a, t.a, s.b, s.ab, KeepAlive);
      ReaderStays(p, s.b, s.a, t.a, s.ba);
      DataNumbersSnoc(s.ab.frames, KeepAlive);
      AckNumbersSnoc(s.ab.frames, KeepAlive);
      PlusNone(DataNumbers(s.ab.frames));
      PlusNone(AckNumbers(s.ab.frames));
    }
  }

  // ----- reading -----

  /** The reader stays inside the first frame in flight. */
  lemma ReadInside(p: Primitives, got: bytes, wire: bytes, rest: bytes, fs: seq<Frame>, n: nat)
    requires fs != [] && Sendable(fs[0]) && got + wire + rest == EncodeAll(p, fs)
    requires got <= Encode(p, fs[0]) && n <= |wire|
    requires Wanted(p, got).Need? && n <= Wanted(p, got).n
    ensures got + wire[..n] <= Encode(p, fs[0])
  {
    hide Encode, Wanted;
    var e, all := Encode(p, fs[0]), EncodeAll(p, fs);
    ReaderFollowsFrame(p, fs[0], got);
    assert all[..|e|] == e;
    assert all[..|got| + n] == got + wire[..n];
    assert all[..|got| + n] == e[..|got| + n];
  }

  lemma ReaderMoves(p: Primitives, from: Endpoint, me: Endpoint, next: Endpoint, inn: Link, n: nat)
    requires LinkInv(p, from, me, inn) && me.phase.Reading? && n <= |inn.wire|
    requires Wanted(p, me.phase.got).Need? && n <= Wanted(p, me.phase.got).n
    requires next.phase == Reading(me.phase.got + inn.wire[..n]) && Received(next) == Received(me)
    ensures LinkInv(p, from, next, inn.(wire := inn.wire[n..]))
  {
    hide Encode, EncodeAll, DataOf, Received, Unwritten, Current, Wanted;
    assert inn.frames[0] in inn.frames;
    ReadInside(p, me.phase.got, inn.wire, Unwritten(from), inn.frames, n);
    MovedIn(Got(me), inn.wire, Unwritten(from), n);
  }

  /** Whatever happens to the reader's side of a link, the frames that are in flight stay the same. */
  lemma ReadingKeeps(p: Primitives, s: System, next: Endpoint, inn: Link)
    requires Inv(p, s) && SideInv(next) && next.status != Refused && SameSender(s.a, next) && SameWaiting(s.a, next)
    requires LinkInv(p, s.b, next, inn) && inn.frames == s.ba.frames
    ensures Inv(p, System(next, s.b, s.ab, inn))
  {
    BucketsStay(p, s);
    assert |next.acks| == A.BUCKETS;
    hide SideInv, LinkInv, SameSender, SameWaiting, CurrentNumber, DataNumbers, AckNumbers, A.Outstanding;
    SenderStays(p, s.a, next, s.b, s.ab);
    WaitingStays(s.a, next, s.ab, s.ba);
  }

  lemma ReadSomeKeeps(p: Primitives, s: System, n: nat)
    requires Inv(p, s)
    ensures Inv(p, StepOfA(p, s, ReadSome(n)))
  {
    hide LinkInv, AckInv, A.Outstanding, A.WellFormed, Wanted;
    var t := StepOfA(p, s, ReadSome(n));
    if t.a != s.a {
      ReaderMoves(p, s.b, s.a, t.a, s.ba, n);
      ReadingKeeps(p, s, t.a, t.ba);
    } else if t != s {
      ReaderMoves(p, s.b, s.a, t.a, s.ba, n);
      ReadingKeeps(p, s, t.a, t.ba);
    }
  }

  /** Bytes under way belong to a frame in flight. */
  lemma BytesMeanFrames(p: Primitives, from: Endpoint, to: Endpoint, link: Link)
    requires LinkInv(p, from, to, link) && link.wire != []
    ensures link.frames != []
  {
    hide Encode, DataOf;
    assert |Got(to) + link.wire + Unwritten(from)| > 0;
  }

  lemma ReaderStarts(p: Primitives, from: Endpoint, me: Endpoint, next: Endpoint, inn: Link)
    requires LinkInv(p, from, me, inn) && inn.wire != [] && Got(me) == [] && next.phase == Reading([])
    requires Received(next) == Received(me)
    ensures LinkInv(p, from, next, inn)
  {
    hide Encode, EncodeAll, DataOf, Received, Unwritten, Current;
    BytesMeanFrames(p, from, me, inn);
    assert [] <= Encode(p, inn.frames[0]);
  }

  lemma StartReadKeeps(p: Primitives, s: System)
    requires Inv(p, s)
    ensures Inv(p, StepOfA(p, s, StartRead))
  {
    hide LinkInv, AckInv, A.Outstanding, A.WellFormed, Wanted;
    var t := StepOfA(p, s, StartRead);
    if t.a != s.a {
      ReaderStarts(p, s.b, s.a, t.a, s.ba);
      ReadingKeeps(p, s, t.a, s.ba);
    }
  }

  lemma HeadAndTail(p: Primitives, fs: seq<Frame>)
    requires fs != []
    ensures EncodeAll(p, fs) == Encode(p, fs[0]) + EncodeAll(p, Tail(fs))
    ensures DataOf(fs) == (if fs[0].Data? then [fs[0].m] else []) + DataOf(Tail(fs))
    ensures DataNumbers(fs) == (if fs[0].Data? then multiset{fs[0].m.seqNum} else multiset{}) + DataNumbers(Tail(fs))
    ensures AckNumbers(fs) == (if fs[0].Ack? then multiset{fs[0].seqNum} else multiset{}) + AckNumbers(Tail(fs))
    ensures forall f | f in Tail(fs) :: f in fs
  {
    hide Encode;
  }

  /** The reader acts on the oldest frame in flight, whole, and the rest stays in flight. */
  lemma FrameLanded(p: Primitives, s: System)
    requires Inv(p, s) && s.a.phase.Reading? && !Wanted(p, s.a.phase.got).Need?
    ensures s.ba.frames != [] && Sendable(s.ba.frames[0])
    ensures Wanted(p, s.a.phase.got) == Complete(s.ba.frames[0])
    ensures [] + s.ba.wire + Unwritten(s.b) == EncodeAll(p, Tail(s.ba.frames))
  {
    hide Encode, EncodeAll, DataOf, DataNumbers, AckNumbers, A.Outstanding, A.WellFormed, Wanted, SideInv, AckInv;
    var f, got := s.ba.frames[0], s.a.phase.got;
    assert f in s.ba.frames;
    ReaderFollowsFrame(p, f, got);
    HeadAndTail(p, s.ba.frames);
    CutHead(got, s.ba.wire, Unwritten(s.b), EncodeAll(p, Tail(s.ba.frames)));
  }

  lemma CutHead(got: bytes, wire: bytes, rest: bytes, tail: bytes)
    requires got + wire + rest == got + tail
    ensures [] + wire + rest == tail
  {
    assert (got + wire + rest)[|got|..] == [] + wire + rest;
    assert (got + tail)[|got|..] == tail;
  }

  /** A frame that was acted on is out of flight; `ms` is the message that it brought, if any. */
  lemma LinkAfterFrame(p: Primitives, from: Endpoint, to: Endpoint, link: Link, next: Endpoint, ms: seq<Message>)
    requires LinkInv(p, from, to, link) && !next.phase.Reading?
    requires [] + link.wire + Unwritten(from) == EncodeAll(p, Tail(link.frames))
    requires DataOf(link.frames) == ms + DataOf(Tail(link.frames)) && forall f | f in Tail(link.frames) :: f in link.frames
    requires Received(next) == Received(to) + ms
    ensures LinkInv(p, from, next, link.(frames := Tail(link.frames)))
  {
    hide Encode, EncodeAll, DataOf, Received, Wanted, Tail, Current, Unwritten;
    Regroup(Received(to), ms, DataOf(Tail(link.frames)));
  }

  lemma KeepAliveActKeeps(p: Primitives, s: System)
    requires Inv(p, s) && s.a.status == Live && s.a.phase.Reading? && Wanted(p, s.a.phase.got) == Complete(KeepAlive)
    ensures Inv(p, StepOfA(p, s, Act))
  {
    hide Encode, EncodeAll, DataOf, DataNumbers, AckNumbers, A.Outstanding, A.WellFormed, Wanted, LinkInv, Received;
    FrameLanded(p, s);
    HeadAndTail(p, s.ba.frames);
    var t := StepOfA(p, s, Act);
    SameReceived(s.a, t.a);
    LinkAfterFrame(p, s.b, s.a, s.ba, t.a, []);
    SenderStays(p, s.a, t.a, s.b, s.ab);
    PlusNone(DataNumbers(Tail(s.ba.frames)));
    PlusNone(AckNumbers(Tail(s.ba.frames)));
  }

  lemma ReceivedOneMore(me: Endpoint, next: Endpoint, m: Message)
    requires next.delivered == me.delivered && next.inQueue == me.inQueue + [m]
    ensures Received(next) == Received(me) + [m]
  {
  }

  lemma SameReceived(me: Endpoint, next: Endpoint)
    requires next.delivered == me.delivered && next.inQueue == me.inQueue
    ensures Received(next) == Received(me) + []
  {
  }

  /** An acknowledgement always finds its number in the map, however often numbers repeat. */
  lemma AckActKeeps(p: Primitives, s: System, n: uint64)
    requires Inv(p, s) && s.a.status == Live && s.a.phase.Reading? && Wanted(p, s.a.phase.got) == Complete(Ack(n))
    ensures n in A.Outstanding(s.a.acks)
    ensures Inv(p, StepOfA(p, s, Act))
  {
    hide Encode, EncodeAll, DataOf, DataNumbers, AckNumbers, A.Outstanding, A.WellFormed, A.Removed, Wanted, LinkInv, Received;
    FrameLanded(p, s);
    HeadAndTail(p, s.ba.frames);
    A.RemovedOutstanding(s.a.acks, n);
    var t := StepOfA(p, s, Act);
    OneLess(A.Outstanding(s.a.acks), A.Outstanding(A.Removed(s.a.acks, n).1), DataNumbers(s.ab.frames),
      AckNumbers(Tail(s.ba.frames)), n, A.Removed(s.a.acks, n).0);
    SameReceived(s.a, t.a);
    LinkAfterFrame(p, s.b, s.a, s.ba, t.a, []);
    SenderStays(p, s.a, t.a, s.b, s.ab);
    PlusNone(DataNumbers(Tail(s.ba.frames)));
  }

  lemma OneLess(waiting: multiset<uint64>, left: multiset<uint64>, data: multiset<uint64>, acks: multiset<uint64>,
                n: uint64, found: bool)
    requires waiting + multiset{} == data + (multiset{n} + acks)
    requires found <==> n in waiting
    requires waiting == left + if found then multiset{n} else multiset{}
    ensures found && left + multiset{} == data + acks
  {
    assert waiting + multiset{} == waiting;
    assert n in data + (multiset{n} + acks);
    assert data + (multiset{n} + acks) == (data + acks) + multiset{n};
    assert left == left + multiset{n} - multiset{n};
    assert data + acks == (data + acks) + multiset{n} - multiset{n};
  }

  /** The number of a message moves from the messages in flight to the acknowledgements in flight back. */
  lemma NumberTurns(n: uint64, data: multiset<uint64>, acks: multiset<uint64>)
    ensures (multiset{n} + data) + acks == data + (acks + multiset{n})
  {
  }

  lemma DataActAcks(p: Primitives, s: System, m: Message)
    requires Inv(p, s) && s.ba.frames != [] && s.ba.frames[0] == Data(m) && s.a.phase.Reading?
    ensures AckInv(s.b, Link(s.ba.wire, Tail(s.ba.frames)), s.ab.(frames := s.ab.frames + [Ack(m.seqNum)]))
    ensures DataNumbers(s.ab.frames + [Ack(m.seqNum)]) == DataNumbers(s.ab.frames)
  {
    hide Encode, EncodeAll, DataOf, DataNumbers, AckNumbers, A.Outstanding, SideInv, LinkInv;
    var a := Ack(m.seqNum);
    HeadAndTail(p, s.ba.frames);
    DataNumbersSnoc(s.ab.frames, a);
    AckNumbersSnoc(s.ab.frames, a);
    NumberTurns(m.seqNum, DataNumbers(Tail(s.ba.frames)), AckNumbers(s.ab.frames));
    assert DataNumbers(s.ab.frames) + multiset{} == DataNumbers(s.ab.frames);
  }

  lemma DataActStep(p: Primitives, s: System, m: Message)
    requires |s.a.acks| == A.BUCKETS && s.a.status == Live && s.a.phase.Reading? && Wanted(p, s.a.phase.got) == Complete(Data(m))
    ensures var a := Ack(m.seqNum);
      StepOfA(p, s, Act) == System(s.a.(inQueue := s.a.inQueue + [m], phase := Acknowledging(Encode(p, a))), s.b,
        s.ab.(frames := s.ab.frames + [a]), s.ba.(frames := Tail(s.ba.frames)))
  {
    hide Encode, Wanted, Tail;
  }

  lemma DataActSide(me: Endpoint, next: Endpoint)
    requires SideInv(me) && me.phase.Reading? && next.phase.Acknowledging?
    requires next.(inQueue := me.inQueue, phase := me.phase) == me
    ensures SideInv(next)
  {
    hide A.WellFormed;
  }

  lemma DataActKeeps(p: Primitives, s: System, m: Message)
    requires Inv(p, s) && s.a.status == Live && s.a.phase.Reading? && Wanted(p, s.a.phase.got) == Complete(Data(m))
    ensures Inv(p, StepOfA(p, s, Act))
  {
    hide Encode, EncodeAll, DataOf, DataNumbers, AckNumbers, A.Outstanding, Wanted, LinkInv, SideInv, Received, StepOfA;
    BucketsStay(p, s);
    FrameLanded(p, s);
    HeadAndTail(p, s.ba.frames);
    var t := StepOfA(p, s, Act);
    DataActStep(p, s, m);
    DataActSide(s.a, t.a);
    DataActAcks(p, s, m);
    PlusNone(AckNumbers(Tail(s.ba.frames)));
    ReceivedOneMore(s.a, t.a, m);
    LinkAfterFrame(p, s.b, s.a, s.ba, t.a, [m]);
    Launches(p, s.a, t.a, s.b, s.ab, Ack(m.seqNum));
  }

  lemma ActKeeps(p: Primitives, s: System)
    requires Inv(p, s)
    ensures Inv(p, StepOfA(p, s, Act))
  {
    hide Encode, EncodeAll, DataOf, DataNumbers, AckNumbers, A.Outstanding, A.WellFormed, A.Removed, Wanted,
      SideInv, LinkInv, AckInv;
    if s.a.status == Live && s.a.phase.Reading? && !Wanted(p, s.a.phase.got).Need? {
      FrameLanded(p, s);
      match s.ba.frames[0]
      case KeepAlive => KeepAliveActKeeps(p, s);
      case Ack(n) => AckActKeeps(p, s, n);
      case Data(m) => DataActKeeps(p, s, m);
    }
  }

  lemma StepKeeps(p: Primitives, s: System, step: Step)
    requires Inv(p, s)
    ensures Inv(p, StepOfA(p, s, step))
  {
    hide Inv, Apply;
    match step
    case Push(m) => PushKeeps(p, s, m);
    case Take => TakeKeeps(p, s);
    case StartSend => StartSendKeeps(p, s);
    case FinishSend(time) => FinishSendKeeps(p, s, time);
    case StartRead => StartReadKeeps(p, s);
    case ReadSome(n) => ReadSomeKeeps(p, s, n);
    case Act => ActKeeps(p, s);
    case StartBeat => StartBeatKeeps(p, s);
    case SendSome(n) => SendSomeKeeps(p, s, n);
    case AckSome(_) => AnswerSomeKeeps(p, s, step);
    case BeatSome(_) => AnswerSomeKeeps(p, s, step);
    case FinishAck => WrittenStepKeeps(p, s, step);
    case FinishBeat => WrittenStepKeeps(p, s, step);
    case Lock => MutexStepKeeps(p, s, step);
    case Release => MutexStepKeeps(p, s, step);
    case _ => PipeStepKeeps(p, s, step);
  }

  // ----- runs -----

  /** True names the first side. */
  type Schedule = seq<(bool, Step)>

  lemma SwapKeeps(p: Primitives, s: System)
    requires Inv(p, s)
    ensures Inv(p, Swap(s))
  {
    hide SideInv, LinkInv, AckInv;
  }

  function Next(p: Primitives, s: System, who: bool, step: Step): System
    requires |s.a.acks| == A.BUCKETS && |s.b.acks| == A.BUCKETS
  {
    if who then StepOfA(p, s, step) else Swap(StepOfA(p, Swap(s), step))
  }

  lemma StartHolds(p: Primitives)
    ensures Inv(p, START)
  {
    A.EmptyMap();
  }

  /** The state after any interleaving of steps of the two sides and their callers. */
  function Run(p: Primitives, run: Schedule): (s: System)
    ensures |s.a.acks| == A.BUCKETS && |s.b.acks| == A.BUCKETS
  {
    if run == [] then START else
    var (who, step) := run[|run| - 1];
    Next(p, Run(p, run[..|run| - 1]), who, step)
  }

  lemma RunStep(p: Primitives, s: System, who: bool, step: Step)
    requires Inv(p, s)
    ensures |s.a.acks| == A.BUCKETS && |s.b.acks| == A.BUCKETS && Inv(p, Next(p, s, who, step))
  {
    hide LinkInv, AckInv, Apply;
    if who {
      StepKeeps(p, s, step);
    } else {
      SwapKeeps(p, s);
      StepKeeps(p, Swap(s), step);
      SwapKeeps(p, StepOfA(p, Swap(s), step));
    }
  }

  /** Every state that can be reached satisfies the invariant over both sides and both links. */
  lemma {:induction false} RunKeeps(p: Primitives, run: Schedule)
    ensures Inv(p, Run(p, run))
  {
    hide Inv, Next;
    if run == [] {
      StartHolds(p);
    } else {
      RunKeeps(p, run[..|run| - 1]);
      var (who, step) := run[|run| - 1];
      RunStep(p, Run(p, run[..|run| - 1]), who, step);
    }
  }

  // ----- what every run guarantees -----

  /** What was submitted on one side is, in order, what callers took on the other, what waits there,
      what is in flight, and what is queued and not begun. */
  lemma MessagesInOrder(p: Primitives, run: Schedule)
    ensures var s := Run(p, run);
      s.a.submitted == s.b.delivered + s.b.inQueue + DataOf(s.ab.frames) + s.a.outQueue[|Current(s.a)|..]
    ensures var s := Run(p, run);
      s.b.submitted == s.a.delivered + s.a.inQueue + DataOf(s.ba.frames) + s.b.outQueue[|Current(s.b)|..]
  {
    hide Run, DataOf, EncodeAll, Encode, AckInv;
    RunKeeps(p, run);
    var s := Run(p, run);
    Split(s.a.completed, Current(s.a), s.a.outQueue, Received(s.b) + DataOf(s.ab.frames));
    Split(s.b.completed, Current(s.b), s.b.outQueue, Received(s.a) + DataOf(s.ba.frames));
  }

  lemma Split(completed: seq<Message>, current: seq<Message>, queue: seq<Message>, seen: seq<Message>)
    requires current <= queue && completed + current == seen
    ensures completed + queue == seen + queue[|current|..]
  {
    assert queue == current + queue[|current|..];
  }

  /** What callers take on one side is a prefix of what was submitted on the other. */
  lemma DeliveredIsPrefix(p: Primitives, run: Schedule)
    ensures var s := Run(p, run); s.b.delivered <= s.a.submitted && s.a.delivered <= s.b.submitted
  {
    hide Run, DataOf;
    MessagesInOrder(p, run);
  }

  /** The map of unacknowledged messages is exactly the messages in flight and the acknowledgements in
      flight back, with repetitions; a message being written is not in it yet. */
  lemma AcksMatchTraffic(p: Primitives, run: Schedule)
    ensures var s := Run(p, run);
      && A.Outstanding(s.a.acks) + CurrentNumber(s.a) == DataNumbers(s.ab.frames) + AckNumbers(s.ba.frames)
      && A.Outstanding(s.b.acks) + CurrentNumber(s.b) == DataNumbers(s.ba.frames) + AckNumbers(s.ab.frames)
  {
    hide Run, LinkInv;
    RunKeeps(p, run);
  }

  /** No connection ends because of what the peer sent: every frame is understood, and no
      acknowledgement is for a message that nothing waits for. */
  lemma NothingIsRefused(p: Primitives, run: Schedule)
    ensures Run(p, run).a.status != Refused && Run(p, run).b.status != Refused
  {
    hide Run, SideInv, LinkInv, AckInv;
    RunKeeps(p, run);
  }

  /** No lost wake-up: for every queued message there is an unread byte in the pipe, or a caller about to
      write one, or a handler that has taken one and not sent anything for it yet. */
  lemma NoLostWakeUp(p: Primitives, run: Schedule)
    ensures var me := Run(p, run).a;
      |me.outQueue| <= me.pipe + (if me.holder == Caller then 1 else 0) + Credit(me.phase)
    ensures var me := Run(p, run).b;
      |me.outQueue| <= me.pipe + (if me.holder == Caller then 1 else 0) + Credit(me.phase)
  {
    hide Run, LinkInv, AckInv;
    RunKeeps(p, run);
  }

  predicate AtRest(me: Endpoint) {
    me.phase == Selecting || me.phase == Woken
  }

  /** A link on which no byte is read, under way or still to be written carries no frame. */
  lemma NothingInFlight(p: Primitives, from: Endpoint, to: Endpoint, link: Link)
    requires LinkInv(p, from, to, link) && AtRest(from) && AtRest(to) && link.wire == []
    ensures link.frames == [] && from.completed == Received(to)
  {
    hide Encode, DataOf;
    assert Got(to) == [] && Unwritten(from) == [] && Current(from) == [];
    NoFrames(p, link.frames);
    assert EncodeAll(p, link.frames) == [];
    assert from.completed + [] == from.completed && Received(to) + [] == Received(to);
  }

  lemma NoFrames(p: Primitives, fs: seq<Frame>)
    ensures EncodeAll(p, fs) == [] <==> fs == []
    ensures DataOf([]) == []
  {
    hide Encode;
  }

  /** When neither side is in the middle of a frame and no byte is under way, everything written has been
      received and acknowledged: there is nothing left that could time out. */
  lemma QuietMeansAcknowledged(p: Primitives, run: Schedule)
    requires var s := Run(p, run); AtRest(s.a) && AtRest(s.b) && s.ab.wire == [] && s.ba.wire == []
    ensures var s := Run(p, run);
      && A.Outstanding(s.a.acks) == multiset{} && A.Outstanding(s.b.acks) == multiset{}
      && s.a.completed == Received(s.b) && s.b.completed == Received(s.a)
  {
    hide Run, LinkInv, Encode, EncodeAll, DataOf, Received, A.Outstanding;
    RunKeeps(p, run);
    var s := Run(p, run);
    NothingInFlight(p, s.a, s.b, s.ab);
    NothingInFlight(p, s.b, s.a, s.ba);
    assert A.Outstanding(s.a.acks) + multiset{} == A.Outstanding(s.a.acks);
    assert A.Outstanding(s.b.acks) + multiset{} == A.Outstanding(s.b.acks);
  }
}
