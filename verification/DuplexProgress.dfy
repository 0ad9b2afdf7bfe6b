/** Two live handlers can always get everything through: from every state that they reach, some further steps
    deliver all that was submitted and leave nothing unacknowledged. */
module DuplexProgress {
  import opened Bytes
  import opened Crypto
  import opened MessageQueue
  import opened Frames
  import opened Duplex
  import A = AckMap

  // ----- how far there is to go -----

  /** Messages that no handler has begun to send. */
  function Unbegun(me: Endpoint): nat {
    |me.outQueue| - |Current(me)|
  }

  function Wakes(me: Endpoint): nat {
    me.pipe + if me.holder == Caller then 2 else 0
  }

  function Rank(ph: Phase): nat {
    match ph
    case Reading(_) => 0
    case Selecting => 1
    case Acknowledging(_) => 2
    case Beating(_) => 2
    case Draining(_) => 3
    case Woken => 4
    case Sending(_, _) => 4
  }

  /** What is left to do, the weightiest first: messages to begin, data frames to act on, frames to act on,
      wake-ups, bytes to move, what the handlers are in the middle of, and messages to take. */
  datatype Distance = Distance(unbegun: nat, data: nat, frames: nat, wakes: nat, moves: nat, rank: nat, untaken: nat)

  function Left(s: System): Distance {
    Distance(
      Unbegun(s.a) + Unbegun(s.b),
      |DataOf(s.ab.frames)| + |DataOf(s.ba.frames)|,
      |s.ab.frames| + |s.ba.frames|,
      Wakes(s.a) + Wakes(s.b),
      2 * |Unwritten(s.a)| + 2 * |Unwritten(s.b)| + |s.ab.wire| + |s.ba.wire|,
      Rank(s.a.phase) + Rank(s.b.phase),
      |s.a.inQueue| + |s.b.inQueue|)
  }

  predicate Nearer(x: Distance, y: Distance) {
    x.unbegun < y.unbegun || (x.unbegun == y.unbegun &&
    (x.data < y.data || (x.data == y.data &&
    (x.frames < y.frames || (x.frames == y.frames &&
    (x.wakes < y.wakes || (x.wakes == y.wakes &&
    (x.moves < y.moves || (x.moves == y.moves &&
    (x.rank < y.rank || (x.rank == y.rank && x.untaken < y.untaken)))))))))))
  }

  lemma LeftSwapped(s: System)
    ensures Left(Swap(s)) == Left(s)
  {
  }

  // ----- a step that one side can take -----

  datatype Choice = Wait | Go(step: Step)

  /** What a side can do next on its own, unless it waits for bytes or has nothing to do. */
  function NextStep(p: Primitives, me: Endpoint, inn: Link): Choice {
    if me.holder == Caller then Go(Signal) else
    match me.phase
    case Sending(rest, _) => if rest == [] then Go(FinishSend(0)) else Go(SendSome(|rest|))
    case Acknowledging(rest) => if rest == [] then Go(FinishAck) else Go(AckSome(|rest|))
    case Beating(rest) => if rest == [] then Go(FinishBeat) else Go(BeatSome(|rest|))
    case Draining(_) => if me.outQueue == [] then Go(Release) else Go(StartSend)
    case Woken => Go(Lock)
    case Reading(got) =>
      if !Wanted(p, got).Need? then Go(Act)
      else if inn.wire == [] then Wait
      else Go(ReadSome(Min(Wanted(p, got).n, |inn.wire|)))
    case Selecting =>
      if inn.wire != [] then Go(StartRead)
      else if me.inQueue != [] then Go(Take)
      else if me.pipe > 0 then Go(Wake)
      else Wait
  }

  /** The step brings the end nearer, submits nothing and leaves both sides live. */
  predicate Advances(s: System, t: System) {
    && Nearer(Left(t), Left(s))
    && t.a.status == Live && t.b.status == Live
    && t.a.submitted == s.a.submitted && t.b.submitted == s.b.submitted
  }

  lemma WantsSome(p: Primitives, got: bytes)
    ensures Wanted(p, got).Need? ==> Wanted(p, got).n >= 1
  {
  }

  /** Steps that write bytes. */
  lemma WritingAdvances(p: Primitives, s: System, step: Step)
    requires Inv(p, s) && s.a.status == s.b.status == Live && NextStep(p, s.a, s.ba) == Go(step)
    requires step.SendSome? || step.AckSome? || step.BeatSome?
    ensures Advances(s, StepOfA(p, s, step))
  {
    hide Wanted, DataOf, LinkInv, AckInv, SideInv;
  }

  lemma ReadingAdvances(p: Primitives, s: System, step: Step)
    requires Inv(p, s) && s.a.status == s.b.status == Live && NextStep(p, s.a, s.ba) == Go(step)
    requires step.ReadSome? || step.StartRead? || step.Take?
    ensures Advances(s, StepOfA(p, s, step))
  {
    hide Wanted, DataOf, LinkInv, AckInv, SideInv;
    if step.ReadSome? {
      WantsSome(p, s.a.phase.got);
    }
  }

  /** Steps around the wake-up pipe and the mutex. */
  lemma WakingAdvances(p: Primitives, s: System, step: Step)
    requires Inv(p, s) && s.a.status == s.b.status == Live && NextStep(p, s.a, s.ba) == Go(step)
    requires step.Signal? || step.Wake? || step.Lock? || step.Release?
    ensures Advances(s, StepOfA(p, s, step))
  {
    hide Wanted, DataOf, EncodeAll, Encode, LinkInv, AckInv;
  }

  /** Steps that begin or end a frame. */
  lemma TurningAdvances(p: Primitives, s: System, step: Step)
    requires Inv(p, s) && s.a.status == s.b.status == Live && NextStep(p, s.a, s.ba) == Go(step)
    requires step.StartSend? || step.FinishSend? || step.FinishAck? || step.FinishBeat?
    ensures Advances(s, StepOfA(p, s, step))
  {
    hide Wanted, DataOf, EncodeAll, Encode, LinkInv, AckInv, A.Added;
  }

  /** Acting on a frame takes it out of flight; what goes back for a message is no data. */
  lemma ActAdvances(p: Primitives, s: System)
    requires Inv(p, s) && s.a.status == s.b.status == Live && NextStep(p, s.a, s.ba) == Go(Act)
    ensures Advances(s, StepOfA(p, s, Act))
  {
    hide Wanted, DataOf, EncodeAll, Encode, DataNumbers, AckNumbers, LinkInv, AckInv, SideInv, A.Removed;
    FrameLanded(p, s);
    ActKeeps(p, s);
    HeadAndTail(p, s.ba.frames);
    var f := s.ba.frames[0];
    if f.Data? {
      DataOfSnoc(s.ab.frames, Ack(f.m.seqNum));
    }
  }

  lemma StepAdvances(p: Primitives, s: System, step: Step)
    requires Inv(p, s) && s.a.status == s.b.status == Live && NextStep(p, s.a, s.ba) == Go(step)
    ensures Advances(s, StepOfA(p, s, step))
  {
    hide Inv, Advances, Apply;
    match step
    case SendSome(_) => WritingAdvances(p, s, step);
    case AckSome(_) => WritingAdvances(p, s, step);
    case BeatSome(_) => WritingAdvances(p, s, step);
    case ReadSome(_) => ReadingAdvances(p, s, step);
    case StartRead => ReadingAdvances(p, s, step);
    case Take => ReadingAdvances(p, s, step);
    case Signal => WakingAdvances(p, s, step);
    case Wake => WakingAdvances(p, s, step);
    case Lock => WakingAdvances(p, s, step);
    case Release => WakingAdvances(p, s, step);
    case Act => ActAdvances(p, s);
    case _ => TurningAdvances(p, s, step);
  }

  // ----- when neither side can -----

  /** Nothing is queued, under way or untaken. */
  predicate Done(s: System) {
    && s.a.phase == s.b.phase == Selecting && s.ab.wire == s.ba.wire == []
    && s.a.outQueue == s.b.outQueue == [] && s.a.inQueue == s.b.inQueue == []
  }

  /** A side that waits in the middle of a frame, with no byte under way, waits for bytes that the other side
      is about to write. */
  lemma WaitsForOther(p: Primitives, s: System)
    requires Inv(p, s) && NextStep(p, s.a, s.ba) == Wait && s.a.phase.Reading?
    ensures NextStep(p, s.b, s.ab) != Wait
  {
    hide Wanted, EncodeAll, Encode, DataOf, SideInv, AckInv;
    var f, got := s.ba.frames[0], s.a.phase.got;
    assert f in s.ba.frames;
    ReaderFollowsFrame(p, f, got);
    WholeFrameLeft(p, got, Unwritten(s.b), s.ba.frames);
  }

  lemma WholeFrameLeft(p: Primitives, got: bytes, rest: bytes, fs: seq<Frame>)
    requires fs != [] && got + [] + rest == EncodeAll(p, fs) && |got| < |Encode(p, fs[0])|
    ensures rest != []
  {
    hide Encode;
    assert |got + [] + rest| == |got| + |rest|;
  }

  lemma BothWaitWhenDone(p: Primitives, s: System)
    requires Inv(p, s) && NextStep(p, s.a, s.ba) == Wait && NextStep(p, s.b, s.ab) == Wait
    ensures Done(s)
  {
    hide Wanted, LinkInv, AckInv;
    SwapKeeps(p, s);
    if s.a.phase.Reading? {
      WaitsForOther(p, s);
    } else if s.b.phase.Reading? {
      WaitsForOther(p, Swap(s));
    }
  }

  /** Then everything submitted was delivered, and nothing is outstanding. */
  lemma DoneIsDelivered(p: Primitives, s: System)
    requires Inv(p, s) && Done(s)
    ensures s.b.delivered == s.a.submitted && s.a.delivered == s.b.submitted
  {
    hide AckInv, Encode, EncodeAll, DataOf;
    NothingInFlight(p, s.a, s.b, s.ab);
    NothingInFlight(p, s.b, s.a, s.ba);
  }

  // ----- from every reachable state -----

  lemma OneStepOn(p: Primitives, run: Schedule, who: bool, step: Step)
    requires var s := Run(p, run); s.a.status == s.b.status == Live
    requires var s := Run(p, run); (if who then NextStep(p, s.a, s.ba) else NextStep(p, s.b, s.ab)) == Go(step)
    ensures Advances(Run(p, run), Run(p, run + [(who, step)]))
  {
    hide Run, Inv, NextStep, Apply, Left, Nearer;
    var s, more := Run(p, run), run + [(who, step)];
    RunKeeps(p, run);
    RunAppend(p, run, who, step);
    if who {
      StepAdvances(p, s, step);
    } else {
      SwapKeeps(p, s);
      StepAdvances(p, Swap(s), step);
      LeftSwapped(s);
      LeftSwapped(StepOfA(p, Swap(s), step));
    }
  }

  lemma RunAppend(p: Primitives, run: Schedule, who: bool, step: Step)
    ensures Run(p, run + [(who, step)]) == Next(p, Run(p, run), who, step)
  {
    hide Next;
    assert (run + [(who, step)])[..|run|] == run;
  }

  /** From every state of two live sides that any run reaches, some further steps deliver all that was submitted
      on either side, and leave both handlers at rest with no byte under way. */
  lemma {:induction false} EverythingCanGetThrough(p: Primitives, run: Schedule) returns (more: Schedule)
    requires Run(p, run).a.status == Run(p, run).b.status == Live
    ensures run <= more
    ensures var s, t := Run(p, run), Run(p, more);
      && t.a.submitted == s.a.submitted && t.b.submitted == s.b.submitted
      && t.b.delivered == s.a.submitted && t.a.delivered == s.b.submitted
      && AtRest(t.a) && AtRest(t.b) && t.ab.wire == t.ba.wire == []
      && A.Outstanding(t.a.acks) == multiset{} && A.Outstanding(t.b.acks) == multiset{}
    decreases Left(Run(p, run)).unbegun, Left(Run(p, run)).data, Left(Run(p, run)).frames, Left(Run(p, run)).wakes,
      Left(Run(p, run)).moves, Left(Run(p, run)).rank, Left(Run(p, run)).untaken
  {
    hide Run, Inv, NextStep, Left, A.Outstanding;
    var s := Run(p, run);
    RunKeeps(p, run);
    var mine, others := NextStep(p, s.a, s.ba), NextStep(p, s.b, s.ab);
    if mine == Wait && others == Wait {
      more := run;
      BothWaitWhenDone(p, s);
      DoneIsDelivered(p, s);
      QuietMeansAcknowledged(p, run);
    } else {
      var who := mine.Go?;
      var step := if who then mine.step else others.step;
      OneStepOn(p, run, who, step);
      more := EverythingCanGetThrough(p, run + [(who, step)]);
    }
  }
}
