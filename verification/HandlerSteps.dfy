/** The methods of a connection handler, as runs of the steps of one side of a connection: what is proved
    of all runs of steps holds after the handler's own code (StepsAreARun). */
module HandlerSteps {
  import opened Bytes
  import opened Crypto
  import opened Frames
  import opened MessageQueue
  import A = AckMap
  import C = Connection
  import D = Duplex

  /** One side and its two links. */
  datatype View = View(me: D.Endpoint, inn: D.Link, out: D.Link)

  function Do(p: Primitives, v: View, step: D.Step): (r: View)
    requires |v.me.acks| == A.BUCKETS
    ensures |r.me.acks| == A.BUCKETS
  {
    var (me, inn, out) := D.Apply(p, v.me, v.inn, v.out, step);
    View(me, inn, out)
  }

  function DoAll(p: Primitives, v: View, steps: seq<D.Step>): (r: View)
    requires |v.me.acks| == A.BUCKETS
    ensures |r.me.acks| == A.BUCKETS
  {
    if steps == [] then v else Do(p, DoAll(p, v, steps[..|steps| - 1]), steps[|steps| - 1])
  }

  lemma DoMore(p: Primitives, v: View, steps: seq<D.Step>, step: D.Step)
    requires |v.me.acks| == A.BUCKETS
    ensures DoAll(p, v, steps + [step]) == Do(p, DoAll(p, v, steps), step)
  {
    hide Do;
    assert (steps + [step])[..|steps|] == steps;
  }

  lemma DoNothing(p: Primitives, v: View)
    requires |v.me.acks| == A.BUCKETS
    ensures DoAll(p, v, []) == v
  {
  }

  // ----- both sides -----

  /** One side of a connection; true names the first. */
  function Seen(s: D.System, who: bool): View {
    if who then View(s.a, s.ba, s.ab) else View(s.b, s.ab, s.ba)
  }

  function Replaced(s: D.System, who: bool, v: View): D.System {
    if who then D.System(v.me, s.b, v.out, v.inn) else D.System(s.a, v.me, v.inn, v.out)
  }

  function Scheduled(who: bool, steps: seq<D.Step>): (r: D.Schedule)
    ensures |r| == |steps|
  {
    seq(|steps|, i requires 0 <= i < |steps| => (who, steps[i]))
  }

  /** In a state that the two sides can reach, what a method does to its side is what they reach when that
      side takes the method's steps: everything proved of all schedules holds after it. */
  lemma {:induction false} StepsAreARun(p: Primitives, run: D.Schedule, who: bool, steps: seq<D.Step>)
    ensures var s, all := D.Run(p, run), run + Scheduled(who, steps);
      && D.Run(p, all) == Replaced(s, who, DoAll(p, Seen(s, who), steps))
      && D.Inv(p, D.Run(p, all))
    decreases |steps|
  {
    hide D.Run, D.Inv, D.Apply;
    var s, all := D.Run(p, run), run + Scheduled(who, steps);
    D.RunKeeps(p, all);
    if steps == [] {
      assert all == run;
    } else {
      var front, step := steps[..|steps| - 1], steps[|steps| - 1];
      StepsAreARun(p, run, who, front);
      assert all == (run + Scheduled(who, front)) + [(who, step)];
      RunOneMore(p, run + Scheduled(who, front), who, step);
    }
  }

  lemma RunOneMore(p: Primitives, run: D.Schedule, who: bool, step: D.Step)
    ensures D.Run(p, run + [(who, step)]) == D.Next(p, D.Run(p, run), who, step)
  {
    hide D.Next;
    assert (run + [(who, step)])[..|run|] == run;
  }

  // ----- reading -----

  lemma ReadOne(p: Primitives, v: View, x: bytes, k: nat)
    requires |v.me.acks| == A.BUCKETS && v.me.status == D.Live && k < |x| && v.me.phase == D.Reading(x[..k])
    requires Readable(p, x) && x[k..] <= v.inn.wire
    ensures var n := Wanted(p, x[..k]).n;
      && k + n <= |x| && x[k + n..] <= v.inn.wire[n..]
      && Do(p, v, D.ReadSome(n)) == v.(me := v.me.(phase := D.Reading(x[..k + n])), inn := v.inn.(wire := v.inn.wire[n..]))
  {
    hide Wanted, Encode;
    var n := Wanted(p, x[..k]).n;
    assert x[..k] + v.inn.wire[..n] == x[..k + n] by {
      assert v.inn.wire[..n] == x[k..][..n];
    }
    assert x[k..][n..] == x[k + n..];
  }

  /** Any bytes that can be read field by field are read in some steps. */
  lemma {:induction false} ReadFrom(p: Primitives, v: View, done: seq<D.Step>, x: bytes, k: nat)
    returns (steps: seq<D.Step>)
    requires |v.me.acks| == A.BUCKETS && k <= |x| && Readable(p, x)
    requires var s := DoAll(p, v, done); s.me.status == D.Live && s.me.phase == D.Reading(x[..k]) && x[k..] <= s.inn.wire
    ensures var s := DoAll(p, v, done);
      DoAll(p, v, steps) == s.(me := s.me.(phase := D.Reading(x)), inn := s.inn.(wire := s.inn.wire[|x| - k..]))
    decreases |x| - k
  {
    hide DoAll, Wanted, Readable, Do;
    var s := DoAll(p, v, done);
    if k == |x| {
      steps := done;
      assert x[..k] == x && s.inn.wire[0..] == s.inn.wire;
    } else {
      NeedsSome(p, x, k);
      ReadOne(p, s, x, k);
      var n := Wanted(p, x[..k]).n;
      DoMore(p, v, done, D.ReadSome(n));
      steps := ReadFrom(p, v, done + [D.ReadSome(n)], x, k + n);
      assert s.inn.wire[n..][|x| - (k + n)..] == s.inn.wire[|x| - k..];
    }
  }

  lemma NeedsSome(p: Primitives, x: bytes, k: nat)
    requires Readable(p, x) && k < |x|
    ensures Wanted(p, x[..k]).Need? && Wanted(p, x[..k]).n >= 1
  {
    hide Wanted;
  }

  /** A turn of read_message up to the point where it has read all that it wants. */
  lemma ReadSteps(p: Primitives, v: View, x: bytes) returns (steps: seq<D.Step>)
    requires |v.me.acks| == A.BUCKETS && v.me.status == D.Live && v.me.phase == D.Selecting
    requires Readable(p, x) && x != [] && x <= v.inn.wire
    ensures DoAll(p, v, steps) ==
      v.(me := v.me.(phase := D.Reading(x)), inn := v.inn.(wire := v.inn.wire[|x|..]))
  {
    hide DoAll, Readable;
    DoNothing(p, v);
    DoMore(p, v, [], D.StartRead);
    assert x[..0] == [] && x[0..] == x;
    steps := ReadFrom(p, v, [] + [D.StartRead], x, 0);
  }

  /** What read_message leaves behind after the frame `f`. */
  function AfterFrame(p: Primitives, v: View, f: Frame): (r: View)
    requires |v.me.acks| == A.BUCKETS && Encode(p, f) <= v.inn.wire
  {
    var w := v.(inn := D.Link(v.inn.wire[|Encode(p, f)|..], D.Tail(v.inn.frames)));
    match f
    case KeepAlive => w
    case Ack(s) => w.(me := w.me.(acks := A.Removed(w.me.acks, s).1))
    case Data(m) =>
      var a := Ack(m.seqNum);
      w.(me := w.me.(inQueue := w.me.inQueue + [m]),
         out := D.Link(w.out.wire + Encode(p, a), w.out.frames + [a]))
  }

  /** A message is read and queued, and its acknowledgement begun. */
  lemma MessageSteps(p: Primitives, v: View, m: Message) returns (steps: seq<D.Step>)
    requires |v.me.acks| == A.BUCKETS && v.me.status == D.Live && v.me.phase == D.Selecting
    requires |m.body| < TWO64 && Encode(p, Data(m)) <= v.inn.wire
    ensures var a := Ack(m.seqNum);
      DoAll(p, v, steps) ==
        View(v.me.(inQueue := v.me.inQueue + [m], phase := D.Acknowledging(Encode(p, a))),
             D.Link(v.inn.wire[|Encode(p, Data(m))|..], D.Tail(v.inn.frames)), v.out.(frames := v.out.frames + [a]))
  {
    hide DoAll, Readable, Wanted, Encode, A.Removed;
    var f := Data(m);
    FrameReadable(p, f);
    ReaderFollowsFrame(p, f, Encode(p, f));
    steps := ReadSteps(p, v, Encode(p, f));
    DoMore(p, v, steps, D.Act);
    steps := steps + [D.Act];
  }

  lemma FrameSteps(p: Primitives, v: View, f: Frame) returns (steps: seq<D.Step>)
    requires |v.me.acks| == A.BUCKETS && v.me.status == D.Live && v.me.phase == D.Selecting
    requires Sendable(f) && Encode(p, f) <= v.inn.wire && (f.Ack? ==> A.Removed(v.me.acks, f.seqNum).0)
    ensures DoAll(p, v, steps) == AfterFrame(p, v, f)
  {
    hide DoAll, Readable, Wanted, Encode, A.Removed;
    if f.Data? {
      var a := Encode(p, Ack(f.m.seqNum));
      steps := MessageSteps(p, v, f.m);
      DoMore(p, v, steps, D.AckSome(|a|));
      steps := steps + [D.AckSome(|a|)];
      DoMore(p, v, steps, D.FinishAck);
      steps := steps + [D.FinishAck];
      assert a[|a|..] == [] && a[..|a|] == a;
    } else {
      FrameReadable(p, f);
      ReaderFollowsFrame(p, f, Encode(p, f));
      steps := ReadSteps(p, v, Encode(p, f));
      DoMore(p, v, steps, D.Act);
      steps := steps + [D.Act];
    }
  }

  lemma RefusalSteps(p: Primitives, v: View, x: bytes) returns (steps: seq<D.Step>)
    requires |v.me.acks| == A.BUCKETS && v.me.status == D.Live && v.me.phase == D.Selecting
    requires C.Refuses(p, v.me.acks, x) && x != [] && x <= v.inn.wire
    ensures DoAll(p, v, steps) ==
      v.(me := v.me.(phase := D.Reading(x), status := D.Refused), inn := v.inn.(wire := v.inn.wire[|x|..]))
  {
    hide DoAll, Readable, Wanted, A.Removed;
    steps := ReadSteps(p, v, x);
    DoMore(p, v, steps, D.Act);
    steps := steps + [D.Act];
  }

  /** Bytes that are less than a frame are read one by one. */
  lemma {:induction false} ReadBytes(p: Primitives, v: View, done: seq<D.Step>, x: bytes, k: nat)
    returns (steps: seq<D.Step>)
    requires |v.me.acks| == A.BUCKETS && k <= |x| && Unfinished(p, x)
    requires var s := DoAll(p, v, done); s.me.status == D.Live && s.me.phase == D.Reading(x[..k]) && x[k..] <= s.inn.wire
    ensures var s := DoAll(p, v, done);
      DoAll(p, v, steps) == s.(me := s.me.(phase := D.Reading(x)), inn := s.inn.(wire := s.inn.wire[|x| - k..]))
    decreases |x| - k
  {
    hide DoAll, Wanted, Unfinished, Do;
    var s := DoAll(p, v, done);
    if k == |x| {
      steps := done;
      assert x[..k] == x && s.inn.wire[0..] == s.inn.wire;
    } else {
      ReadByte(p, s, x, k);
      DoMore(p, v, done, D.ReadSome(1));
      steps := ReadBytes(p, v, done + [D.ReadSome(1)], x, k + 1);
      assert s.inn.wire[1..][|x| - (k + 1)..] == s.inn.wire[|x| - k..];
    }
  }

  lemma ReadByte(p: Primitives, v: View, x: bytes, k: nat)
    requires |v.me.acks| == A.BUCKETS && v.me.status == D.Live && k < |x| && v.me.phase == D.Reading(x[..k])
    requires Unfinished(p, x) && x[k..] <= v.inn.wire
    ensures x[k + 1..] <= v.inn.wire[1..]
    ensures Do(p, v, D.ReadSome(1)) == v.(me := v.me.(phase := D.Reading(x[..k + 1])), inn := v.inn.(wire := v.inn.wire[1..]))
  {
    WantsSome(p, x[..k]);
    hide Wanted;
    assert v.inn.wire[0] == x[k..][0];
    assert x[..k] + v.inn.wire[..1] == x[..k + 1];
    assert x[k..][1..] == x[k + 1..];
  }

  lemma WantsSome(p: Primitives, got: bytes)
    ensures Wanted(p, got).Need? ==> Wanted(p, got).n >= 1
  {
  }

  /** A read that ends for want of bytes or time. */
  lemma CutReadSteps(p: Primitives, v: View, x: bytes) returns (steps: seq<D.Step>)
    requires |v.me.acks| == A.BUCKETS && v.me.status == D.Live && v.me.phase == D.Selecting
    requires Unfinished(p, x) && x <= v.inn.wire
    ensures DoAll(p, v, steps) ==
      v.(me := v.me.(phase := if x == [] then D.Selecting else D.Reading(x), status := D.Stopped),
         inn := v.inn.(wire := v.inn.wire[|x|..]))
  {
    hide DoAll, Unfinished;
    DoNothing(p, v);
    if x == [] {
      DoMore(p, v, [], D.Stop);
      steps := [] + [D.Stop];
      assert v.inn.wire[0..] == v.inn.wire;
    } else {
      DoMore(p, v, [], D.StartRead);
      assert x[..0] == [] && x[0..] == x;
      steps := ReadBytes(p, v, [] + [D.StartRead], x, 0);
      DoMore(p, v, steps, D.Stop);
      steps := steps + [D.Stop];
    }
  }

  /** A message is read and queued, and only `j` bytes of its acknowledgement are written. */
  lemma UnansweredSteps(p: Primitives, v: View, m: Message, j: nat) returns (steps: seq<D.Step>)
    requires |v.me.acks| == A.BUCKETS && v.me.status == D.Live && v.me.phase == D.Selecting
    requires |m.body| < TWO64 && Encode(p, Data(m)) <= v.inn.wire && j <= |Encode(p, Ack(m.seqNum))|
    ensures var a := Ack(m.seqNum); var e := Encode(p, a);
      DoAll(p, v, steps) ==
        View(v.me.(inQueue := v.me.inQueue + [m], phase := D.Acknowledging(e[j..]), status := D.Stopped),
             D.Link(v.inn.wire[|Encode(p, Data(m))|..], D.Tail(v.inn.frames)),
             D.Link(v.out.wire + e[..j], v.out.frames + [a]))
  {
    hide DoAll, Encode;
    steps := MessageSteps(p, v, m);
    DoMore(p, v, steps, D.AckSome(j));
    steps := steps + [D.AckSome(j)];
    DoMore(p, v, steps, D.Stop);
    steps := steps + [D.Stop];
  }

  // ----- writing -----

  /** What write_messages leaves behind after the first `k` messages. */
  function AfterSending(p: Primitives, v: View, times: seq<uint64>, k: nat): (r: View)
    requires |v.me.acks| == A.BUCKETS && v.me.phase.Draining? && k <= |times| && k <= |v.me.outQueue|
    ensures |r.me.acks| == A.BUCKETS
  {
    var sent := v.me.outQueue[..k];
    View(v.me.(phase := D.Draining(v.me.phase.unspent && k == 0), outQueue := v.me.outQueue[k..],
               acks := A.AddedAll(v.me.acks, C.Numbers(sent), times[..k]), completed := v.me.completed + sent),
         v.inn,
         D.Link(v.out.wire + EncodeAll(p, DataFrames(sent)), v.out.frames + DataFrames(sent)))
  }

  lemma SendOne(p: Primitives, v: View, done: seq<D.Step>, t: uint64) returns (steps: seq<D.Step>)
    requires |v.me.acks| == A.BUCKETS
    requires var s := DoAll(p, v, done); s.me.status == D.Live && s.me.phase.Draining? && s.me.outQueue != []
    ensures var s := DoAll(p, v, done); var m := s.me.outQueue[0];
      DoAll(p, v, steps) ==
        View(s.me.(phase := D.Draining(false), outQueue := s.me.outQueue[1..], acks := A.Added(s.me.acks, m.seqNum, t),
                   completed := s.me.completed + [m]),
             s.inn, D.Link(s.out.wire + Encode(p, Data(m)), s.out.frames + [Data(m)]))
  {
    hide DoAll, Encode, A.Added;
    var s := DoAll(p, v, done);
    var e := Encode(p, Data(s.me.outQueue[0]));
    DoMore(p, v, done, D.StartSend);
    steps := done + [D.StartSend];
    DoMore(p, v, steps, D.SendSome(|e|));
    steps := steps + [D.SendSome(|e|)];
    DoMore(p, v, steps, D.FinishSend(t));
    steps := steps + [D.FinishSend(t)];
    assert e[|e|..] == [] && e[..|e|] == e;
  }

  lemma SentNothing(p: Primitives, v: View, times: seq<uint64>)
    requires |v.me.acks| == A.BUCKETS && v.me.phase.Draining?
    ensures AfterSending(p, v, times, 0) == v
  {
    hide EncodeAll, A.AddedAll, C.Numbers, DataFrames;
    C.NothingSent(p, v.me.outQueue, times, v.me.acks);
    assert v.me.outQueue[0..] == v.me.outQueue && v.me.completed + [] == v.me.completed && v.out.wire + [] == v.out.wire;
    NoDataFrames();
    assert v.out.frames + [] == v.out.frames;
  }

  lemma NoDataFrames()
    ensures DataFrames([]) == []
  {
  }

  lemma SentAnother(p: Primitives, v: View, times: seq<uint64>, k: nat)
    requires |v.me.acks| == A.BUCKETS && v.me.phase.Draining? && k < |times| && k < |v.me.outQueue|
    ensures var s, r, m := AfterSending(p, v, times, k), AfterSending(p, v, times, k + 1), v.me.outQueue[k];
      r == View(s.me.(phase := D.Draining(false), outQueue := s.me.outQueue[1..], acks := A.Added(s.me.acks, m.seqNum, times[k]),
                      completed := s.me.completed + [m]),
                s.inn, D.Link(s.out.wire + Encode(p, Data(m)), s.out.frames + [Data(m)]))
  {
    hide EncodeAll, Encode, A.AddedAll, A.Added, C.Numbers;
    var q := v.me.outQueue;
    C.SentOneMore(p, q, k);
    C.AckedOneMore(v.me.acks, q, times, k);
    assert q[k..][1..] == q[k + 1..] && q[..k + 1] == q[..k] + [q[k]];
    assert DataFrames(q[..k + 1]) == DataFrames(q[..k]) + [Data(q[k])];
    assert v.out.wire + (EncodeAll(p, DataFrames(q[..k])) + Encode(p, Data(q[k])))
        == v.out.wire + EncodeAll(p, DataFrames(q[..k])) + Encode(p, Data(q[k]));
  }

  lemma {:induction false} SendSteps(p: Primitives, v: View, times: seq<uint64>, k: nat) returns (steps: seq<D.Step>)
    requires |v.me.acks| == A.BUCKETS && v.me.status == D.Live && v.me.phase.Draining?
    requires k <= |times| && k <= |v.me.outQueue|
    ensures DoAll(p, v, steps) == AfterSending(p, v, times, k)
    decreases k
  {
    hide DoAll, EncodeAll, Encode, A.AddedAll, A.Added, C.Numbers, DataFrames;
    if k == 0 {
      steps := [];
      DoNothing(p, v);
      SentNothing(p, v, times);
    } else {
      steps := SendSteps(p, v, times, k - 1);
      SentAnother(p, v, times, k - 1);
      steps := SendOne(p, v, steps, times[k - 1]);
    }
  }

  /** A message is begun, some of it goes out, and the connection ends. */
  lemma CutOffSteps(p: Primitives, v: View, done: seq<D.Step>, j: nat) returns (steps: seq<D.Step>)
    requires |v.me.acks| == A.BUCKETS
    requires var s := DoAll(p, v, done);
      s.me.status == D.Live && s.me.phase.Draining? && s.me.outQueue != [] && j <= |Encode(p, Data(s.me.outQueue[0]))|
    ensures var s := DoAll(p, v, done); var f := Data(s.me.outQueue[0]);
      DoAll(p, v, steps) ==
        View(s.me.(phase := D.Sending(Encode(p, f)[j..], s.me.phase.unspent), status := D.Stopped), s.inn,
             D.Link(s.out.wire + Encode(p, f)[..j], s.out.frames + [f]))
  {
    hide DoAll, Encode;
    DoMore(p, v, done, D.StartSend);
    steps := done + [D.StartSend];
    DoMore(p, v, steps, D.SendSome(j));
    steps := steps + [D.SendSome(j)];
    DoMore(p, v, steps, D.Stop);
    steps := steps + [D.Stop];
  }

  lemma BeatSteps(p: Primitives, v: View, j: nat) returns (steps: seq<D.Step>)
    requires |v.me.acks| == A.BUCKETS && v.me.status == D.Live && v.me.phase == D.Selecting
    requires j <= |Encode(p, KeepAlive)|
    ensures var e, r := Encode(p, KeepAlive), DoAll(p, v, steps);
      && r.inn == v.inn && r.out == D.Link(v.out.wire + e[..j], v.out.frames + [KeepAlive])
      && (j == |e| ==> r.me == v.me)
      && (j < |e| ==> r.me == v.me.(phase := D.Beating(e[j..]), status := D.Stopped))
  {
    hide DoAll, Encode;
    var e := Encode(p, KeepAlive);
    DoNothing(p, v);
    DoMore(p, v, [], D.StartBeat);
    steps := [] + [D.StartBeat];
    DoMore(p, v, steps, D.BeatSome(j));
    steps := steps + [D.BeatSome(j)];
    var last := if j == |e| then D.FinishBeat else D.Stop;
    DoMore(p, v, steps, last);
    steps := steps + [last];
    assert j == |e| ==> e[j..] == [];
  }

  // ----- the methods -----

  /** The handler's fields are the side's, the unread bytes of its socket are those on the link to it, and
      what it wrote is what was taken off the other link before and what is on it. */
  ghost predicate Mirrors(h: C.Handle, v: View, before: bytes)
    requires h.Valid()
    reads h, h.socket, h.outQueue, h.outQueue.elements, h.inQueue, h.inQueue.elements, h.acks, h.acks.lists, h.acks.lists.heads, h.acks.lists.items
  {
    && h.outQueue.Contents() == v.me.outQueue && h.inQueue.Contents() == v.me.inQueue
    && h.acks.Contents() == v.me.acks && |v.me.acks| == A.BUCKETS && h.pipe == v.me.pipe
    && h.socket.arrived[h.socket.consumed..] == v.inn.wire
    && h.socket.sent == before + v.out.wire
  }

  /** Bytes that the other side writes. */
  function Arriving(v: View, late: bytes): View {
    v.(inn := v.inn.(wire := v.inn.wire + late))
  }

  /** add_message is Push and Signal. */
  method Add(h: C.Handle, m: Message, p: Primitives, ghost v: View, ghost before: bytes)
    returns (ghost w: View)
    requires h.Valid() && Mirrors(h, v, before) && v.me.status == D.Live && v.me.holder == D.Nobody && |m.body| < TWO64
    modifies h`pipe, h.outQueue, h.outQueue.elements
    ensures h.Valid() && Mirrors(h, w, before) && w == DoAll(p, v, [D.Push(m), D.Signal])
    ensures w.me.submitted == v.me.submitted + [m] && w.me.holder == D.Nobody
  {
    hide DoAll, C.Handle.Valid, A.Map.Contents;
    h.AddMessage(m);
    w := DoAll(p, v, [D.Push(m), D.Signal]);
    DoNothing(p, v);
    DoMore(p, v, [], D.Push(m));
    DoMore(p, v, [] + [D.Push(m)], D.Signal);
    assert [] + [D.Push(m)] + [D.Signal] == [D.Push(m), D.Signal];
  }

  /** read_message, however it ends, is a run of steps of the reader, the bytes that arrived meanwhile being there
      at the beginning. */
  method Read(h: C.Handle, p: Primitives, now: uint64, ghost v: View, ghost before: bytes)
    returns (r: C.Outcome, ghost w: View, ghost steps: seq<D.Step>)
    requires h.Valid() && Mirrors(h, v, before) && v.me.status == D.Live && v.me.phase == D.Selecting
    modifies h`kaLastRecv, h.socket, h.inQueue, h.inQueue.elements, h.acks.lists, h.acks.lists.heads, h.acks.lists.items
    ensures h.Valid() && old(h.socket.arrived) <= h.socket.arrived && Mirrors(h, w, before)
    ensures w == DoAll(p, Arriving(v, h.socket.arrived[|old(h.socket.arrived)|..]), steps)
    ensures r == C.Done ==> w.me.status == D.Live && w.me.phase == D.Selecting
    ensures r != C.Done ==> w.me.status == if r == C.Refused then D.Refused else D.Stopped
  {
    hide DoAll, Encode, A.Removed, C.Refuses, Unfinished, C.Handle.Valid, A.Map.Contents;
    ghost var a0, c0, s0 := h.socket.arrived, h.socket.consumed, h.socket.sent;
    ghost var f: Frame;
    r, f := h.ReadMessage(p, now);
    w, steps := v, [];
    ghost var late := h.socket.arrived[|a0|..];
    ghost var x := h.socket.arrived[c0..h.socket.consumed];
    Consumed(a0, h.socket.arrived, c0, h.socket.consumed);
    if r == C.Done {
      steps := FrameSteps(p, Arriving(v, late), f);
      w := DoAll(p, Arriving(v, late), steps);
    } else if r == C.Refused {
      NotEmpty(p, v.me.acks, x);
      steps := RefusalSteps(p, Arriving(v, late), x);
      w := DoAll(p, Arriving(v, late), steps);
    } else if r == C.Stopped {
      steps := CutReadSteps(p, Arriving(v, late), x);
      w := DoAll(p, Arriving(v, late), steps);
    } else {
      ghost var e := Encode(p, Ack(f.m.seqNum));
      ghost var j := |h.socket.sent| - |s0|;
      SentPart(s0, e, h.socket.sent, j);
      steps := UnansweredSteps(p, Arriving(v, late), f.m, j);
      w := DoAll(p, Arriving(v, late), steps);
      Associate(before, v.out.wire, e[..j]);
    }
  }

  lemma Consumed(a0: bytes, a1: bytes, c0: nat, c1: nat)
    requires a0 <= a1 && c0 <= |a0| && c0 <= c1 <= |a1|
    ensures var wire := a0[c0..] + a1[|a0|..]; a1[c0..c1] <= wire && wire[c1 - c0..] == a1[c1..]
  {
    var wire := a0[c0..] + a1[|a0|..];
    assert a1 == a0 + a1[|a0|..];
    assert wire == a1[c0..];
  }

  lemma NotEmpty(p: Primitives, acks: A.Lists, x: bytes)
    requires |acks| == A.BUCKETS && C.Refuses(p, acks, x)
    ensures x != []
  {
    hide A.Removed, Readable;
  }

  /** write_messages is a run of steps of the writer, whether or not it gets to its end. */
  method Write(h: C.Handle, p: Primitives, times: seq<uint64>, ghost v: View, ghost before: bytes)
    returns (ok: bool, ghost w: View, ghost steps: seq<D.Step>)
    requires h.Valid() && Mirrors(h, v, before) && v.me.status == D.Live && v.me.phase.Draining?
    requires forall m | m in v.me.outQueue :: |m.body| < TWO64
    modifies h.socket, h.outQueue, h.acks.lists, h.acks.lists.heads, h.acks.lists.items
    ensures h.Valid() && Mirrors(h, w, before) && old(h.socket.arrived) <= h.socket.arrived
    ensures w == DoAll(p, Arriving(v, h.socket.arrived[|old(h.socket.arrived)|..]), steps)
    ensures if ok then w.me.status == D.Live && w.me.phase.Draining? else w.me.status == D.Stopped
  {
    hide DoAll, Encode, EncodeAll, A.AddedAll, C.Numbers, DataFrames, C.Handle.Valid, A.Map.Contents;
    ghost var a0, c, q := h.socket.arrived, h.socket.consumed, v.me.outQueue;
    ghost var k: nat;
    ok, k := h.WriteMessages(p, times);
    ghost var u := Arriving(v, h.socket.arrived[|a0|..]);
    Consumed(a0, h.socket.arrived, c, c);
    steps := SendSteps(p, u, times, k);
    ghost var whole := EncodeAll(p, DataFrames(q[..k]));
    Associate(before, v.out.wire, whole);
    if !ok {
      ghost var e := Encode(p, Data(q[k]));
      ghost var j := |h.socket.sent| - |before + v.out.wire + whole|;
      SentPart(before + v.out.wire + whole, e, h.socket.sent, j);
      steps := CutOffSteps(p, u, steps, j);
      Associate(before, v.out.wire + whole, e[..j]);
    }
    w := DoAll(p, u, steps);
  }

  lemma SentPart(whole: bytes, e: bytes, sent: bytes, j: int)
    requires whole <= sent <= whole + e && j == |sent| - |whole|
    ensures 0 <= j <= |e| && sent == whole + e[..j]
  {
    assert sent == (whole + e)[..|sent|];
  }

  /** write_keepalive is a run of steps as well. */
  method Beat(h: C.Handle, p: Primitives, ghost v: View, ghost before: bytes)
    returns (ok: bool, ghost w: View, ghost steps: seq<D.Step>)
    requires h.Valid() && Mirrors(h, v, before) && v.me.status == D.Live && v.me.phase == D.Selecting
    modifies h.socket
    ensures h.Valid() && Mirrors(h, w, before) && old(h.socket.arrived) <= h.socket.arrived
    ensures w == DoAll(p, Arriving(v, h.socket.arrived[|old(h.socket.arrived)|..]), steps)
    ensures ok ==> w.me.status == D.Live && w.me.phase == D.Selecting
  {
    hide DoAll, Encode;
    ghost var a0, c := h.socket.arrived, h.socket.consumed;
    ok := h.WriteKeepAlive(p);
    ghost var u := Arriving(v, h.socket.arrived[|a0|..]);
    Consumed(a0, h.socket.arrived, c, c);
    ghost var e := Encode(p, KeepAlive);
    ghost var j := |h.socket.sent| - |before + v.out.wire|;
    SentPart(before + v.out.wire, e, h.socket.sent, j);
    steps := BeatSteps(p, u, j);
    w := DoAll(p, u, steps);
    assert before + (v.out.wire + e[..j]) == before + v.out.wire + e[..j];
  }

  /** get_message, when it does not wait, is Take or nothing. */
  method Take(h: C.Handle, p: Primitives, start: uint64, timeout: uint64, killed: bool, ghost v: View, ghost before: bytes)
    returns (r: C.Reply, ghost w: View)
    requires h.Valid() && Mirrors(h, v, before) && v.me.status == D.Live
    requires !v.me.phase.Reading? && !v.me.phase.Acknowledging?
    modifies h.inQueue, h.inQueue.elements
    ensures h.Valid() && Mirrors(h, w, before)
    ensures w == DoAll(p, v, if r.Taken? then [D.Take] else [])
    ensures r.Taken? ==> w.me.delivered == v.me.delivered + [r.m]
  {
    hide DoAll;
    r := h.GetMessage(start, timeout, killed, []);
    DoNothing(p, v);
    DoMore(p, v, [], D.Take);
    assert [] + [D.Take] == [D.Take];
    w := DoAll(p, v, if r.Taken? then [D.Take] else []);
  }
}
