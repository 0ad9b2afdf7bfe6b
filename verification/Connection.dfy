/** One side's socket and the methods that move whole messages through it, however the network splits
    or delays the bytes. */
module Connection {
  import opened Bytes
  import opened Crypto
  import opened MessageQueue
  import opened Frames
  import opened Options
  import A = AckMap

  /** What one turn of a transfer loop meets: an error, nothing to do, the end of the time allowed, or
      `incoming` bytes from the peer and at most `amount` bytes moved. */
  datatype Event = Fail | Again | TimedOut | Moved(incoming: bytes, amount: nat)

  /** How a read of one frame ends: well, for want of bytes or time, with a message whose acknowledgement could
      not be written, or because of what was read. */
  datatype Outcome = Done | Stopped | Unanswered | Refused

  /** What a caller that waits for a message meets: messages that are queued meanwhile, then the time it
      is, and whether the handler has been told to end. */
  datatype Wait = Wait(queued: seq<Message>, now: uint64, killed: bool)

  /** How waiting for a message ends: with a message, with ETIME, or with EPIPE. */
  datatype Reply = Taken(m: Message) | Late | Ended

  /** How long an acknowledgement may take, in microseconds. */
  const ACK_WAITTIME: nat := 100_000_000

  predicate InTime(start: uint64, now: uint64, timeout: uint64) {
    timeout == 0 || Wrap64(now as int - start) < timeout
  }

  /** get_message on the queue `q`: the answer, and the queue it leaves.  The kill status is looked at
      before the queue.  When nothing more is going to happen the handler has ended. */
  function Awaited(q: seq<Message>, start: uint64, now: uint64, killed: bool, timeout: uint64, waits: seq<Wait>)
    : (Reply, seq<Message>)
    decreases |waits|
  {
    if !InTime(start, now, timeout) then (Late, q)
    else if killed then (Ended, q)
    else if q != [] then (Taken(q[0]), q[1..])
    else if waits == [] then (Ended, q)
    else Awaited(q + waits[0].queued, start, waits[0].now, waits[0].killed, timeout, waits[1..])
  }

  /** All that is queued over some waits. */
  function Queued(waits: seq<Wait>): seq<Message> {
    if waits == [] then [] else waits[0].queued + Queued(waits[1..])
  }

  /** Whatever happens while a caller waits, it gets the oldest message or nothing, and every other message
      that was queued up to then stays queued, in order. */
  lemma {:induction false} WaitKeepsOrder(q: seq<Message>, start: uint64, now: uint64, killed: bool, timeout: uint64,
          waits: seq<Wait>) returns (n: nat)
    ensures n <= |waits|
    ensures var (r, left) := Awaited(q, start, now, killed, timeout, waits);
      q + Queued(waits[..n]) == (if r.Taken? then [r.m] else []) + left
    decreases |waits|
  {
    hide InTime;
    n := 0;
    assert q + [] == q == [] + q;
    if InTime(start, now, timeout) && !killed && q == [] && waits != [] {
      n := WaitKeepsOrder(q + waits[0].queued, start, waits[0].now, waits[0].killed, timeout, waits[1..]);
      n := n + 1;
      assert waits[..n][1..] == waits[1..][..n - 1];
      assert q + (waits[0].queued + Queued(waits[..n][1..])) == (q + waits[0].queued) + Queued(waits[..n][1..]);
    }
  }

  /** The time is up when it has run for `timeout` or more since `start`; a clock that was set back counts on
      from the top of its range. */
  lemma InTimeMeans(start: uint64, now: uint64, timeout: uint64)
    ensures InTime(start, now, timeout) <==>
      timeout == 0 || (start <= now && now - start < timeout) || now + TWO64 - start < timeout
  {
  }

  /** A message that is there at the beginning is taken at once unless the handler has ended, and one that
      comes in time is taken as well. */
  lemma {:induction false} WaitSucceeds(q: seq<Message>, start: uint64, now: uint64, timeout: uint64, waits: seq<Wait>)
    requires timeout == 0 || (start <= now && now - start < timeout) || now + TWO64 - start < timeout
    requires forall i | 0 <= i < |waits| :: var t := waits[i].now;
      timeout == 0 || (start <= t && t - start < timeout) || t + TWO64 - start < timeout
    requires q + Queued(waits) != [] && forall i | 0 <= i < |waits| :: !waits[i].killed
    ensures Awaited(q, start, now, false, timeout, waits).0 == Taken((q + Queued(waits))[0])
    decreases |waits|
  {
    hide InTime;
    InTimeMeans(start, now, timeout);
    if q == [] {
      assert waits != [];
      assert q + Queued(waits) == (q + waits[0].queued) + Queued(waits[1..]);
      WaitSucceeds(q + waits[0].queued, start, waits[0].now, timeout, waits[1..]);
    }
  }

  /** When the caller looks for the i-th time, and what it is told of the handler then. */
  function LookAt(now: uint64, killed: bool, waits: seq<Wait>, i: nat): (uint64, bool)
    requires i <= |waits|
  {
    if i == 0 then (now, killed) else (waits[i - 1].now, waits[i - 1].killed)
  }

  predicate GoesOn(q: seq<Message>, start: uint64, now: uint64, killed: bool, timeout: uint64, waits: seq<Wait>, i: nat)
    requires i <= |waits|
  {
    var (t, ended) := LookAt(now, killed, waits, i);
    InTime(start, t, timeout) && !ended && q + Queued(waits[..i]) == []
  }

  lemma LaterLook(q: seq<Message>, start: uint64, now: uint64, killed: bool, timeout: uint64, waits: seq<Wait>, i: nat)
    requires i < |waits|
    ensures var w, rest := waits[0], waits[1..];
      && LookAt(now, killed, waits, i + 1) == LookAt(w.now, w.killed, rest, i)
      && q + Queued(waits[..i + 1]) == (q + w.queued) + Queued(rest[..i])
      && GoesOn(q, start, now, killed, timeout, waits, i + 1)
         == GoesOn(q + w.queued, start, w.now, w.killed, timeout, rest, i)
  {
    hide InTime;
    assert waits[..i + 1][1..] == waits[1..][..i];
  }

  lemma {:induction false} WaitIsDecidedAt(q: seq<Message>, start: uint64, now: uint64, killed: bool, timeout: uint64,
          waits: seq<Wait>) returns (n: nat)
    ensures n <= |waits|
    ensures forall i | 0 <= i < n :: GoesOn(q, start, now, killed, timeout, waits, i)
    ensures var r, (t, ended), came := Awaited(q, start, now, killed, timeout, waits).0, LookAt(now, killed, waits, n),
        q + Queued(waits[..n]);
      if !InTime(start, t, timeout) then r == Late
      else if ended then r == Ended
      else if came != [] then r == Taken(came[0])
      else n == |waits| && r == Ended
    decreases |waits|
  {
    hide InTime, GoesOn, LookAt, Queued;
    n := 0;
    FirstLook(q, start, now, killed, timeout, waits);
    if GoesOn(q, start, now, killed, timeout, waits, 0) && waits != [] {
      var w, rest := waits[0], waits[1..];
      n := WaitIsDecidedAt(q + w.queued, start, w.now, w.killed, timeout, rest);
      LaterLook(q, start, now, killed, timeout, waits, n);
      forall i | 0 < i < n + 1
        ensures GoesOn(q, start, now, killed, timeout, waits, i)
      {
        LaterLook(q, start, now, killed, timeout, waits, i - 1);
      }
      n := n + 1;
    }
  }

  lemma FirstLook(q: seq<Message>, start: uint64, now: uint64, killed: bool, timeout: uint64, waits: seq<Wait>)
    ensures LookAt(now, killed, waits, 0) == (now, killed) && q + Queued(waits[..0]) == q
    ensures GoesOn(q, start, now, killed, timeout, waits, 0) <==> InTime(start, now, timeout) && !killed && q == []
  {
    hide InTime;
    assert waits[..0] == [] && q + [] == q;
  }

  /** The caller goes on as long as there is time, the handler lives and nothing is queued.  The first time that
      one of these fails decides: ETIME when the time is up, else EPIPE when the handler has ended, else the
      oldest message. */
  lemma WaitIsDecided(q: seq<Message>, start: uint64, now: uint64, killed: bool, timeout: uint64,
          waits: seq<Wait>) returns (n: nat)
    ensures n <= |waits|
    ensures forall i | 0 <= i < n :: var (t, ended) := LookAt(now, killed, waits, i);
      && (timeout == 0 || (start <= t && t - start < timeout) || t + TWO64 - start < timeout)
      && !ended && q + Queued(waits[..i]) == []
    ensures var r, (t, ended), came := Awaited(q, start, now, killed, timeout, waits).0, LookAt(now, killed, waits, n),
        q + Queued(waits[..n]);
      if !(timeout == 0 || (start <= t && t - start < timeout) || t + TWO64 - start < timeout) then r == Late
      else if ended then r == Ended
      else if came != [] then r == Taken(came[0])
      else n == |waits| && r == Ended
  {
    hide InTime, Awaited, Queued, LookAt;
    n := WaitIsDecidedAt(q, start, now, killed, timeout, waits);
    forall i | 0 <= i <= n
      ensures var t := LookAt(now, killed, waits, i).0; InTime(start, t, timeout) <==>
        timeout == 0 || (start <= t && t - start < timeout) || t + TWO64 - start < timeout
      ensures i < n ==> GoesOn(q, start, now, killed, timeout, waits, i)
    {
      InTimeMeans(start, LookAt(now, killed, waits, i).0, timeout);
    }
  }

  /** What was taken of a stream stays the same as the stream grows, and goes on with what is taken next. */
  lemma TakenMore(stream: bytes, incoming: bytes, from: nat, at: nat, n: nat)
    requires from <= at <= |stream| && at + n <= |stream| + |incoming|
    ensures stream[from..at] + (stream + incoming)[at..at + n] == (stream + incoming)[from..at + n]
  {
  }

  class Socket {
    /** All the bytes that ever came from the peer, and how many of them were read. */
    var arrived: bytes
    var consumed: nat
    /** All the bytes that were ever written. */
    var sent: bytes
    /** What the network is going to do; when nothing more is going to happen, time runs out. */
    var events: seq<Event>

    constructor (events: seq<Event>)
      ensures arrived == sent == [] && consumed == 0
    {
      arrived, sent, consumed, this.events := [], [], 0, events;
    }

    /** read_bytes: what was read is the next part of the stream, and never more than was asked for. */
    method Recv(len: nat) returns (total: int, buf: bytes)
      requires consumed <= |arrived|
      modifies this
      ensures sent == old(sent) && old(arrived) <= arrived
      ensures consumed == old(consumed) + |buf| <= |arrived|
      ensures buf == arrived[old(consumed)..consumed] && |buf| <= len
      ensures total == -1 || total == |buf|
      ensures total != len ==> |buf| < len || len == 0
    {
      buf := [];
      var timeLeft := true;
      while true
        invariant sent == old(sent) && old(arrived) <= arrived
        invariant consumed == old(consumed) + |buf| <= |arrived|
        invariant buf == arrived[old(consumed)..consumed] && (|buf| < len || len == 0 == |buf|)
        decreases |events|, timeLeft
      {
        var e := TimedOut;
        if events != [] {
          e, events := events[0], events[1..];
        } else {
          timeLeft := false;
        }
        match e {
          case Fail => return -1, buf;
          case Again =>
          case TimedOut => timeLeft := false;
          case Moved(incoming, amount) =>
            ghost var before := arrived;
            arrived := arrived + incoming;
            var n := Min(amount, Min(len - |buf|, |arrived| - consumed));
            TakenMore(before, incoming, old(consumed), consumed, n);
            buf := buf + arrived[consumed..consumed + n];
            consumed := consumed + n;
        }
        if !timeLeft || |buf| == len {
          break;
        }
      }
      total := |buf|;
    }

    /** send_bytes: what was written is the first part of the buffer. */
    method Send(buf: bytes) returns (total: int, ghost done: nat)
      requires consumed <= |arrived|
      modifies this
      ensures consumed == old(consumed) && old(arrived) <= arrived
      ensures done <= |buf| && sent == old(sent) + buf[..done] && (total == -1 || total == done)
    {
      var count: nat := 0;
      var timeLeft := true;
      while true
        invariant consumed == old(consumed) && old(arrived) <= arrived
        invariant count <= |buf| && sent == old(sent) + buf[..count]
        decreases |events|, timeLeft
      {
        var e := TimedOut;
        if events != [] {
          e, events := events[0], events[1..];
        } else {
          timeLeft := false;
        }
        match e {
          case Fail => return -1, count;
          case Again =>
          case TimedOut => timeLeft := false;
          case Moved(incoming, amount) =>
            arrived := arrived + incoming;
            var n := Min(amount, |buf| - count);
            sent := sent + buf[count..count + n];
            count := count + n;
        }
        if !timeLeft || count == |buf| {
          break;
        }
      }
      total, done := count, count;
    }
  }

  /** The part of con_handle that the two directions of traffic use. */
  class Handle {
    const socket: Socket
    const outQueue: Queue
    const inQueue: Queue
    const acks: A.Map
    var kaLastRecv: uint64
    /** The bytes that wait in the wake-up pipe. */
    var pipe: nat

    constructor (events: seq<Event>, now: uint64)
      ensures fresh(socket) && fresh(outQueue) && fresh(inQueue) && fresh(acks) && fresh(acks.lists) && fresh(acks.lists.heads)
      ensures Valid() && kaLastRecv == now && pipe == 0
    {
      socket := new Socket(events);
      outQueue := new Queue();
      inQueue := new Queue();
      acks := new A.Map();
      kaLastRecv, pipe := now, 0;
    }

    ghost predicate Valid()
      reads this, socket, outQueue, outQueue.elements, inQueue, inQueue.elements
      reads acks, acks.lists, acks.lists.heads, acks.lists.items
      ensures Valid() ==> socket.consumed <= |socket.arrived| && outQueue != inQueue
      ensures Valid() ==> outQueue.size == |outQueue.Contents()| && |acks.Contents()| == A.BUCKETS
    {
      && socket.consumed <= |socket.arrived|
      && outQueue.Valid() && inQueue.Valid() && acks.Valid()
      && outQueue != inQueue
      && (forall e | e in outQueue.elements :: e !in inQueue.elements)
    }

    /** add_message: the message is queued and the handler is sent a byte. */
    method AddMessage(m: Message)
      requires Valid()
      modifies this`pipe, outQueue, outQueue.elements
      ensures Valid() && pipe == old(pipe) + 1 && inQueue.Contents() == old(inQueue.Contents())
      ensures outQueue.Contents() == old(outQueue.Contents()) + [m]
    {
      ghost var others := inQueue.elements;
      assert forall i | 0 <= i < |others| :: others[i] in others;
      outQueue.Push(m);
      assert inQueue.elements == others;
      assert forall i {:trigger others[i].next} | 0 <= i < |others| :: others[i].next == old(others[i].next);
      pipe := pipe + 1;
    }

    /** A message is put into the queue that callers take from, as read_message does. */
    method Arrive(m: Message)
      requires Valid()
      modifies inQueue, inQueue.elements
      ensures Valid() && outQueue.Contents() == old(outQueue.Contents())
      ensures inQueue.Contents() == old(inQueue.Contents()) + [m]
      ensures forall e | e in inQueue.elements :: e in old(inQueue.elements) || fresh(e)
    {
      ghost var others := outQueue.elements;
      inQueue.Push(m);
      assert outQueue.elements == others && forall i | 0 <= i < |others| :: others[i] !in old(inQueue.elements);
      assert forall i {:trigger others[i].next} | 0 <= i < |others| :: others[i].next == old(others[i].next);
    }

    method ArriveAll(ms: seq<Message>)
      requires Valid()
      modifies inQueue, inQueue.elements
      ensures Valid() && outQueue.Contents() == old(outQueue.Contents())
      ensures inQueue.Contents() == old(inQueue.Contents()) + ms
      ensures forall e | e in inQueue.elements :: e in old(inQueue.elements) || fresh(e)
    {
      if ms != [] {
        Arrive(ms[0]);
        ghost var es := inQueue.elements;
        assert forall i | 0 <= i < |es| :: es[i] in es;
        assert forall i | 0 <= i < |es| :: es[i] in old(inQueue.elements) || fresh(es[i]);
        ArriveAll(ms[1..]);
        assert [ms[0]] + ms[1..] == ms;
      }
    }

    /** get_message, called at the time `start`; `killed` is the kill status then, and `waits` what happens
        each time that the caller waits. */
    method GetMessage(start: uint64, timeout: uint64, killed: bool, waits: seq<Wait>) returns (r: Reply)
      requires Valid()
      modifies inQueue, inQueue.elements
      ensures Valid() && outQueue.Contents() == old(outQueue.Contents())
      ensures (r, inQueue.Contents()) == Awaited(old(inQueue.Contents()), start, start, killed, timeout, waits)
    {
      hide InTime;
      ghost var q := inQueue.Contents();
      var now, dead, i := start, killed, 0;
      while !dead && InTime(start, now, timeout)
        invariant i <= |waits| && Valid() && outQueue.Contents() == old(outQueue.Contents())
        invariant forall e | e in inQueue.elements :: e in old(inQueue.elements) || fresh(e)
        invariant Awaited(q, start, start, killed, timeout, waits)
               == Awaited(inQueue.Contents(), start, now, dead, timeout, waits[i..])
        decreases |waits| - i, !dead
      {
        if inQueue.size > 0 {
          var m := inQueue.Pop();
          return Taken(m.value);
        }
        if i < |waits| {
          ArriveAll(waits[i].queued);
          now, dead, i := waits[i].now, waits[i].killed, i + 1;
        } else {
          dead := true;
        }
      }
      r := if InTime(start, now, timeout) then Ended else Late;
    }

    /** One read_bytes with the check of its result: the whole field, or the end of the connection. */
    method ReadField(n: nat) returns (ok: bool, buf: bytes)
      requires socket.consumed <= |socket.arrived|
      modifies socket
      ensures socket.sent == old(socket.sent) && old(socket.arrived) <= socket.arrived
      ensures socket.consumed == old(socket.consumed) + |buf| <= |socket.arrived|
      ensures buf == socket.arrived[old(socket.consumed)..socket.consumed]
      ensures if ok then |buf| == n else |buf| < n || n == 0 == |buf|
    {
      var total: int;
      total, buf := socket.Recv(n);
      ok := total == n;
    }

    /** The field that follows what was read since `c`. */
    method ReadNext(n: nat, ghost c: nat, ghost before: bytes) returns (ok: bool, buf: bytes)
      requires c <= socket.consumed <= |socket.arrived| && socket.arrived[c..socket.consumed] == before
      modifies socket
      ensures socket.sent == old(socket.sent) && old(socket.arrived) <= socket.arrived
      ensures socket.consumed == old(socket.consumed) + |buf| <= |socket.arrived|
      ensures socket.arrived[c..socket.consumed] == before + buf
      ensures if ok then |buf| == n else |buf| < n || n == 0 == |buf|
    {
      ghost var a, i := socket.arrived, socket.consumed;
      ok, buf := ReadField(n);
      SliceOfPrefix(a, socket.arrived, c, i);
      Joined(socket.arrived, c, before, buf);
    }

    /** One send_bytes with the check of its result. */
    method WriteField(buf: bytes) returns (ok: bool)
      requires socket.consumed <= |socket.arrived|
      modifies socket
      ensures socket.consumed == old(socket.consumed) && old(socket.arrived) <= socket.arrived
      ensures old(socket.sent) <= socket.sent <= old(socket.sent) + buf
      ensures ok ==> socket.sent == old(socket.sent) + buf
    {
      ghost var done: nat;
      var total: int;
      total, done := socket.Send(buf);
      ok := total == |buf|;
      assert buf[..|buf|] == buf;
    }

    /** write_acknowledge. */
    method WriteAcknowledge(p: Primitives, seqNum: uint64) returns (ok: bool)
      requires socket.consumed <= |socket.arrived|
      modifies socket
      ensures socket.consumed == old(socket.consumed) && old(socket.arrived) <= socket.arrived
      ensures old(socket.sent) <= socket.sent <= old(socket.sent) + Encode(p, Ack(seqNum))
      ensures ok ==> socket.sent == old(socket.sent) + Encode(p, Ack(seqNum))
    {
      hide Be32, Be64;
      ok := WriteField(Be32(1));
      if ok {
        ok := WriteField(Be64(seqNum));
      }
    }

    /** write_keepalive. */
    method WriteKeepAlive(p: Primitives) returns (ok: bool)
      requires socket.consumed <= |socket.arrived|
      modifies socket
      ensures socket.consumed == old(socket.consumed) && old(socket.arrived) <= socket.arrived
      ensures old(socket.sent) <= socket.sent <= old(socket.sent) + Encode(p, KeepAlive)
      ensures ok ==> socket.sent == old(socket.sent) + Encode(p, KeepAlive)
    {
      ok := WriteField(Be32(3));
    }

    /** One turn of the loop of write_messages: the oldest message goes out field by field, is noted as
        unacknowledged, and only then leaves the queue. */
    method WriteMessage(p: Primitives, now: uint64) returns (ok: bool)
      requires Valid() && outQueue.Contents() != [] && |outQueue.Contents()[0].body| < TWO64
      modifies socket, outQueue, acks.lists, acks.lists.heads, acks.lists.items
      ensures Valid() && socket.consumed == old(socket.consumed) && old(socket.arrived) <= socket.arrived
      ensures fresh(acks.lists.items - old(acks.lists.items))
      ensures var m := old(outQueue.Contents()[0]);
        && old(socket.sent) <= socket.sent <= old(socket.sent) + Encode(p, Data(m))
        && (ok ==>
          && socket.sent == old(socket.sent) + Encode(p, Data(m))
          && outQueue.Contents() == old(outQueue.Contents())[1..]
          && acks.Contents() == A.Added(old(acks.Contents()), m.seqNum, now)
          && A.Entries(acks.Contents()) == old(A.Entries(acks.Contents())) + multiset{A.Pending(m.seqNum, now)})
        && (!ok ==> outQueue.Contents() == old(outQueue.Contents()) && acks.Contents() == old(acks.Contents()))
    {
      hide Encode, A.Added, A.Entries, A.Times, A.Map.Valid, A.Map.Contents;
      var top := outQueue.Top();
      ok := WriteData(p, top.value);
      if ok {
        acks.Add(top.value.seqNum, now);
        var _ := outQueue.Pop();
      }
    }

    /** The five fields of a data frame. */
    method WriteData(p: Primitives, m: Message) returns (ok: bool)
      requires socket.consumed <= |socket.arrived| && |m.body| < TWO64
      modifies socket
      ensures socket.consumed == old(socket.consumed) && old(socket.arrived) <= socket.arrived
      ensures old(socket.sent) <= socket.sent <= old(socket.sent) + Encode(p, Data(m))
      ensures ok ==> socket.sent == old(socket.sent) + Encode(p, Data(m))
    {
      hide Encode, DataHeader;
      EncodeData(p, m);
      ghost var s0, h, hash := socket.sent, DataHeader(m), p.sha(m.body);
      ok := WriteHeader(m);
      Within(s0, [], h, m.body + hash, socket.sent);
      if !ok { return; }
      ok := WriteField(m.body);
      Within(s0, h, m.body, hash, socket.sent);
      if !ok { return; }
      ok := WriteField(p.sha(m.body));
    }

    /** The type, the sequence number and the length of a data frame. */
    method WriteHeader(m: Message) returns (ok: bool)
      requires socket.consumed <= |socket.arrived| && |m.body| < TWO64
      modifies socket
      ensures socket.consumed == old(socket.consumed) && old(socket.arrived) <= socket.arrived
      ensures old(socket.sent) <= socket.sent <= old(socket.sent) + DataHeader(m)
      ensures ok ==> socket.sent == old(socket.sent) + DataHeader(m)
    {
      hide Be32, Be64, Wrap64;
      ghost var s0 := socket.sent;
      ok := WriteField(Be32(2));
      Within(s0, [], Be32(2), Be64(m.seqNum) + Be64(|m.body|), socket.sent);
      if !ok { return; }
      ok := WriteField(Be64(m.seqNum));
      Within(s0, Be32(2), Be64(m.seqNum), Be64(|m.body|), socket.sent);
      if !ok { return; }
      ok := WriteField(Be64(|m.body|));
    }

    /** write_messages: messages leave in order until the queue is empty or the time for sending is over;
        `times` are the moments at which a message can still be completed. */
    method WriteMessages(p: Primitives, times: seq<uint64>) returns (ok: bool, ghost k: nat)
      requires Valid() && forall m | m in outQueue.Contents() :: |m.body| < TWO64
      modifies socket, outQueue, acks.lists, acks.lists.heads, acks.lists.items
      ensures Valid() && socket.consumed == old(socket.consumed) && old(socket.arrived) <= socket.arrived
      ensures fresh(acks.lists.items - old(acks.lists.items))
      ensures k <= |times| && k <= |old(outQueue.Contents())|
      ensures outQueue.Contents() == old(outQueue.Contents())[k..]
      ensures acks.Contents() == A.AddedAll(old(acks.Contents()), Numbers(old(outQueue.Contents())[..k]), times[..k])
      ensures A.Entries(acks.Contents()) == old(A.Entries(acks.Contents()))
        + multiset(A.Sent(Numbers(old(outQueue.Contents())[..k]), times[..k]))
      ensures forall earliest :: A.Older(acks.Contents(), earliest) <==>
        old(A.Older(acks.Contents(), earliest)) || exists i :: 0 <= i < k && times[i] < earliest
      ensures ok ==> k == Min(|times|, |old(outQueue.Contents())|)
      ensures ok ==> socket.sent == old(socket.sent) + EncodeAll(p, DataFrames(old(outQueue.Contents())[..k]))
      ensures !ok ==> k < |times| && k < |old(outQueue.Contents())|
      ensures !ok ==>
        var whole := old(socket.sent) + EncodeAll(p, DataFrames(old(outQueue.Contents())[..k]));
        whole <= socket.sent <= whole + Encode(p, Data(old(outQueue.Contents())[k]))
    {
      hide A.Added, A.AddedAll, A.Entries, A.Older, A.Sent, Encode, EncodeAll, DataFrames, Numbers, Valid, A.Map.Contents;
      ghost var all := outQueue.Contents();
      var i := 0;
      NothingSent(p, all, times, acks.Contents());
      assert all[0..] == all && socket.sent + [] == socket.sent;
      while outQueue.size > 0 && i < |times|
        invariant Valid() && socket.consumed == old(socket.consumed) && old(socket.arrived) <= socket.arrived
        invariant fresh(acks.lists.items - old(acks.lists.items))
        invariant i <= |times| && i <= |all| && outQueue.Contents() == all[i..]
        invariant acks.Contents() == A.AddedAll(old(acks.Contents()), Numbers(all[..i]), times[..i])
        invariant socket.sent == old(socket.sent) + EncodeAll(p, DataFrames(all[..i]))
      {
        assert all[i] in all;
        ok := WriteMessage(p, times[i]);
        if !ok {
          k := i;
          SentAges(old(acks.Contents()), all, times, k);
          return;
        }
        AckedOneMore(old(acks.Contents()), all, times, i);
        SentOneMore(p, all, i);
        i := i + 1;
      }
      ok, k := true, i;
      SentAges(old(acks.Contents()), all, times, k);
    }

    /** The check that follows in the loop: the connection is given up when some message was sent more than
        ACK_WAITTIME ago and still waits.  The difference is unsigned. */
    method CheckAcks(now: uint64) returns (late: bool)
      requires Valid()
      ensures now >= 100_000_000 ==>
        (late <==> exists e :: e in A.Entries(acks.Contents()) && e.time + 100_000_000 < now)
      ensures now < 100_000_000 ==>
        (late <==> exists e :: e in A.Entries(acks.Contents()) && e.time + 100_000_000 < now + TWO64)
    {
      hide A.Entries;
      late := acks.Overdue(Wrap64(now - ACK_WAITTIME));
    }

    /** The body of a data frame, after its type was read. */
    method ReadData(p: Primitives) returns (r: Outcome, m: Message)
      requires socket.consumed <= |socket.arrived|
      modifies socket
      ensures socket.sent == old(socket.sent) && old(socket.arrived) <= socket.arrived
      ensures old(socket.consumed) <= socket.consumed <= |socket.arrived|
      ensures r == Done ==> |m.body| < TWO64
      ensures r == Refused ==>
        var x := Be32(2) + socket.arrived[old(socket.consumed)..socket.consumed]; Wanted(p, x) == Malformed && Readable(p, x)
      ensures r == Done ==> Be32(2) + socket.arrived[old(socket.consumed)..socket.consumed] == Encode(p, Data(m))
      ensures r == Stopped ==> Unfinished(p, Be32(2) + socket.arrived[old(socket.consumed)..socket.consumed])
      ensures r != Unanswered
    {
      hide Be32, Be64, De32, De64, Wanted, Encode;
      r, m := Stopped, Message(0, []);
      ghost var c := socket.consumed;
      var ok: bool, seqBuf: bytes, lenBuf: bytes, body: bytes, hash: bytes;
      ok, seqBuf := ReadNext(8, c, []);
      assert [] + seqBuf == seqBuf == seqBuf + [] + [];
      if !ok {
        DataCut(p, seqBuf, [], []);
        return;
      }
      ok, lenBuf := ReadNext(8, c, seqBuf);
      if !ok {
        assert seqBuf + lenBuf + [] == seqBuf + lenBuf;
        DataCut(p, seqBuf, lenBuf, []);
        return;
      }
      ok, body := ReadNext(De64(lenBuf), c, seqBuf + lenBuf);
      if !ok {
        DataCut(p, seqBuf, lenBuf, body);
        return;
      }
      ok, hash := ReadNext(32, c, seqBuf + lenBuf + body);
      if !ok {
        Associate(seqBuf + lenBuf, body, hash);
        DataCut(p, seqBuf, lenBuf, body + hash);
        return;
      }
      DataRead(p, seqBuf, lenBuf, body, hash);
      if hash != p.sha(body) { return Refused, m; }
      return Done, Message(De64(seqBuf), body);
    }

    /** A data frame, after its type was read: the message is queued and then acknowledged. */
    method AcceptData(p: Primitives) returns (r: Outcome, m: Message)
      requires Valid()
      modifies socket, inQueue, inQueue.elements
      ensures Valid() && old(socket.arrived) <= socket.arrived && old(socket.consumed) <= socket.consumed
      ensures r == Refused ==>
        var x := Be32(2) + socket.arrived[old(socket.consumed)..socket.consumed]; Wanted(p, x) == Malformed && Readable(p, x)
      ensures r == Refused ==> socket.sent == old(socket.sent) && inQueue.Contents() == old(inQueue.Contents())
      ensures r == Done ==>
        && |m.body| < TWO64
        && Be32(2) + socket.arrived[old(socket.consumed)..socket.consumed] == Encode(p, Data(m))
        && inQueue.Contents() == old(inQueue.Contents()) + [m]
        && socket.sent == old(socket.sent) + Encode(p, Ack(m.seqNum))
      ensures r == Stopped ==>
        && Unfinished(p, Be32(2) + socket.arrived[old(socket.consumed)..socket.consumed])
        && socket.sent == old(socket.sent) && inQueue.Contents() == old(inQueue.Contents())
      ensures r == Unanswered ==>
        && |m.body| < TWO64
        && Be32(2) + socket.arrived[old(socket.consumed)..socket.consumed] == Encode(p, Data(m))
        && inQueue.Contents() == old(inQueue.Contents()) + [m]
        && old(socket.sent) <= socket.sent <= old(socket.sent) + Encode(p, Ack(m.seqNum))
    {
      hide Be32, Wanted, Encode, Unfinished;
      r, m := ReadData(p);
      if r == Done {
        Arrive(m);
        var ok := WriteAcknowledge(p, m.seqNum);
        r := if ok then Done else Unanswered;
      }
    }

    /** An acknowledgement, after its type was read: one occurrence of its number is struck off. */
    method AcceptAck(p: Primitives) returns (r: Outcome, s: uint64)
      requires Valid()
      modifies socket, acks.lists, acks.lists.heads, acks.lists.items
      ensures Valid() && old(socket.arrived) <= socket.arrived && old(socket.consumed) <= socket.consumed
      ensures socket.sent == old(socket.sent)
      ensures r in {Done, Stopped, Refused}
      ensures r == Stopped ==>
        Unfinished(p, Be32(1) + socket.arrived[old(socket.consumed)..socket.consumed]) && acks.Contents() == old(acks.Contents())
      ensures r != Stopped ==>
        && Be32(1) + socket.arrived[old(socket.consumed)..socket.consumed] == Encode(p, Ack(s))
        && A.Removed(old(acks.Contents()), s) == (r == Done, acks.Contents())
      ensures r == Refused ==> acks.Contents() == old(acks.Contents())
    {
      hide Be32, De64, Encode, A.Removed, A.Entries, A.Times, A.Map.Valid, A.Map.Contents;
      var ok, buf := ReadField(8);
      if !ok {
        AckCut(p, buf);
        return Stopped, 0;
      }
      s := De64(buf);
      AckRead(p, buf);
      ghost var before := acks.Contents();
      var found := acks.Remove(s);
      if !found {
        A.RemovedNothing(before, s);
      }
      r := if found then Done else Refused;
    }

    /** A keep-alive frame: the time of its arrival is noted. */
    method AcceptKeepAlive(now: uint64)
      requires Valid()
      modifies this`kaLastRecv
      ensures Valid() && kaLastRecv == now
    {
      kaLastRecv := now;
    }

    /** The type of the next frame. */
    method ReadType() returns (ok: bool, buf: bytes)
      requires Valid()
      modifies socket
      ensures Valid() && socket.sent == old(socket.sent) && old(socket.arrived) <= socket.arrived
      ensures socket.consumed == old(socket.consumed) + |buf|
      ensures buf == socket.arrived[old(socket.consumed)..socket.consumed]
      ensures if ok then |buf| == 4 else |buf| < 4
    {
      ok, buf := ReadField(4);
    }

    /** read_message: one frame is taken off the stream and acted on.  The reader refuses only what is
        no frame, or an acknowledgement that nothing waits for. */
    method ReadMessage(p: Primitives, now: uint64) returns (r: Outcome, ghost f: Frame)
      requires Valid()
      modifies this`kaLastRecv, socket, inQueue, inQueue.elements, acks.lists, acks.lists.heads, acks.lists.items
      ensures Valid() && old(socket.consumed) <= socket.consumed && old(socket.arrived) <= socket.arrived
      ensures r == Done ==> socket.arrived[old(socket.consumed)..socket.consumed] == Encode(p, f) && Sendable(f)
      ensures r == Done ==> match f
        case KeepAlive =>
          && kaLastRecv == now && socket.sent == old(socket.sent)
          && inQueue.Contents() == old(inQueue.Contents()) && acks.Contents() == old(acks.Contents())
        case Ack(s) =>
          && kaLastRecv == old(kaLastRecv) && socket.sent == old(socket.sent)
          && inQueue.Contents() == old(inQueue.Contents())
          && A.Removed(old(acks.Contents()), s) == (true, acks.Contents())
        case Data(m) =>
          && kaLastRecv == old(kaLastRecv) && socket.sent == old(socket.sent) + Encode(p, Ack(m.seqNum))
          && inQueue.Contents() == old(inQueue.Contents()) + [m] && acks.Contents() == old(acks.Contents())
      ensures r == Refused ==>
        && Refuses(p, old(acks.Contents()), socket.arrived[old(socket.consumed)..socket.consumed])
        && kaLastRecv == old(kaLastRecv) && socket.sent == old(socket.sent)
        && inQueue.Contents() == old(inQueue.Contents()) && acks.Contents() == old(acks.Contents())
      ensures r == Stopped ==>
        && Unfinished(p, socket.arrived[old(socket.consumed)..socket.consumed])
        && kaLastRecv == old(kaLastRecv) && socket.sent == old(socket.sent)
        && inQueue.Contents() == old(inQueue.Contents()) && acks.Contents() == old(acks.Contents())
      ensures r == Unanswered ==>
        && f.Data? && Sendable(f) && socket.arrived[old(socket.consumed)..socket.consumed] == Encode(p, f)
        && kaLastRecv == old(kaLastRecv) && acks.Contents() == old(acks.Contents())
        && inQueue.Contents() == old(inQueue.Contents()) + [f.m]
        && old(socket.sent) <= socket.sent <= old(socket.sent) + Encode(p, Ack(f.m.seqNum))
      ensures r == Refused ==> forall g | Sendable(g) && Encode(p, g) <= socket.arrived[old(socket.consumed)..] ::
        g.Ack? && !A.Removed(old(acks.Contents()), g.seqNum).0
    {
      hide Be32, De32, De64, Wanted, Encode, A.Removed, Refuses, Readable, Unfinished, Valid, A.Map.Contents;
      r, f := Stopped, KeepAlive;
      var ok, buf := ReadType();
      if !ok {
        TypeUnfinished(p, buf);
        return;
      }
      var t := De32(buf);
      ghost var c := old(socket.consumed);
      if t == 1 {
        var s: uint64;
        r, s := AcceptAck(p);
        f := Ack(s);
        HeadAndTail(socket.arrived, c, socket.consumed, buf);
        if r == Refused {
          StrangeAckRefused(p, old(acks.Contents()), s);
        }
      } else if t == 2 {
        var m: Message;
        r, m := AcceptData(p);
        f := Data(m);
        HeadAndTail(socket.arrived, c, socket.consumed, buf);
        if r == Refused {
          MalformedRefused(p, old(acks.Contents()), socket.arrived[c..socket.consumed]);
        }
      } else if t == 3 {
        AcceptKeepAlive(now);
        KeepAliveRead(p, buf);
        r := Done;
      } else {
        TypeRead(p, buf);
        MalformedRefused(p, acks.Contents(), buf);
        r := Refused;
      }
      if r == Refused {
        RefusalIsRight(p, old(acks.Contents()), socket.arrived[c..socket.consumed], socket.arrived[c..]);
      }
    }
  }

  function Numbers(ms: seq<Message>): (r: seq<uint64>)
    ensures |r| == |ms| && forall i | 0 <= i < |ms| :: r[i] == ms[i].seqNum
  {
    seq(|ms|, i requires 0 <= i < |ms| => ms[i].seqNum)
  }

  lemma HeadAndTail(s: bytes, from: nat, to: nat, head: bytes)
    requires from + 4 <= to <= |s| && head == s[from..from + 4]
    ensures head + s[from + 4..to] == s[from..to]
  {
  }

  /** These bytes, read field by field, are no frame, or an acknowledgement of nothing. */
  ghost predicate Refuses(p: Primitives, acks: A.Lists, x: bytes)
    requires |acks| == A.BUCKETS
  {
    && Readable(p, x)
    && (Wanted(p, x) == Malformed || (Wanted(p, x).Complete? && Wanted(p, x).f.Ack? && !A.Removed(acks, Wanted(p, x).f.seqNum).0))
  }

  lemma StrangeAckRefused(p: Primitives, acks: A.Lists, s: uint64)
    requires |acks| == A.BUCKETS && !A.Removed(acks, s).0
    ensures Refuses(p, acks, Encode(p, Ack(s)))
  {
    hide Wanted, Encode, A.Removed, Readable;
    FrameReadable(p, Ack(s));
    ReaderFollowsFrame(p, Ack(s), Encode(p, Ack(s)));
  }

  lemma MalformedRefused(p: Primitives, acks: A.Lists, x: bytes)
    requires |acks| == A.BUCKETS && Wanted(p, x) == Malformed && Readable(p, x)
    ensures Refuses(p, acks, x)
  {
  }

  /** What is refused begins no frame but an acknowledgement of nothing. */
  lemma RefusalIsRight(p: Primitives, acks: A.Lists, x: bytes, stream: bytes)
    requires |acks| == A.BUCKETS && Refuses(p, acks, x) && x <= stream
    ensures forall g | Sendable(g) && Encode(p, g) <= stream :: g.Ack? && !A.Removed(acks, g.seqNum).0
  {
    hide Wanted, Encode, A.Removed, Readable;
    if Wanted(p, x) == Malformed {
      NoFrame(p, x, stream);
    } else {
      RecognisedIsEncoded(p, x);
      var f := Wanted(p, x).f;
      assert Encode(p, f) <= stream;
      OnlyFrame(p, Encode(p, f), f, stream);
    }
  }

  /** What was read in two parts. */
  lemma Joined(s: bytes, from: nat, a: bytes, b: bytes)
    requires from + |a| + |b| <= |s| && s[from..from + |a|] == a && s[from + |a|..from + |a| + |b|] == b
    ensures s[from..from + |a| + |b|] == a + b
  {
  }

  lemma DataRead(p: Primitives, seqBuf: bytes, lenBuf: bytes, body: bytes, hash: bytes)
    requires |seqBuf| == 8 && |lenBuf| == 8 && |body| == De64(lenBuf) && |hash| == 32
    ensures var got, m := Be32(2) + (seqBuf + lenBuf + body + hash), Message(De64(seqBuf), body);
      && Wanted(p, got) == (if hash == p.sha(body) then Complete(Data(m)) else Malformed)
      && (hash == p.sha(body) ==> got == Encode(p, Data(m)))
      && Readable(p, got)
  {
    hide Be32, Be64, De32, De64, Readable;
    TypesDiffer();
    var got, n := Be32(2) + (seqBuf + lenBuf + body + hash), |body|;
    assert got[..4] == Be32(2) && got[4..12] == seqBuf && got[12..20] == lenBuf;
    assert got[20..20 + n] == body && got[20 + n..52 + n] == hash;
    DataReadable(p, got);
  }

  function DataHeader(m: Message): (r: bytes)
    requires |m.body| < TWO64
  {
    Be32(2) + (Be64(m.seqNum) + Be64(|m.body|))
  }

  lemma EncodeData(p: Primitives, m: Message)
    requires |m.body| < TWO64
    ensures Encode(p, Data(m)) == DataHeader(m) + m.body + p.sha(m.body)
  {
    assert Be32(2) + (Be64(m.seqNum) + Be64(|m.body|)) == Be32(2) + Be64(m.seqNum) + Be64(|m.body|);
  }

  /** Bytes that end inside field `f` end inside the whole message `a + f + rest`. */
  lemma Within(s0: bytes, a: bytes, f: bytes, rest: bytes, sent: bytes)
    requires s0 + a <= sent <= s0 + a + f
    ensures s0 <= sent <= s0 + (a + f + rest)
  {
    assert s0 + (a + f + rest) == (s0 + a + f) + rest;
  }

  lemma NothingSent(p: Primitives, all: seq<Message>, times: seq<uint64>, ls: A.Lists)
    requires |ls| == A.BUCKETS
    ensures EncodeAll(p, DataFrames(all[..0])) == []
    ensures A.AddedAll(ls, Numbers(all[..0]), times[..0]) == ls
  {
  }

  lemma SentOneMore(p: Primitives, all: seq<Message>, i: nat)
    requires i < |all|
    ensures EncodeAll(p, DataFrames(all[..i + 1])) == EncodeAll(p, DataFrames(all[..i])) + Encode(p, Data(all[i]))
  {
    hide Encode, EncodeAll;
    assert DataFrames(all[..i + 1]) == DataFrames(all[..i]) + [Data(all[i])];
    EncodeAllSnoc(p, DataFrames(all[..i]), Data(all[i]));
  }

  lemma AckedOneMore(ls: A.Lists, all: seq<Message>, times: seq<uint64>, i: nat)
    requires |ls| == A.BUCKETS && i < |all| && i < |times|
    ensures A.AddedAll(ls, Numbers(all[..i + 1]), times[..i + 1])
         == A.Added(A.AddedAll(ls, Numbers(all[..i]), times[..i]), all[i].seqNum, times[i])
  {
    hide A.Added;
    assert Numbers(all[..i + 1])[..i] == Numbers(all[..i]) && times[..i + 1][..i] == times[..i];
  }

  /** What write_messages adds to the map, and how old that makes it. */
  lemma SentAges(ls: A.Lists, all: seq<Message>, times: seq<uint64>, k: nat)
    requires |ls| == A.BUCKETS && k <= |all| && k <= |times|
    ensures var numbers := Numbers(all[..k]); var after := A.AddedAll(ls, numbers, times[..k]);
      && A.Entries(after) == A.Entries(ls) + multiset(A.Sent(numbers, times[..k]))
      && forall earliest :: A.Older(after, earliest) <==>
           A.Older(ls, earliest) || exists i :: 0 <= i < k && times[i] < earliest
  {
    hide A.AddedAll, A.Entries, A.Older, A.Sent, Numbers;
    var numbers := Numbers(all[..k]);
    A.AddedAllEntries(ls, numbers, times[..k]);
    forall earliest
      ensures A.Older(A.AddedAll(ls, numbers, times[..k]), earliest) <==>
        A.Older(ls, earliest) || exists i :: 0 <= i < k && times[i] < earliest
    {
      A.AddedAllOlder(ls, numbers, times[..k], earliest);
      assert forall i | 0 <= i < k :: times[..k][i] == times[i];
    }
  }

  lemma AckCut(p: Primitives, buf: bytes)
    requires |buf| < 8
    ensures Unfinished(p, Be32(1) + buf)
  {
    hide Be32, De32, Unfinished;
    TypesDiffer();
    assert (Be32(1) + buf)[..4] == Be32(1);
    AckUnfinished(p, Be32(1) + buf);
  }

  /** A data frame that was read up to some byte after its type, and before its end. */
  lemma DataCut(p: Primitives, seqBuf: bytes, lenBuf: bytes, more: bytes)
    requires |seqBuf| <= 8 && (|seqBuf| < 8 ==> lenBuf == []) && |lenBuf| <= 8
    requires if |lenBuf| < 8 then more == [] else |more| < 32 + De64(lenBuf)
    ensures Unfinished(p, Be32(2) + (seqBuf + lenBuf + more))
  {
    hide Be32, De32, De64, Unfinished;
    TypesDiffer();
    var x := seqBuf + lenBuf + more;
    var all := Be32(2) + x;
    assert all[..4] == Be32(2) && all[4..] == x;
    if |lenBuf| == 8 {
      assert |seqBuf| == 8;
      SliceOfRest(all, 4, 8, 16);
      assert x[8..16] == lenBuf;
    }
    DataUnfinished(p, all);
  }

  lemma AckRead(p: Primitives, buf: bytes)
    requires |buf| == 8
    ensures Encode(p, Ack(De64(buf))) == Be32(1) + buf
  {
  }

  lemma KeepAliveRead(p: Primitives, buf: bytes)
    requires |buf| == 4 && De32(buf) == 3
    ensures buf == Encode(p, KeepAlive)
  {
  }

  lemma TypeRead(p: Primitives, buf: bytes)
    requires |buf| == 4 && De32(buf) !in {1, 2, 3}
    ensures Wanted(p, buf) == Malformed && Readable(p, buf)
  {
    hide Readable;
    assert buf[..4] == buf;
    TypeReadable(p, buf);
  }

  lemma NoFrame(p: Primitives, got: bytes, stream: bytes)
    requires Wanted(p, got) == Malformed && got <= stream
    ensures forall g | Sendable(g) :: !(Encode(p, g) <= stream)
  {
    hide Wanted, Encode;
    forall g | Sendable(g)
      ensures !(Encode(p, g) <= stream)
    {
      MalformedIsNoFrame(p, got, g, stream);
    }
  }

  lemma OnlyFrame(p: Primitives, got: bytes, f: Frame, stream: bytes)
    requires got == Encode(p, f) && Sendable(f) && got <= stream
    ensures forall g | Sendable(g) && Encode(p, g) <= stream :: g == f
  {
    hide Wanted, Encode;
    forall g | Sendable(g) && Encode(p, g) <= stream
      ensures g == f
    {
      if |Encode(p, g)| <= |got| {
        SliceOfPrefix(Encode(p, g), stream, 0, |Encode(p, g)|);
        PrefixFree(p, g, f);
      } else {
        PrefixFree(p, f, g);
      }
    }
  }
}
