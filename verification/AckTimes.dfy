/** Since when the messages wait that a connection handler has not seen acknowledged, over every run of the
    two sides: what the check of the handler's loop decides by. */
module AckTimes {
  import opened Bytes
  import opened Crypto
  import opened Frames
  import opened MessageQueue
  import A = AckMap
  import D = Duplex

  function Side(s: D.System, who: bool): D.Endpoint {
    if who then s.a else s.b
  }

  /** What one side has written to the end so far, and when. */
  function Log(p: Primitives, run: D.Schedule, who: bool): (log: seq<A.Pending>) {
    if run == [] then [] else
    var before, (side, step) := run[..|run| - 1], run[|run| - 1];
    var m, n := Side(D.Run(p, before), who).completed, Side(D.Run(p, run), who).completed;
    Log(p, before, who)
      + if side == who && step.FinishSend? && |m| < |n| then [A.Pending(n[|n| - 1].seqNum, step.time)] else []
  }

  /** Times that wait are the last ones of those that were ever noted. */
  predicate Newest(waiting: seq<uint64>, all: seq<uint64>) {
    |waiting| <= |all| && waiting == all[|all| - |waiting|..]
  }

  lemma NewestMore(waiting: seq<uint64>, all: seq<uint64>, t: uint64)
    requires Newest(waiting, all)
    ensures Newest(waiting + [t], all + [t])
  {
  }

  lemma NewestLess(waiting: seq<uint64>, all: seq<uint64>)
    requires Newest(waiting, all) && waiting != []
    ensures Newest(waiting[1..], all)
  {
  }

  // ----- one step -----

  /** What a step does to the map of its side and to the record of what was sent. */
  datatype Change = Kept | Noted(m: Message, time: uint64) | Struck(s: uint64)

  predicate Changes(me: D.Endpoint, next: D.Endpoint, c: Change)
    requires |me.acks| == A.BUCKETS
  {
    match c
    case Kept => next.acks == me.acks && next.completed == me.completed
    case Noted(m, time) => next.acks == A.Added(me.acks, m.seqNum, time) && next.completed == me.completed + [m]
    case Struck(s) => next.acks == A.Removed(me.acks, s).1 && next.completed == me.completed
  }

  lemma StepChanges(p: Primitives, me: D.Endpoint, inn: D.Link, out: D.Link, step: D.Step) returns (c: Change)
    requires |me.acks| == A.BUCKETS
    ensures Changes(me, D.Apply(p, me, inn, out, step).0, c)
    ensures c.Noted? ==> step == D.FinishSend(c.time)
    ensures step.FinishSend? ==> !c.Struck?
  {
    hide A.Added, A.Removed, Encode, Wanted, D.Tail;
    var next := D.Apply(p, me, inn, out, step).0;
    c := Kept;
    if step.FinishSend? && next != me {
      c := Noted(me.outQueue[0], step.time);
    } else if step.Act? && next.acks != me.acks {
      c := Struck(Wanted(p, me.phase.got).f.seqNum);
    }
  }

  lemma RunChanges(p: Primitives, run: D.Schedule, who: bool) returns (c: Change)
    requires run != []
    ensures Changes(Side(D.Run(p, run[..|run| - 1]), who), Side(D.Run(p, run), who), c)
    ensures c.Noted? <==> |Log(p, run, who)| > |Log(p, run[..|run| - 1], who)|
    ensures Log(p, run, who) == Log(p, run[..|run| - 1], who) + if c.Noted? then [A.Pending(c.m.seqNum, c.time)] else []
  {
    hide D.Apply, A.Added, A.Removed;
    var s := D.Run(p, run[..|run| - 1]);
    var (side, step) := run[|run| - 1];
    var t := D.Run(p, run);
    assert t == D.Next(p, s, side, step);
    c := Kept;
    if side == who {
      var me, inn, out := Side(s, who), if who then s.ba else s.ab, if who then s.ab else s.ba;
      c := StepChanges(p, me, inn, out, step);
      assert Side(t, who) == D.Apply(p, me, inn, out, step).0;
    }
  }

  // ----- every run -----

  /** The record holds the messages that the side has written, in that order. */
  lemma {:induction false} LogIsCompleted(p: Primitives, run: D.Schedule, who: bool)
    ensures var log, sent := Log(p, run, who), Side(D.Run(p, run), who).completed;
      |log| == |sent| && forall i | 0 <= i < |log| :: log[i].seqNum == sent[i].seqNum
  {
    hide D.Run, Log, A.Added, A.Removed;
    if run == [] {
      NothingYet(p, who);
    } else {
      LogIsCompleted(p, run[..|run| - 1], who);
      var _ := RunChanges(p, run, who);
    }
  }

  lemma NothingYet(p: Primitives, who: bool)
    ensures Log(p, [], who) == [] && Side(D.Run(p, []), who).completed == []
    ensures forall n :: A.Times(Side(D.Run(p, []), who).acks, n) == []
  {
    forall n
      ensures A.Times(A.EMPTY, n) == []
    {
      A.TimesInList(A.EMPTY, 0, n);
    }
  }

  lemma {:induction false} NewestWait(p: Primitives, run: D.Schedule, who: bool, n: uint64)
    ensures Newest(A.Times(Side(D.Run(p, run), who).acks, n), A.TimesIn(Log(p, run, who), n))
  {
    hide D.Run, D.Inv, Log, A.Added, A.Removed, A.Times, A.TimesIn, Newest, A.WellFormed;
    if run == [] {
      NothingYet(p, who);
      NothingNewest(n);
    } else {
      var before := run[..|run| - 1];
      NewestWait(p, before, who, n);
      MapIsSound(p, before, who);
      var c := RunChanges(p, run, who);
      var acks, all := Side(D.Run(p, before), who).acks, Log(p, before, who);
      match c
      case Kept => assert Log(p, run, who) == all;
      case Noted(m, time) => {
        NotedNewest(acks, all, m.seqNum, time, n);
      }
      case Struck(s) => {
        assert Log(p, run, who) == all;
        StruckNewest(acks, all, s, n);
      }
    }
  }

  lemma NothingNewest(n: uint64)
    ensures Newest([], A.TimesIn([], n))
  {
  }

  lemma MapIsSound(p: Primitives, run: D.Schedule, who: bool)
    ensures A.WellFormed(Side(D.Run(p, run), who).acks)
  {
    hide D.Run, D.LinkInv, D.AckInv, A.WellFormed;
    D.RunKeeps(p, run);
  }

  lemma NotedNewest(acks: A.Lists, all: seq<A.Pending>, s: uint64, time: uint64, n: uint64)
    requires A.WellFormed(acks) && Newest(A.Times(acks, n), A.TimesIn(all, n))
    ensures Newest(A.Times(A.Added(acks, s, time), n), A.TimesIn(all + [A.Pending(s, time)], n))
  {
    hide A.Added, A.Times, A.TimesIn, Newest;
    A.AddedTimes(acks, s, time, n);
    A.TimesInAppend(all, [A.Pending(s, time)], n);
    A.TimesInOne(A.Pending(s, time), n);
    var w, ts := A.Times(acks, n), A.TimesIn(all, n);
    NewestMore(w, ts, time);
    assert w + [] == w && ts + [] == ts;
  }

  lemma StruckNewest(acks: A.Lists, all: seq<A.Pending>, s: uint64, n: uint64)
    requires A.WellFormed(acks) && Newest(A.Times(acks, n), A.TimesIn(all, n))
    ensures Newest(A.Times(A.Removed(acks, s).1, n), A.TimesIn(all, n))
  {
    hide A.Removed, A.Times, A.TimesIn, Newest;
    A.RemovedTimes(acks, s, n);
    if n == s && A.Removed(acks, s).0 {
      A.RemovedTimes(acks, s, s);
      NewestLess(A.Times(acks, n), A.TimesIn(all, n));
    }
  }

  lemma SumsAgree(a: multiset<uint64>, b: multiset<uint64>, c: multiset<uint64>, d: multiset<uint64>, n: uint64)
    requires a + b == c + d
    ensures a[n] + b[n] == c[n] + d[n]
  {
    assert (a + b)[n] == (c + d)[n];
  }

  /** Of the messages with one number, those wait that were sent last: as many as are in flight, as messages or
      as acknowledgements on their way back. */
  lemma WaitingAreNewest(p: Primitives, run: D.Schedule, who: bool, n: uint64)
    ensures var s := D.Run(p, run);
      var me, out, inn := Side(s, who), if who then s.ab else s.ba, if who then s.ba else s.ab;
      var waiting, all := A.Times(me.acks, n), A.TimesIn(Log(p, run, who), n);
      && |waiting| + D.CurrentNumber(me)[n] == D.DataNumbers(out.frames)[n] + D.AckNumbers(inn.frames)[n]
      && |waiting| <= |all| && waiting == all[|all| - |waiting|..]
  {
    hide D.Run, D.DataNumbers, D.AckNumbers, D.CurrentNumber, A.Times, A.TimesIn, A.Outstanding, Log;
    NewestWait(p, run, who, n);
    D.AcksMatchTraffic(p, run);
    A.TimesCount(Side(D.Run(p, run), who).acks, n);
    var s := D.Run(p, run);
    var me, out, inn := Side(s, who), if who then s.ab else s.ba, if who then s.ba else s.ab;
    SumsAgree(A.Outstanding(me.acks), D.CurrentNumber(me), D.DataNumbers(out.frames), D.AckNumbers(inn.frames), n);
  }

  /** The check of the loop finds something too old exactly when some number was sent too long ago and has been
      acknowledged less often since: too few of its later sendings are in flight to account for it. */
  lemma OverdueIff(p: Primitives, run: D.Schedule, who: bool, earliest: uint64)
    ensures var acks, log := Side(D.Run(p, run), who).acks, Log(p, run, who);
      A.Older(acks, earliest) <==> exists n, i: nat ::
        |A.TimesIn(log, n)| - |A.Times(acks, n)| <= i < |A.TimesIn(log, n)| && A.TimesIn(log, n)[i] < earliest
  {
    hide D.Run, A.Times, A.TimesIn, A.Entries, Log;
    var acks, log := Side(D.Run(p, run), who).acks, Log(p, run, who);
    if e :| e in A.Entries(acks) && e.time < earliest {
      A.EntriesTimes(acks, e);
      NewestWait(p, run, who, e.seqNum);
      var w, ts := A.Times(acks, e.seqNum), A.TimesIn(log, e.seqNum);
      var i :| 0 <= i < |w| && w[i] == e.time;
      assert ts[|ts| - |w| + i] == w[i];
    }
    if n, i: nat :| |A.TimesIn(log, n)| - |A.Times(acks, n)| <= i < |A.TimesIn(log, n)| && A.TimesIn(log, n)[i] < earliest {
      NewestWait(p, run, who, n);
      var w, ts := A.Times(acks, n), A.TimesIn(log, n);
      assert w[i - (|ts| - |w|)] == ts[i];
      A.EntriesTimes(acks, A.Pending(n, ts[i]));
    }
  }

  /** A side is never given up for want of an acknowledgement while all that it sent was sent recently. */
  lemma RecentIsNotOverdue(p: Primitives, run: D.Schedule, who: bool, earliest: uint64)
    requires forall i | 0 <= i < |run| :: run[i].0 == who && run[i].1.FinishSend? ==> run[i].1.time >= earliest
    ensures !A.Older(Side(D.Run(p, run), who).acks, earliest)
  {
    hide D.Run, A.Times, A.TimesIn, A.Older, Log;
    OverdueIff(p, run, who, earliest);
    forall n, i | 0 <= i < |A.TimesIn(Log(p, run, who), n)|
      ensures A.TimesIn(Log(p, run, who), n)[i] >= earliest
    {
      LogIsRecent(p, run, who, earliest);
      A.TimesInFrom(Log(p, run, who), n, i);
    }
  }

  lemma {:induction false} LogIsRecent(p: Primitives, run: D.Schedule, who: bool, earliest: uint64)
    requires forall i | 0 <= i < |run| :: run[i].0 == who && run[i].1.FinishSend? ==> run[i].1.time >= earliest
    ensures forall e | e in Log(p, run, who) :: e.time >= earliest
  {
    hide D.Run;
    if run != [] {
      LogIsRecent(p, run[..|run| - 1], who, earliest);
    }
  }
}
