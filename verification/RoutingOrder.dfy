/** When the interleaved client threads keep the order of a user's letters, and when they leave letters
    behind for a user who is there. */
module RoutingOrder {
  import opened Bytes
  import opened Crypto
  import opened Options
  import opened HandlerTable
  import opened Routing
  import opened RoutingThreads
  import opened Sequences
  import L = UndeliveredLog

  // ----- the letters of one user, numbered in the order in which they are accepted -----

  /** Where a letter is: with a handler of its user, in the file or drained from it, or carried by a thread. */
  datatype Place = Handed | Stored | Held(i: nat)

  /** The numbers of one user's letters at each place, in the order in which they lie there. */
  datatype Ledger = Ledger(
    places: seq<Place>,
    handed: seq<nat>,
    draining: seq<nat>,
    waiting: seq<nat>,
    carried: map<nat, nat>)

  /** What one step does with the letters of one user. */
  datatype Move =
    | Nothing
    | Come(i: nat)
    | Give(i: nat)
    | Keep(i: nat)
    | Drain
    | SendFirst

  const BLANK: Ledger := Ledger([], [], [], [], map[])

  function MoveOf(p: Primitives, reg: Registry, s: State, step: Step, u: Block): Move
    requires FilesPresent(reg, s.world)
  {
    match step
    case Receive(i, m) =>
      if i < |s.threads| && s.threads[i].job.Idle? && |m| < TWO64 && Parse(reg, m).Deliver? && Parse(reg, m).to == u
      then Come(i) else Nothing
    case Finish(i) =>
      if i < |s.threads| && s.threads[i].job.Carrying? && s.threads[i].job.x.to == u then
        if s.threads[i].job.online then Give(i)
        else if u in reg && Room(s.world.files[u]) then Keep(i) else Nothing
      else Nothing
    case Fetch(i) =>
      if i < |s.threads| && s.threads[i].job.Joining? && s.threads[i].id == u && u in reg
         && L.Load(p, reg[u].auth, s.world.files[u]).Some? then Drain else Nothing
    case SendNext(i) =>
      if i < |s.threads| && s.threads[i].id == u && s.threads[i].job.Draining? && s.threads[i].job.rest != []
      then SendFirst else Nothing
    case _ => Nothing
  }

  function Record(l: Ledger, mv: Move): Ledger {
    match mv
    case Nothing => l
    case Come(i) => l.(places := l.places + [Held(i)], carried := l.carried[i := |l.places|])
    case Give(i) =>
      if i in l.carried && l.carried[i] < |l.places| then
        var t := l.carried[i];
        l.(places := l.places[t := Handed], handed := l.handed + [t], carried := l.carried - {i})
      else l
    case Keep(i) =>
      if i in l.carried && l.carried[i] < |l.places| then
        var t := l.carried[i];
        l.(places := l.places[t := Stored], waiting := l.waiting + [t], carried := l.carried - {i})
      else l
    case Drain => l.(draining := l.waiting, waiting := [])
    case SendFirst =>
      if l.draining != [] && l.draining[0] < |l.places| then
        var t := l.draining[0];
        l.(places := l.places[t := Handed], handed := l.handed + [t], draining := l.draining[1..])
      else l
  }

  /** The ledger after a run. */
  function Watched(p: Primitives, reg: Registry, u: Block, run: seq<Step>): Ledger {
    if run == [] then BLANK else
    var front := run[..|run| - 1];
    Record(Watched(p, reg, u, front), MoveOf(p, reg, Run(p, reg, front), run[|run| - 1], u))
  }

  /** A letter that was accepted and not handed over: it is drained, waits in the file or is carried. */
  predicate Behind(l: Ledger, t: nat) {
    t in l.draining || t in l.waiting || exists i :: i in l.carried && l.carried[i] == t
  }

  /** The letter that a step is about to hand over. */
  function About(l: Ledger, mv: Move): Option<nat> {
    match mv
    case Give(i) => if i in l.carried then Some(l.carried[i]) else None
    case SendFirst => if l.draining != [] then Some(l.draining[0]) else None
    case _ => None
  }

  /** A step overtakes when it hands a letter over while an older one is drained, waiting or carried. */
  ghost predicate Overtakes(l: Ledger, mv: Move) {
    About(l, mv).Some? && exists t: nat :: t < About(l, mv).value && Behind(l, t)
  }

  ghost predicate Overtaken(p: Primitives, reg: Registry, u: Block, run: seq<Step>) {
    run != [] &&
    var front := run[..|run| - 1];
    Overtaken(p, reg, u, front)
      || Overtakes(Watched(p, reg, u, front), MoveOf(p, reg, Run(p, reg, front), run[|run| - 1], u))
  }

  // ----- the ledger is right about itself -----

  predicate Distinct(ts: seq<nat>) {
    forall i, j | 0 <= i < j < |ts| :: ts[i] != ts[j]
  }

  /** Every letter is at the one place that the ledger says. */
  predicate Balanced(l: Ledger) {
    && (forall t | t in l.handed :: t < |l.places| && l.places[t] == Handed)
    && (forall t | t in l.draining + l.waiting :: t < |l.places| && l.places[t] == Stored)
    && (forall i | i in l.carried :: l.carried[i] < |l.places| && l.places[l.carried[i]] == Held(i))
    && (forall t | 0 <= t < |l.places| ::
          && (l.places[t] == Handed ==> t in l.handed)
          && (l.places[t] == Stored ==> t in l.draining + l.waiting)
          && (l.places[t].Held? ==> l.places[t].i in l.carried && l.carried[l.places[t].i] == t))
    && Distinct(l.draining + l.waiting)
  }

  /** A thread carries one letter at a time, and a file is drained when the last draining is over. */
  predicate Timely(l: Ledger, mv: Move) {
    (mv.Come? ==> mv.i !in l.carried) && (mv.Drain? ==> l.draining == [])
  }

  lemma ComeBalances(l: Ledger, i: nat)
    requires Balanced(l) && i !in l.carried
    ensures Balanced(Record(l, Come(i)))
  {
  }

  lemma GiveBalances(l: Ledger, i: nat)
    requires Balanced(l)
    ensures Balanced(Record(l, Give(i)))
  {
  }

  lemma KeepBalances(l: Ledger, i: nat)
    requires Balanced(l)
    ensures Balanced(Record(l, Keep(i)))
  {
    if i in l.carried {
      var t := l.carried[i];
      assert l.draining + (l.waiting + [t]) == (l.draining + l.waiting) + [t];
    }
  }

  lemma SendBalances(l: Ledger)
    requires Balanced(l)
    ensures Balanced(Record(l, SendFirst))
  {
    if l.draining != [] {
      var all := l.draining + l.waiting;
      assert l.draining[0] == all[0] && all[0] in all;
      var r := Record(l, SendFirst);
      assert r.draining + r.waiting == all[1..];
      assert all == [all[0]] + all[1..];
      forall t | t in all[1..]
        ensures t in all && t != all[0]
      {
        var k :| 0 <= k < |all[1..]| && all[1..][k] == t;
        assert all[k + 1] == t;
      }
    }
  }

  lemma RecordBalances(l: Ledger, mv: Move)
    requires Balanced(l) && Timely(l, mv)
    ensures Balanced(Record(l, mv))
  {
    hide Balanced, Record;
    match mv
    case Come(i) => ComeBalances(l, i);
    case Give(i) => GiveBalances(l, i);
    case Keep(i) => KeepBalances(l, i);
    case SendFirst => SendBalances(l);
    case _ => StillBalances(l, mv);
  }

  lemma StillBalances(l: Ledger, mv: Move)
    requires Balanced(l) && Timely(l, mv) && (mv.Nothing? || mv.Drain?)
    ensures Balanced(Record(l, mv))
  {
    assert [] + l.waiting == l.waiting && l.waiting + [] == l.waiting;
  }

  /** The letters handed over are the first ones that were accepted, in order. */
  predicate HandedInOrder(l: Ledger) {
    forall i | 0 <= i < |l.handed| :: l.handed[i] == i
  }

  lemma NotHandedIsBehind(l: Ledger, t: nat)
    requires Balanced(l) && t < |l.places|
    ensures Behind(l, t) <==> t !in l.handed
  {
  }

  /** A step keeps the order exactly when it does not overtake. */
  lemma OrderStep(l: Ledger, mv: Move)
    requires Balanced(l)
    ensures HandedInOrder(Record(l, mv)) <==> HandedInOrder(l) && !Overtakes(l, mv)
  {
    hide Balanced, Behind;
    var next := About(l, mv);
    HandedRecorded(l, mv);
    if next.Some? {
      AboutIsBehind(l, mv);
      var t := next.value;
      if HandedInOrder(l) {
        var n := |l.handed|;
        forall x: nat | x < |l.places|
          ensures Behind(l, x) <==> x >= n
        {
          NotHandedIsBehind(l, x);
          assert x < n ==> l.handed[x] == x;
        }
        assert Record(l, mv).handed[n] == t;
        if t > n {
          assert Behind(l, n);
        }
        if x: nat :| x < t && Behind(l, x) {
          assert x >= n;
        }
      } else {
        var i :| 0 <= i < |l.handed| && l.handed[i] != i;
        assert Record(l, mv).handed[i] == l.handed[i];
      }
    }
  }

  lemma AboutIsBehind(l: Ledger, mv: Move)
    requires Balanced(l) && About(l, mv).Some?
    ensures About(l, mv).value < |l.places| && Behind(l, About(l, mv).value)
  {
    FirstIsCounted(l);
  }

  lemma FirstIsCounted(l: Ledger)
    requires Balanced(l)
    ensures l.draining != [] ==> l.draining[0] < |l.places|
  {
    if l.draining != [] {
      assert l.draining[0] in l.draining + l.waiting;
    }
  }

  lemma HandedRecorded(l: Ledger, mv: Move)
    requires Balanced(l)
    ensures Record(l, mv).handed == l.handed + if About(l, mv).Some? then [About(l, mv).value] else []
  {
    FirstIsCounted(l);
  }

  // ----- the ledger is right about the server -----

  predicate Below(ts: seq<nat>, n: nat) {
    forall i | 0 <= i < |ts| :: ts[i] < n
  }

  /** The letters with these numbers. */
  function Pick(acc: seq<bytes>, ts: seq<nat>): (r: seq<bytes>)
    requires Below(ts, |acc|)
    ensures |r| == |ts| && forall i | 0 <= i < |ts| :: r[i] == acc[ts[i]]
  {
    seq(|ts|, i requires 0 <= i < |ts| => acc[ts[i]])
  }

  /** A user has at most one thread that has not ended, and has one exactly while in the table. */
  predicate OneThreadEach(s: State) {
    && (forall i, j | 0 <= i < j < |s.threads| && !s.threads[i].job.Ended? && !s.threads[j].job.Ended? ::
          s.threads[i].id != s.threads[j].id)
    && (forall i | 0 <= i < |s.threads| && !s.threads[i].job.Ended? :: s.threads[i].id in s.world.online)
    && (forall u | u in s.world.online :: exists i :: 0 <= i < |s.threads| && !s.threads[i].job.Ended? && s.threads[i].id == u)
  }

  predicate IsDraining(t: Thread, u: Block) {
    t.id == u && t.job.Draining?
  }

  predicate IsCarrying(t: Thread, u: Block) {
    t.job.Carrying? && t.job.x.to == u
  }

  predicate InRange(l: Ledger, n: nat) {
    && |l.places| == n
    && Below(l.handed, n) && Below(l.draining, n) && Below(l.waiting, n)
    && (forall i | i in l.carried :: l.carried[i] < n)
  }

  /** The numbers of the letters that threads hold. */
  predicate ThreadsAgree(ts: seq<Thread>, u: Block, acc: seq<bytes>, l: Ledger)
    requires InRange(l, |acc|)
  {
    && (forall i | i in l.carried :: i < |ts| && IsCarrying(ts[i], u))
    && (forall i | 0 <= i < |ts| && IsCarrying(ts[i], u) :: i in l.carried && ts[i].job.x.m == acc[l.carried[i]])
    && (forall i | 0 <= i < |ts| && IsDraining(ts[i], u) :: ts[i].job.rest == Pick(acc, l.draining))
    && ((forall i | 0 <= i < |ts| :: !IsDraining(ts[i], u)) ==> l.draining == [])
  }

  /** The numbers lie where the letters do. */
  predicate Agrees(p: Primitives, reg: Registry, s: State, u: Block, l: Ledger)
    requires u in reg && u in s.world.files
  {
    var acc := For(u, s.world.accepted);
    && InRange(l, |acc|)
    && For(u, s.world.handed) == Pick(acc, l.handed)
    && Logged(p, reg[u].auth, s.world.files[u]) == Pick(acc, l.waiting)
    && ThreadsAgree(s.threads, u, acc, l)
  }

  predicate Sane(p: Primitives, reg: Registry, s: State, u: Block, l: Ledger)
    requires u in reg && u in s.world.files
  {
    OneThreadEach(s) && Balanced(l) && Agrees(p, reg, s, u, l)
  }

  lemma SameThreads(s: State, r: State)
    requires OneThreadEach(s) && |r.threads| == |s.threads| && r.world.online == s.world.online
    requires forall i | 0 <= i < |s.threads| ::
      r.threads[i].id == s.threads[i].id && (r.threads[i].job.Ended? <==> s.threads[i].job.Ended?)
    ensures OneThreadEach(r)
  {
    forall u | u in r.world.online
      ensures exists i :: 0 <= i < |r.threads| && !r.threads[i].job.Ended? && r.threads[i].id == u
    {
      var i :| 0 <= i < |s.threads| && !s.threads[i].job.Ended? && s.threads[i].id == u;
      assert !r.threads[i].job.Ended? && r.threads[i].id == u;
    }
  }

  lemma EnterOneThread(s: State, h: Handler)
    requires OneThreadEach(s) && h.id !in s.world.online
    ensures OneThreadEach(State(Joined(s.world, h), s.threads + [Thread(h.id, Joining)]))
  {
    var r := State(Joined(s.world, h), s.threads + [Thread(h.id, Joining)]);
    forall u | u in r.world.online
      ensures exists i :: 0 <= i < |r.threads| && !r.threads[i].job.Ended? && r.threads[i].id == u
    {
      if u == h.id {
        assert r.threads[|s.threads|].id == u;
      } else {
        var i :| 0 <= i < |s.threads| && !s.threads[i].job.Ended? && s.threads[i].id == u;
        assert r.threads[i] == s.threads[i];
      }
    }
  }

  lemma LeaveOneThread(s: State, i: nat)
    requires OneThreadEach(s) && i < |s.threads| && s.threads[i].job.Idle?
    ensures OneThreadEach(WithJob(s.(world := Left(s.world, s.threads[i].id)), i, Ended))
  {
    var r := WithJob(s.(world := Left(s.world, s.threads[i].id)), i, Ended);
    forall u | u in r.world.online
      ensures exists k :: 0 <= k < |r.threads| && !r.threads[k].job.Ended? && r.threads[k].id == u
    {
      var k :| 0 <= k < |s.threads| && !s.threads[k].job.Ended? && s.threads[k].id == u;
      assert r.threads[k] == s.threads[k];
    }
  }

  lemma OneThreadStep(p: Primitives, reg: Registry, s: State, step: Step)
    requires FilesPresent(reg, s.world) && OneThreadEach(s)
    ensures OneThreadEach(Apply(p, reg, s, step))
  {
    hide OneThreadEach, Apply;
    match step
    case Enter(_) => ComingOrGoing(p, reg, s, step);
    case Leave(_) => ComingOrGoing(p, reg, s, step);
    case Receive(_, _) => LetterMoves(p, reg, s, step);
    case Finish(_) => LetterMoves(p, reg, s, step);
    case _ => FileMoves(p, reg, s, step);
  }

  lemma ComingOrGoing(p: Primitives, reg: Registry, s: State, step: Step)
    requires FilesPresent(reg, s.world) && OneThreadEach(s) && (step.Enter? || step.Leave?)
    ensures OneThreadEach(Apply(p, reg, s, step))
  {
    hide OneThreadEach;
    match step
    case Enter(h) => if h.id !in s.world.online { EnterOneThread(s, h); }
    case Leave(i) => if i < |s.threads| && s.threads[i].job.Idle? { LeaveOneThread(s, i); }
  }

  lemma LetterMoves(p: Primitives, reg: Registry, s: State, step: Step)
    requires FilesPresent(reg, s.world) && OneThreadEach(s) && (step.Receive? || step.Finish?)
    ensures OneThreadEach(Apply(p, reg, s, step))
  {
    hide OneThreadEach, Parse, Room, Letter, L.AfterAdd;
    SameThreads(s, Apply(p, reg, s, step));
  }

  lemma FileMoves(p: Primitives, reg: Registry, s: State, step: Step)
    requires FilesPresent(reg, s.world) && OneThreadEach(s) && (step.Fetch? || step.SendNext? || step.Ready?)
    ensures OneThreadEach(Apply(p, reg, s, step))
  {
    hide OneThreadEach, L.Load, L.Canonical;
    SameThreads(s, Apply(p, reg, s, step));
  }

  lemma PickMore(acc: seq<bytes>, m: bytes, ts: seq<nat>)
    requires Below(ts, |acc|)
    ensures Below(ts, |acc + [m]|) && Pick(acc + [m], ts) == Pick(acc, ts)
  {
  }

  lemma PickSnoc(acc: seq<bytes>, ts: seq<nat>, t: nat)
    requires Below(ts, |acc|) && t < |acc|
    ensures Below(ts + [t], |acc|) && Pick(acc, ts + [t]) == Pick(acc, ts) + [acc[t]]
  {
  }

  lemma ThreadTakesUp(ts: seq<Thread>, u: Block, acc: seq<bytes>, l: Ledger, i: nat, x: Parcel, online: bool)
    requires InRange(l, |acc|) && ThreadsAgree(ts, u, acc, l) && i < |ts| && ts[i].job.Idle? && x.to == u
    ensures i !in l.carried && InRange(Record(l, Come(i)), |acc + [x.m]|)
    ensures ThreadsAgree(ts[i := ts[i].(job := Carrying(x, online))], u, acc + [x.m], Record(l, Come(i)))
  {
    hide Pick;
    PickMore(acc, x.m, l.draining);
    var r := ts[i := ts[i].(job := Carrying(x, online))];
    assert forall k | 0 <= k < |ts| && k != i :: r[k] == ts[k];
    assert forall k | 0 <= k < |ts| && IsDraining(ts[k], u) :: IsDraining(r[k], u);
  }

  lemma ThreadPutsDown(ts: seq<Thread>, u: Block, acc: seq<bytes>, l: Ledger, n: Ledger, i: nat)
    requires InRange(l, |acc|) && ThreadsAgree(ts, u, acc, l) && i < |ts| && IsCarrying(ts[i], u)
    requires InRange(n, |acc|) && n.carried == l.carried - {i} && n.draining == l.draining
    ensures ThreadsAgree(ts[i := ts[i].(job := Idle)], u, acc, n)
  {
    hide Pick;
    var r := ts[i := ts[i].(job := Idle)];
    assert forall k | 0 <= k < |ts| && k != i :: r[k] == ts[k];
    assert forall k | 0 <= k < |ts| && IsDraining(ts[k], u) :: IsDraining(r[k], u);
  }

  lemma ThreadStartsDraining(ts: seq<Thread>, u: Block, acc: seq<bytes>, l: Ledger, i: nat)
    requires InRange(l, |acc|) && ThreadsAgree(ts, u, acc, l) && i < |ts| && ts[i].id == u && ts[i].job.Joining?
    requires forall k | 0 <= k < |ts| && k != i :: ts[k].id == u ==> ts[k].job.Ended?
    ensures l.draining == []
    ensures ThreadsAgree(ts[i := ts[i].(job := Draining(Pick(acc, l.waiting)))], u, acc, Record(l, Drain))
  {
    var r := ts[i := ts[i].(job := Draining(Pick(acc, l.waiting)))];
    assert forall k | 0 <= k < |ts| && k != i :: r[k] == ts[k];
    assert IsDraining(r[i], u);
  }

  lemma ThreadDrainsOne(ts: seq<Thread>, u: Block, acc: seq<bytes>, l: Ledger, n: Ledger, i: nat)
    requires InRange(l, |acc|) && ThreadsAgree(ts, u, acc, l) && i < |ts| && IsDraining(ts[i], u) && ts[i].job.rest != []
    requires forall k | 0 <= k < |ts| && k != i :: ts[k].id == u ==> ts[k].job.Ended?
    requires InRange(n, |acc|) && n.carried == l.carried && n.draining == l.draining[1..]
    ensures ThreadsAgree(ts[i := ts[i].(job := Draining(ts[i].job.rest[1..]))], u, acc, n)
  {
    var r := ts[i := ts[i].(job := Draining(ts[i].job.rest[1..]))];
    assert forall k | 0 <= k < |ts| && k != i :: r[k] == ts[k];
    assert Pick(acc, l.draining)[1..] == Pick(acc, n.draining);
    assert IsDraining(r[i], u);
  }

  /** A letter for `u` is accepted. */
  lemma ComeAgrees(p: Primitives, reg: Registry, s: State, u: Block, l: Ledger, i: nat, x: Parcel, online: bool)
    requires u in reg && u in s.world.files && Agrees(p, reg, s, u, l)
    requires i < |s.threads| && s.threads[i].job.Idle? && x.to == u
    ensures i !in l.carried
    ensures Agrees(p, reg, WithJob(s.(world := Accept(s.world, x)), i, Carrying(x, online)), u, Record(l, Come(i)))
  {
    hide For, Logged, ThreadsAgree;
    var acc := For(u, s.world.accepted);
    ForSnoc(u, s.world.accepted, x);
    PickMore(acc, x.m, l.handed);
    PickMore(acc, x.m, l.waiting);
    ThreadTakesUp(s.threads, u, acc, l, i, x, online);
  }

  lemma CarriedLetter(p: Primitives, reg: Registry, s: State, u: Block, l: Ledger, i: nat)
    requires u in reg && u in s.world.files && Agrees(p, reg, s, u, l)
    requires i < |s.threads| && IsCarrying(s.threads[i], u)
    ensures i in l.carried && l.carried[i] < |l.places| == |For(u, s.world.accepted)|
    ensures s.threads[i].job.x.m == For(u, s.world.accepted)[l.carried[i]]
  {
    hide For, Logged;
  }

  /** A thread hands the letter that it carries over. */
  lemma GiveAgrees(p: Primitives, reg: Registry, s: State, u: Block, l: Ledger, i: nat, x: Parcel)
    requires u in reg && u in s.world.files && Agrees(p, reg, s, u, l)
    requires i < |s.threads| && s.threads[i].job == Carrying(x, true) && x.to == u
    ensures Agrees(p, reg, WithJob(s.(world := Hand(s.world, x)), i, Idle), u, Record(l, Give(i)))
  {
    hide For, Logged, ThreadsAgree;
    CarriedLetter(p, reg, s, u, l, i);
    ForSnoc(u, s.world.handed, x);
    PickSnoc(For(u, s.world.accepted), l.handed, l.carried[i]);
    ThreadPutsDown(s.threads, u, For(u, s.world.accepted), l, Record(l, Give(i)), i);
  }

  /** A thread stores the letter that it carries. */
  lemma KeepAgrees(p: Primitives, reg: Registry, s: State, u: Block, l: Ledger, i: nat, x: Parcel)
    requires Inv(p, reg, s) && u in reg && Agrees(p, reg, s, u, l)
    requires i < |s.threads| && s.threads[i].job == Carrying(x, false) && x.to == u && Room(s.world.files[u])
    ensures Agrees(p, reg, WithJob(s.(world := Store(p, reg, s.world, x)), i, Idle), u, Record(l, Keep(i)))
  {
    hide For, Logged, Sound, L.AfterAdd, Conserved, ThreadsAgree, Room;
    CarriedLetter(p, reg, s, u, l, i);
    StoredInFile(p, reg[u].auth, s.world.files[u], x.m);
    PickSnoc(For(u, s.world.accepted), l.waiting, l.carried[i]);
    ThreadPutsDown(s.threads, u, For(u, s.world.accepted), l, Record(l, Keep(i)), i);
  }

  lemma OnlyThread(s: State, i: nat)
    requires OneThreadEach(s) && i < |s.threads| && !s.threads[i].job.Ended?
    ensures forall k | 0 <= k < |s.threads| && k != i :: s.threads[k].id == s.threads[i].id ==> s.threads[k].job.Ended?
  {
  }

  /** The joining thread of `u` drains the file. */
  lemma DrainAgrees(p: Primitives, reg: Registry, s: State, u: Block, l: Ledger, i: nat)
    requires Inv(p, reg, s) && OneThreadEach(s) && u in reg && Agrees(p, reg, s, u, l)
    requires i < |s.threads| && s.threads[i].job.Joining? && s.threads[i].id == u
    ensures l.draining == [] && L.Load(p, reg[u].auth, s.world.files[u]).Some?
    ensures Agrees(p, reg, Apply(p, reg, s, Fetch(i)), u, Record(l, Drain))
  {
    hide For, Logged, Sound, L.Load, L.Canonical, Conserved, ThreadsAgree, OneThreadEach;
    assert Sound(p, reg[u].auth, s.world.files[u]);
    SoundLoads(p, reg[u].auth, s.world.files[u]);
    EmptyFile(p, reg[u].auth);
    OnlyThread(s, i);
    ThreadStartsDraining(s.threads, u, For(u, s.world.accepted), l, i);
  }

  /** The draining thread of `u` hands the next letter over. */
  lemma SendAgrees(p: Primitives, reg: Registry, s: State, u: Block, l: Ledger, i: nat)
    requires OneThreadEach(s) && u in reg && FilesPresent(reg, s.world) && Agrees(p, reg, s, u, l)
    requires i < |s.threads| && IsDraining(s.threads[i], u) && s.threads[i].job.rest != []
    ensures Agrees(p, reg, Apply(p, reg, s, SendNext(i)), u, Record(l, SendFirst))
  {
    hide For, Logged, L.Load, ThreadsAgree, OneThreadEach;
    var acc := For(u, s.world.accepted);
    DrainedLetter(s.threads, u, acc, l, i);
    ForSnoc(u, s.world.handed, Parcel(u, s.threads[i].job.rest[0]));
    PickSnoc(acc, l.handed, l.draining[0]);
    OnlyThread(s, i);
    ThreadDrainsOne(s.threads, u, acc, l, Record(l, SendFirst), i);
  }

  lemma DrainedLetter(ts: seq<Thread>, u: Block, acc: seq<bytes>, l: Ledger, i: nat)
    requires InRange(l, |acc|) && ThreadsAgree(ts, u, acc, l) && i < |ts| && IsDraining(ts[i], u) && ts[i].job.rest != []
    ensures l.draining != [] && ts[i].job.rest[0] == acc[l.draining[0]]
  {
  }

  /** A step that moves no letter of `u`. */
  lemma OthersAgree(p: Primitives, reg: Registry, s: State, r: State, u: Block, l: Ledger)
    requires u in reg && u in s.world.files && u in r.world.files && Agrees(p, reg, s, u, l)
    requires For(u, r.world.accepted) == For(u, s.world.accepted) && For(u, r.world.handed) == For(u, s.world.handed)
    requires r.world.files[u] == s.world.files[u] && |r.threads| >= |s.threads|
    requires forall k | 0 <= k < |s.threads| :: SameForUser(s.threads[k], r.threads[k], u)
    requires forall k | |s.threads| <= k < |r.threads| :: !IsCarrying(r.threads[k], u) && !IsDraining(r.threads[k], u)
    ensures Agrees(p, reg, r, u, l)
  {
    hide For, Logged;
  }

  /** The thread holds the same for `u` as before; it may have found that it has nothing left to drain. */
  predicate SameForUser(t: Thread, r: Thread, u: Block) {
    && (IsCarrying(t, u) || IsCarrying(r, u) ==> r == t)
    && (IsDraining(r, u) ==> r == t)
    && (IsDraining(t, u) ==> r == t || t.job.rest == [])
  }

  lemma ReceiveAgrees(p: Primitives, reg: Registry, s: State, u: Block, l: Ledger, i: nat, m: bytes)
    requires Inv(p, reg, s) && u in reg && Agrees(p, reg, s, u, l)
    ensures var step := Receive(i, m); var mv := MoveOf(p, reg, s, step, u);
      Timely(l, mv) && Agrees(p, reg, Apply(p, reg, s, step), u, Record(l, mv))
  {
    hide For, Logged, Sound, Parse, Letter, Conserved, Agrees;
    if i < |s.threads| && s.threads[i].job.Idle? && |m| < TWO64 {
      match Parse(reg, m)
      case Deliver(to, payload) => {
        var x := Parcel(to, Letter(s.threads[i].id, payload));
        if to == u {
          ComeAgrees(p, reg, s, u, l, i, x, to in s.world.online);
        } else {
          ForSnoc(u, s.world.accepted, x);
          assert For(u, s.world.accepted) + [] == For(u, s.world.accepted);
          OthersAgree(p, reg, s, Apply(p, reg, s, Receive(i, m)), u, l);
        }
      }
      case _ => OthersAgree(p, reg, s, Apply(p, reg, s, Receive(i, m)), u, l);
    }
  }

  lemma FinishAgrees(p: Primitives, reg: Registry, s: State, u: Block, l: Ledger, i: nat)
    requires Inv(p, reg, s) && u in reg && Agrees(p, reg, s, u, l)
    ensures var step := Finish(i); var mv := MoveOf(p, reg, s, step, u);
      Timely(l, mv) && Agrees(p, reg, Apply(p, reg, s, step), u, Record(l, mv))
  {
    hide For, Logged, Sound, Conserved, Agrees, Room, L.AfterAdd;
    if i < |s.threads| && s.threads[i].job.Carrying? {
      var Carrying(x, online) := s.threads[i].job;
      ForSnoc(u, s.world.handed, x);
      assert For(u, s.world.handed) + [] == For(u, s.world.handed);
      if x.to != u {
        OthersAgree(p, reg, s, Apply(p, reg, s, Finish(i)), u, l);
      } else if online {
        GiveAgrees(p, reg, s, u, l, i, x);
      } else if Room(s.world.files[u]) {
        KeepAgrees(p, reg, s, u, l, i, x);
      }
    }
  }

  lemma DrainingAgrees(p: Primitives, reg: Registry, s: State, u: Block, l: Ledger, step: Step)
    requires Inv(p, reg, s) && OneThreadEach(s) && u in reg && Agrees(p, reg, s, u, l)
    requires step.Fetch? || step.SendNext?
    ensures var mv := MoveOf(p, reg, s, step, u);
      Timely(l, mv) && Agrees(p, reg, Apply(p, reg, s, step), u, Record(l, mv))
  {
    hide For, Logged, Sound, Conserved, Agrees, OneThreadEach, L.Load, L.Canonical;
    var i := step.i;
    if i < |s.threads| {
      if s.threads[i].id != u {
        if s.threads[i].job.Draining? && s.threads[i].job.rest != [] {
          ForSnoc(u, s.world.handed, Parcel(s.threads[i].id, s.threads[i].job.rest[0]));
          assert For(u, s.world.handed) + [] == For(u, s.world.handed);
        }
        OthersAgree(p, reg, s, Apply(p, reg, s, step), u, l);
      } else if step.Fetch? && s.threads[i].job.Joining? {
        DrainAgrees(p, reg, s, u, l, i);
      } else if step.SendNext? && s.threads[i].job.Draining? && s.threads[i].job.rest != [] {
        SendAgrees(p, reg, s, u, l, i);
      }
    }
  }

  /** Every step of every thread is recorded as it happens. */
  lemma StepAgrees(p: Primitives, reg: Registry, s: State, u: Block, l: Ledger, step: Step)
    requires Inv(p, reg, s) && OneThreadEach(s) && u in reg && Agrees(p, reg, s, u, l)
    ensures var mv := MoveOf(p, reg, s, step, u);
      Timely(l, mv) && Agrees(p, reg, Apply(p, reg, s, step), u, Record(l, mv))
  {
    hide For, Logged, Sound, Conserved, Agrees, OneThreadEach, L.Load, L.Canonical, Parse, Room, Letter;
    match step
    case Receive(i, m) => ReceiveAgrees(p, reg, s, u, l, i, m);
    case Finish(i) => FinishAgrees(p, reg, s, u, l, i);
    case Fetch(_) => DrainingAgrees(p, reg, s, u, l, step);
    case SendNext(_) => DrainingAgrees(p, reg, s, u, l, step);
    case _ => OthersAgree(p, reg, s, Apply(p, reg, s, step), u, l);
  }

  /** Over every run the ledger says where each accepted letter is. */
  lemma {:induction false} LedgerIsRight(p: Primitives, reg: Registry, u: Block, run: seq<Step>)
    requires u in reg
    ensures Inv(p, reg, Run(p, reg, run)) && Sane(p, reg, Run(p, reg, run), u, Watched(p, reg, u, run))
  {
    hide Apply, Record, MoveOf, Balanced, Agrees, OneThreadEach, Inv;
    NothingLostOrDuplicated(p, reg, run);
    if run == [] {
      BlankIsRight(p, reg, u);
    } else {
      var front, step := run[..|run| - 1], run[|run| - 1];
      var s, l := Run(p, reg, front), Watched(p, reg, u, front);
      LedgerIsRight(p, reg, u, front);
      StepAgrees(p, reg, s, u, l, step);
      OneThreadStep(p, reg, s, step);
      RecordBalances(l, MoveOf(p, reg, s, step, u));
    }
  }

  lemma BlankIsRight(p: Primitives, reg: Registry, u: Block)
    requires u in reg
    ensures Sane(p, reg, Run(p, reg, []), u, BLANK)
  {
    hide L.Load, L.Canonical, Logged, Apply, Sound, Balanced, OneThreadEach;
    EmptyFile(p, reg[u].auth);
    NobodyIsThere(p, reg);
    BlankBalances();
  }

  lemma BlankBalances()
    ensures Balanced(BLANK)
  {
  }

  // ----- when the order is kept -----

  /** Over every interleaving, the letters handed over for a user are the first ones that were accepted,
      in order, exactly when no step handed a letter over while an older one was drained, waiting or
      carried. */
  lemma {:induction false} HandedInOrderIff(p: Primitives, reg: Registry, u: Block, run: seq<Step>)
    requires u in reg
    ensures HandedInOrder(Watched(p, reg, u, run)) <==> !Overtaken(p, reg, u, run)
  {
    hide Record, MoveOf, Balanced, Agrees, OneThreadEach, Inv, Overtakes, HandedInOrder, Run;
    if run == [] {
      BlankIsInOrder();
    } else {
      var front := run[..|run| - 1];
      HandedInOrderIff(p, reg, u, front);
      LedgerIsRight(p, reg, u, front);
      OrderStep(Watched(p, reg, u, front), MoveOf(p, reg, Run(p, reg, front), run[|run| - 1], u));
    }
  }

  lemma BlankIsInOrder()
    ensures HandedInOrder(BLANK)
  {
  }

  lemma OrderedIsPrefix(acc: seq<bytes>, l: Ledger)
    requires InRange(l, |acc|)
    ensures HandedInOrder(l) ==> Pick(acc, l.handed) <= acc
    ensures !SomeTwice(acc) && Pick(acc, l.handed) <= acc ==> HandedInOrder(l)
  {
    var got := Pick(acc, l.handed);
    if HandedInOrder(l) && l.handed != [] {
      assert l.handed[|l.handed| - 1] == |l.handed| - 1;
    }
    if !SomeTwice(acc) && got <= acc {
      forall i | 0 <= i < |l.handed|
        ensures l.handed[i] == i
      {
        assert got[i] == acc[i] == acc[l.handed[i]];
      }
    }
  }

  lemma LettersOfLedger(p: Primitives, reg: Registry, u: Block, run: seq<Step>)
    requires u in reg
    ensures var s, l := Run(p, reg, run), Watched(p, reg, u, run);
      var acc, got := For(u, s.world.accepted), For(u, s.world.handed);
      && InRange(l, |acc|) && got == Pick(acc, l.handed)
      && multiset(acc) == multiset(got) + multiset(Logged(p, reg[u].auth, s.world.files[u])) + InHands(u, s.threads)
  {
    hide Run, Watched, For, Logged, Sound, Balanced, ThreadsAgree, OneThreadEach, InHands, InRange, Pick;
    LedgerIsRight(p, reg, u, run);
    assert Conserved(p, reg, Run(p, reg, run), u);
  }

  /** So if no step overtakes, a user's letters are handed over as a prefix of those accepted, and the rest
      of them are what is drained, waiting and carried; and if the letters are all different, only then. */
  lemma OrderOfLetters(p: Primitives, reg: Registry, u: Block, run: seq<Step>)
    requires u in reg
    ensures var s := Run(p, reg, run); var acc, got := For(u, s.world.accepted), For(u, s.world.handed);
      && (!Overtaken(p, reg, u, run) ==>
            && got <= acc
            && multiset(acc[|got|..]) == multiset(Logged(p, reg[u].auth, s.world.files[u])) + InHands(u, s.threads))
      && (!SomeTwice(acc) ==> (got <= acc <==> !Overtaken(p, reg, u, run)))
  {
    hide Run, Watched, Overtaken, For, Logged, InHands, HandedInOrder, InRange, Pick;
    var s, l := Run(p, reg, run), Watched(p, reg, u, run);
    LettersOfLedger(p, reg, u, run);
    HandedInOrderIff(p, reg, u, run);
    var acc, got := For(u, s.world.accepted), For(u, s.world.handed);
    OrderedIsPrefix(acc, l);
    if got <= acc {
      TheRest(acc, got, multiset(Logged(p, reg[u].auth, s.world.files[u])), InHands(u, s.threads));
    }
  }

  lemma TheRest(acc: seq<bytes>, got: seq<bytes>, waiting: multiset<bytes>, hands: multiset<bytes>)
    requires got <= acc && multiset(acc) == multiset(got) + waiting + hands
    ensures multiset(acc[|got|..]) == waiting + hands
  {
    var rest := multiset(acc[|got|..]);
    assert acc == got + acc[|got|..];
    assert rest == (multiset(got) + rest) - multiset(got);
    assert waiting + hands == (multiset(got) + waiting + hands) - multiset(got);
  }

  // ----- when nobody is left waiting -----

  /** A thread of `u` has seen to the file already. */
  predicate Present(s: State, u: Block) {
    exists i :: 0 <= i < |s.threads| && s.threads[i].id == u && !s.threads[i].job.Joining? && !s.threads[i].job.Ended?
  }

  /** A letter waits for a user who is there and will not look into the file again. */
  predicate Stranded(p: Primitives, reg: Registry, s: State, u: Block)
    requires u in reg && u in s.world.files
  {
    Present(s, u) && Logged(p, reg[u].auth, s.world.files[u]) != []
  }

  /** A step strands when it stores a letter for a user who is there by now. */
  predicate Strands(p: Primitives, reg: Registry, s: State, step: Step, u: Block)
    requires FilesPresent(reg, s.world)
  {
    MoveOf(p, reg, s, step, u).Keep? && Present(s, u)
  }

  lemma FileAfter(p: Primitives, reg: Registry, s: State, step: Step, u: Block)
    requires Inv(p, reg, s) && u in reg
    ensures var before, after := Logged(p, reg[u].auth, s.world.files[u]), Logged(p, reg[u].auth, Apply(p, reg, s, step).world.files[u]);
      var mv := MoveOf(p, reg, s, step, u);
      && (mv.Keep? ==> after != [])
      && (mv.Drain? ==> after == [])
      && (!mv.Keep? && !mv.Drain? ==> after == before)
  {
    hide For, Logged, Sound, L.Load, L.Canonical, L.AfterAdd, Parse, Letter, Conserved, Room;
    EmptyFile(p, reg[u].auth);
    if MoveOf(p, reg, s, step, u).Keep? {
      StoredInFile(p, reg[u].auth, s.world.files[u], s.threads[step.i].job.x.m);
    }
  }

  /** Storing a letter brings nobody in and sends nobody away. */
  lemma PresentKept(p: Primitives, reg: Registry, s: State, step: Step, u: Block)
    requires FilesPresent(reg, s.world) && MoveOf(p, reg, s, step, u).Keep?
    ensures Present(Apply(p, reg, s, step), u) <==> Present(s, u)
  {
    hide L.AfterAdd, Room;
    var r := Apply(p, reg, s, step);
    assert forall k | 0 <= k < |s.threads| ::
      r.threads[k].id == s.threads[k].id && r.threads[k].job.Joining? == s.threads[k].job.Joining?
      && r.threads[k].job.Ended? == s.threads[k].job.Ended?;
  }

  /** A user becomes present by draining the file, and in no other way. */
  lemma PresentBefore(p: Primitives, reg: Registry, s: State, step: Step, u: Block)
    requires Inv(p, reg, s) && u in reg && !MoveOf(p, reg, s, step, u).Drain? && Present(Apply(p, reg, s, step), u)
    ensures Present(s, u)
  {
    hide For, Logged, L.Canonical, L.AfterAdd, Parse, Letter, Conserved, Room, L.Load, Sound;
    var r := Apply(p, reg, s, step);
    var k :| 0 <= k < |r.threads| && r.threads[k].id == u && !r.threads[k].job.Joining? && !r.threads[k].job.Ended?;
    if step.Fetch? && step.i < |s.threads| && s.threads[step.i].id == u && s.threads[step.i].job.Joining? {
      assert Sound(p, reg[u].auth, s.world.files[u]);
      SoundLoads(p, reg[u].auth, s.world.files[u]);
      assert false;
    }
    assert k < |s.threads| && s.threads[k].id == u && !s.threads[k].job.Joining? && !s.threads[k].job.Ended?;
  }

  /** As long as nobody is stranded, exactly a stranding step strands somebody. */
  lemma StrandingStep(p: Primitives, reg: Registry, s: State, step: Step, u: Block)
    requires Inv(p, reg, s) && u in reg && !Stranded(p, reg, s, u)
    ensures Stranded(p, reg, Apply(p, reg, s, step), u) <==> Strands(p, reg, s, step, u)
  {
    hide MoveOf, Apply, Present, Logged, Sound, Conserved;
    FileAfter(p, reg, s, step, u);
    if MoveOf(p, reg, s, step, u).Keep? {
      PresentKept(p, reg, s, step, u);
    } else if !MoveOf(p, reg, s, step, u).Drain? && Present(Apply(p, reg, s, step), u) {
      PresentBefore(p, reg, s, step, u);
    }
  }

  predicate EverStranded(p: Primitives, reg: Registry, u: Block, run: seq<Step>)
    requires u in reg
  {
    Stranded(p, reg, Run(p, reg, run), u) || (run != [] && EverStranded(p, reg, u, run[..|run| - 1]))
  }

  predicate EverStrands(p: Primitives, reg: Registry, u: Block, run: seq<Step>)
    requires u in reg
  {
    run != [] &&
    var front := run[..|run| - 1];
    EverStrands(p, reg, u, front) || Strands(p, reg, Run(p, reg, front), run[|run| - 1], u)
  }

  /** In no state of a run does a letter wait for a user who is there and will not look into the file
      again, exactly when no step of the run stores a letter for a user who is there by then. */
  lemma {:induction false} NeverStrandedIff(p: Primitives, reg: Registry, u: Block, run: seq<Step>)
    requires u in reg
    ensures EverStranded(p, reg, u, run) <==> EverStrands(p, reg, u, run)
  {
    hide Inv, Apply, Strands, Stranded;
    if run == [] {
      NobodyAtFirst(p, reg, u);
    } else {
      var front, step := run[..|run| - 1], run[|run| - 1];
      NeverStrandedIff(p, reg, u, front);
      NothingLostOrDuplicated(p, reg, front);
      if !Stranded(p, reg, Run(p, reg, front), u) {
        StrandingStep(p, reg, Run(p, reg, front), step, u);
      }
    }
  }

  lemma NobodyAtFirst(p: Primitives, reg: Registry, u: Block)
    requires u in reg
    ensures !Stranded(p, reg, Run(p, reg, []), u)
  {
    hide Logged, Fresh;
  }

  // ----- whole operations are runs of steps -----

  /** Every thread waits for a request or has ended. */
  predicate AtRest(s: State) {
    forall i | 0 <= i < |s.threads| :: s.threads[i].job.Idle? || s.threads[i].job.Ended?
  }

  lemma ThreadOf(s: State, u: Block) returns (i: nat)
    requires OneThreadEach(s) && AtRest(s) && u in s.world.online
    ensures i < |s.threads| && s.threads[i] == Thread(u, Idle)
  {
    i :| i < |s.threads| && !s.threads[i].job.Ended? && s.threads[i].id == u;
  }

  /** handle_message at once: the sender's thread receives and finishes. */
  lemma MessageAsSteps(p: Primitives, reg: Registry, run: seq<Step>, from: Block, m: bytes) returns (more: seq<Step>)
    requires AtRest(Run(p, reg, run)) && OneThreadEach(Run(p, reg, run)) && from in Run(p, reg, run).world.online
    requires |m| < TWO64
    requires Parse(reg, m).Deliver? ==>
      var w, to := Run(p, reg, run).world, Parse(reg, m).to; to in reg && (to in w.online || Room(w.files[to]))
    ensures AtRest(Run(p, reg, more)) && OneThreadEach(Run(p, reg, more))
    ensures Run(p, reg, more).world == Handled(p, reg, Run(p, reg, run).world, from, m)
  {
    hide Run, OneThreadEach, Parse, Letter, Room, L.AfterAdd, L.Load, L.Canonical;
    var s := Run(p, reg, run);
    var i := ThreadOf(s, from);
    var t := Apply(p, reg, s, Receive(i, m));
    OneThreadStep(p, reg, s, Receive(i, m));
    OneThreadStep(p, reg, t, Finish(i));
    RunOneMore(p, reg, run, Receive(i, m));
    more := run + [Receive(i, m)];
    RunOneMore(p, reg, more, Finish(i));
    more := more + [Finish(i)];
  }

  /** A thread that drains hands over everything it has. */
  lemma {:induction false} DrainAsSteps(p: Primitives, reg: Registry, run: seq<Step>, i: nat, u: Block, rest: seq<bytes>)
    returns (more: seq<Step>)
    requires var s := Run(p, reg, run); i < |s.threads| && s.threads[i] == Thread(u, Draining(rest))
    ensures var s := Run(p, reg, run);
      Run(p, reg, more) == WithJob(s.(world := s.world.(handed := s.world.handed + ParcelsTo(u, rest))), i, Idle)
    decreases |rest|
  {
    hide Run, L.Load;
    var s := Run(p, reg, run);
    if rest == [] {
      RunOneMore(p, reg, run, Ready(i));
      more := run + [Ready(i)];
      assert s.world.handed + ParcelsTo(u, rest) == s.world.handed;
    } else {
      RunOneMore(p, reg, run, SendNext(i));
      var next := run + [SendNext(i)];
      more := DrainAsSteps(p, reg, next, i, u, rest[1..]);
      assert s.world.handed + [Parcel(u, rest[0])] + ParcelsTo(u, rest[1..]) == s.world.handed + ParcelsTo(u, rest);
    }
  }

  /** The new thread enters the table and fetches what waits. */
  lemma EntryAsSteps(p: Primitives, reg: Registry, run: seq<Step>, h: Handler, ms: seq<bytes>) returns (more: seq<Step>)
    requires h.id in reg && OneThreadEach(Run(p, reg, run)) && h.id !in Run(p, reg, run).world.online
    requires L.Load(p, reg[h.id].auth, Run(p, reg, run).world.files[h.id]) == Some(ms)
    ensures OneThreadEach(Run(p, reg, more))
    ensures var s := Run(p, reg, run);
      Run(p, reg, more) == State(Fetched(p, reg, Joined(s.world, h), h.id), s.threads + [Thread(h.id, Draining(ms))])
  {
    hide Run, OneThreadEach, L.Load, L.Canonical;
    var s := Run(p, reg, run);
    var i := |s.threads|;
    RunOneMore(p, reg, run, Enter(h));
    OneThreadStep(p, reg, s, Enter(h));
    more := run + [Enter(h)];
    var t := Run(p, reg, more);
    assert t == State(Joined(s.world, h), s.threads + [Thread(h.id, Joining)]);
    RunOneMore(p, reg, more, Fetch(i));
    OneThreadStep(p, reg, t, Fetch(i));
    more := more + [Fetch(i)];
    assert (s.threads + [Thread(h.id, Joining)])[i := Thread(h.id, Draining(ms))] == s.threads + [Thread(h.id, Draining(ms))];
  }

  /** Login at once: the new thread enters, fetches and hands over before anyone else does anything. */
  lemma LoginAsSteps(p: Primitives, reg: Registry, run: seq<Step>, h: Handler) returns (more: seq<Step>)
    requires h.id in reg && OneThreadEach(Run(p, reg, run))
    ensures OneThreadEach(Run(p, reg, more))
    ensures var s, r := Run(p, reg, run), Run(p, reg, more);
      && r.world == LoggedIn(p, reg, s.world, h)
      && r.threads == s.threads + if h.id in s.world.online then [] else [Thread(h.id, Idle)]
  {
    hide Run, OneThreadEach, L.Load, L.Canonical, Inv;
    var s := Run(p, reg, run);
    if h.id in s.world.online {
      more := run;
    } else {
      NothingLostOrDuplicated(p, reg, run);
      SoundFile(p, reg, s, h.id);
      var ms := L.Load(p, reg[h.id].auth, s.world.files[h.id]).value;
      var fetched := EntryAsSteps(p, reg, run, h, ms);
      var t := Run(p, reg, fetched);
      more := DrainAsSteps(p, reg, fetched, |s.threads|, h.id, ms);
      assert t.threads[|s.threads| := Thread(h.id, Idle)] == s.threads + [Thread(h.id, Idle)];
      SameThreads(t, Run(p, reg, more));
    }
  }

  lemma SoundFile(p: Primitives, reg: Registry, s: State, u: Block)
    requires Inv(p, reg, s) && u in reg
    ensures L.Load(p, reg[u].auth, s.world.files[u]).Some?
  {
  }

  lemma LogoutAsSteps(p: Primitives, reg: Registry, run: seq<Step>, u: Block) returns (more: seq<Step>)
    requires AtRest(Run(p, reg, run)) && OneThreadEach(Run(p, reg, run))
    ensures AtRest(Run(p, reg, more)) && OneThreadEach(Run(p, reg, more))
    ensures Run(p, reg, more).world == Left(Run(p, reg, run).world, u)
  {
    hide Run, OneThreadEach;
    var s := Run(p, reg, run);
    if u in s.world.online {
      var i := ThreadOf(s, u);
      RunOneMore(p, reg, run, Leave(i));
      OneThreadStep(p, reg, s, Leave(i));
      more := run + [Leave(i)];
    } else {
      more := run;
      assert s.world.online - {u} == s.world.online;
    }
  }

  /** Messages come from users who are there, users are registered, and no file outgrows its addresses. */
  predicate Possible(reg: Registry, w: World, op: Operation)
    requires FilesPresent(reg, w)
  {
    match op
    case Message(from, m) =>
      && from in w.online
      && (|m| < TWO64 && Parse(reg, m).Deliver? ==>
            Parse(reg, m).to in reg && (Parse(reg, m).to in w.online || Room(w.files[Parse(reg, m).to])))
    case Login(h) => h.id in reg
    case Logout(_) => true
  }

  predicate AllPossible(p: Primitives, reg: Registry, ops: seq<Operation>) {
    ops == [] ||
    (AllPossible(p, reg, ops[..|ops| - 1]) && Possible(reg, Operations(p, reg, ops[..|ops| - 1]), ops[|ops| - 1]))
  }

  /** So the server whose operations are done at once is one schedule of the server whose threads are
      interleaved, and what is proved of all schedules is proved of it. */
  lemma {:induction false} OperationsAreSteps(p: Primitives, reg: Registry, ops: seq<Operation>) returns (run: seq<Step>)
    requires AllPossible(p, reg, ops)
    ensures AtRest(Run(p, reg, run)) && OneThreadEach(Run(p, reg, run))
    ensures Run(p, reg, run).world == Operations(p, reg, ops)
  {
    hide Run, OneThreadEach, Handled, LoggedIn, Parse, Room;
    if ops == [] {
      run := [];
      NobodyIsThere(p, reg);
    } else {
      var front := OperationsAreSteps(p, reg, ops[..|ops| - 1]);
      match ops[|ops| - 1]
      case Message(from, m) => {
        if |m| < TWO64 {
          run := MessageAsSteps(p, reg, front, from, m);
        } else {
          run := front;
        }
      }
      case Login(h) => run := LoginAsSteps(p, reg, front, h);
      case Logout(u) => run := LogoutAsSteps(p, reg, front, u);
    }
  }

  lemma NobodyIsThere(p: Primitives, reg: Registry)
    ensures var s := Run(p, reg, []); AtRest(s) && OneThreadEach(s) && s.world == Operations(p, reg, [])
  {
    hide Fresh;
    FreshIsOffline(p, reg);
  }

  lemma FreshIsOffline(p: Primitives, reg: Registry)
    ensures Fresh(p, reg).online == map[]
  {
  }

  // ----- schedules that go wrong -----

  /** Whoever has no letters waiting enters and finds nothing. */
  lemma LoginToNothing(p: Primitives, reg: Registry, w: World, h: Handler)
    requires FilesPresent(reg, w) && h.id in reg && h.id !in w.online
    requires w.files[h.id] == L.Canonical(p, reg[h.id].auth, [])
    ensures LoggedIn(p, reg, w, h) == Joined(w, h)
  {
    hide L.Load, L.Canonical, Sound, Logged;
    EmptyFile(p, reg[h.id].auth);
    SoundLoads(p, reg[h.id].auth, w.files[h.id]);
    assert w.handed + ParcelsTo(h.id, []) == w.handed;
    assert w.files[h.id := w.files[h.id]] == w.files;
  }

  /** Several users come to an empty server. */
  lemma {:induction false} AllEnter(p: Primitives, reg: Registry, hs: seq<Handler>) returns (run: seq<Step>)
    requires forall i | 0 <= i < |hs| :: hs[i].id in reg
    requires forall i, j | 0 <= i < j < |hs| :: hs[i].id != hs[j].id
    ensures var s, w := Run(p, reg, run), Fresh(p, reg);
      && OneThreadEach(s)
      && |s.threads| == |hs| && (forall i | 0 <= i < |hs| :: s.threads[i] == Thread(hs[i].id, Idle))
      && (forall v :: v in s.world.online <==> exists i :: 0 <= i < |hs| && hs[i].id == v)
      && s.world.(online := w.online) == w
  {
    hide Run, OneThreadEach, LoggedIn, L.Canonical;
    if hs == [] {
      run := [];
      RunNothing(p, reg);
      NobodyIsThere(p, reg);
    } else {
      var n := |hs| - 1;
      var front := AllEnter(p, reg, hs[..n]);
      var s := Run(p, reg, front);
      assert forall i | 0 <= i < n :: hs[..n][i].id == hs[i].id;
      assert hs[n].id !in s.world.online;
      run := LoginAsSteps(p, reg, front, hs[n]);
      LoginToNothing(p, reg, s.world, hs[n]);
    }
  }

  /** A letter is accepted for a user who is not there; the user enters and finds the file empty; only then
      is the letter stored.  The user is there, waits for messages, and the letter stays in the file. */
  lemma LateStoreStrands(p: Primitives, reg: Registry, hu: Handler, hv: Handler, a: bytes) returns (run: seq<Step>)
    requires hu.id in reg && hv.id in reg && hu.id != hv.id && |a| + 0x29 < TWO64
    ensures var s, letter := Run(p, reg, run), Letter(hv.id, a);
      && s.threads == [Thread(hv.id, Idle), Thread(hu.id, Idle)] && hu.id in s.world.online
      && For(hu.id, s.world.accepted) == [letter] && s.world.handed == []
      && Logged(p, reg[hu.id].auth, s.world.files[hu.id]) == [letter]
      && Stranded(p, reg, s, hu.id)
  {
    hide Run, OneThreadEach, LoggedIn, L.Canonical, L.AfterAdd, Sound, Logged, Parse, Letter, For;
    var u, x := hu.id, Parcel(hu.id, Letter(hv.id, a));
    run := AllEnter(p, reg, [hv]);
    var s := Run(p, reg, run);
    EmptyFile(p, reg[u].auth);
    CanonicalLength(p, reg[u].auth);
    DeliverIffLetter(reg, Letter(u, a), u, a);
    RunOneMore(p, reg, run, Receive(0, Letter(u, a)));
    OneThreadStep(p, reg, s, Receive(0, Letter(u, a)));
    run := run + [Receive(0, Letter(u, a))];
    LoginToNothing(p, reg, Run(p, reg, run).world, hu);
    run := LoginAsSteps(p, reg, run, hu);
    var t := Run(p, reg, run);
    assert t.threads == [Thread(hv.id, Carrying(x, false)), Thread(u, Idle)];
    StoredInFile(p, reg[u].auth, t.world.files[u], x.m);
    RunOneMore(p, reg, run, Finish(0));
    run := run + [Finish(0)];
    OneAccepted(u, x);
    assert Run(p, reg, run).threads[1] == Thread(u, Idle);
  }

  lemma OneAccepted(u: Block, x: Parcel)
    requires x.to == u
    ensures For(u, [] + [x]) == [x.m]
  {
  }

  lemma ReceiveStep(p: Primitives, reg: Registry, run: seq<Step>, i: nat, u: Block, a: bytes)
    requires u in reg && |a| + 0x29 < TWO64
    requires var s := Run(p, reg, run); i < |s.threads| && s.threads[i].job.Idle? && u in s.world.online
    ensures var s := Run(p, reg, run); var x := Parcel(u, Letter(s.threads[i].id, a));
      Run(p, reg, run + [Receive(i, Letter(u, a))]) == WithJob(s.(world := Accept(s.world, x)), i, Carrying(x, true))
  {
    hide Run, Parse, Letter;
    DeliverIffLetter(reg, Letter(u, a), u, a);
    RunOneMore(p, reg, run, Receive(i, Letter(u, a)));
  }

  lemma FinishStep(p: Primitives, reg: Registry, run: seq<Step>, i: nat, x: Parcel)
    requires var s := Run(p, reg, run); i < |s.threads| && s.threads[i].job == Carrying(x, true)
    ensures var s := Run(p, reg, run); Run(p, reg, run + [Finish(i)]) == WithJob(s.(world := Hand(s.world, x)), i, Idle)
  {
    hide Run;
    RunOneMore(p, reg, run, Finish(i));
  }

  /** Nobody enters: two threads carry a letter for the same user, and the second one is quicker. */
  lemma TwoSendersCanReorder(p: Primitives, reg: Registry, hu: Handler, hv: Handler, hx: Handler, a: bytes, b: bytes)
    returns (run: seq<Step>, more: seq<Step>)
    requires hu.id in reg && hv.id in reg && hx.id in reg && hu.id != hv.id && hu.id != hx.id && hv.id != hx.id
    requires |a| + 0x29 < TWO64 && |b| + 0x29 < TWO64
    ensures AtRest(Run(p, reg, run))
    ensures forall i | 0 <= i < |more| :: more[i].Receive? || more[i].Finish?
    ensures var w, first, second := Run(p, reg, run + more).world, Letter(hv.id, a), Letter(hx.id, b);
      For(hu.id, w.accepted) == [first, second] && For(hu.id, w.handed) == [second, first]
  {
    hide Run, OneThreadEach, Letter, For, Apply, L.Canonical;
    var u, x, y := hu.id, Parcel(hu.id, Letter(hv.id, a)), Parcel(hu.id, Letter(hx.id, b));
    run := AllEnter(p, reg, [hu, hv, hx]);
    assert [hu, hv, hx][0].id == u;
    ReceiveStep(p, reg, run, 1, u, a);
    var r1 := run + [Receive(1, Letter(u, a))];
    ReceiveStep(p, reg, r1, 2, u, b);
    var r2 := r1 + [Receive(2, Letter(u, b))];
    FinishStep(p, reg, r2, 2, y);
    var r3 := r2 + [Finish(2)];
    FinishStep(p, reg, r3, 1, x);
    more := [Receive(1, Letter(u, a)), Receive(2, Letter(u, b)), Finish(2), Finish(1)];
    assert run + more == r3 + [Finish(1)];
    assert Run(p, reg, run + more).world.accepted == [x] + [y] && Run(p, reg, run + more).world.handed == [y] + [x];
    ForTwo(x, y);
    ForTwo(y, x);
  }
}
