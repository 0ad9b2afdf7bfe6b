/** A condition on the schedule alone under which a user's letters keep their order: deliveries to the user and
    the user's logins take turns, whatever the threads do for everybody else meanwhile. */
module RoutingTurns {
  import opened Bytes
  import opened Crypto
  import opened HandlerTable
  import opened Options
  import opened Routing
  import opened RoutingThreads
  import opened RoutingOrder
  import L = UndeliveredLog

  /** A thread that carries a letter for `u`, or the thread of `u` between entering the table and being ready. */
  predicate BusyFor(t: Thread, u: Block) {
    IsCarrying(t, u) || (t.id == u && (t.job.Joining? || t.job.Draining?))
  }

  predicate Busy(s: State, u: Block) {
    exists i :: 0 <= i < |s.threads| && BusyFor(s.threads[i], u)
  }

  /** A step begins a delivery to `u`, or brings `u` in. */
  predicate Begins(reg: Registry, s: State, step: Step, u: Block) {
    match step
    case Enter(h) => h.id == u
    case Receive(i, m) =>
      i < |s.threads| && s.threads[i].job.Idle? && |m| < TWO64 && Parse(reg, m).Deliver? && Parse(reg, m).to == u
    case _ => false
  }

  /** Something begins for `u` while something else for `u` is not done. */
  predicate Meddles(reg: Registry, s: State, step: Step, u: Block) {
    Busy(s, u) && Begins(reg, s, step, u)
  }

  predicate Meddled(p: Primitives, reg: Registry, u: Block, run: seq<Step>) {
    run != [] &&
    var front := run[..|run| - 1];
    Meddled(p, reg, u, front) || Meddles(reg, Run(p, reg, front), run[|run| - 1], u)
  }

  // ----- the numbers are in line -----

  /** Who was handed over, then who was drained, then who waits. */
  function Line(l: Ledger): seq<nat> {
    l.handed + l.draining + l.waiting
  }

  predicate Upward(ts: seq<nat>) {
    forall k | 0 <= k < |ts| :: ts[k] == k
  }

  /** All letters stand in line in the order in which they were accepted, but the last one may be carried. */
  predicate Numbered(l: Ledger) {
    && Upward(Line(l))
    && |l.places| == |Line(l)| + (if l.carried == map[] then 0 else 1)
    && (forall i | i in l.carried :: l.carried == map[i := |Line(l)|])
  }

  lemma NumberedCome(l: Ledger, i: nat)
    requires Numbered(l) && l.carried == map[]
    ensures Numbered(Record(l, Come(i)))
  {
    assert Line(Record(l, Come(i))) == Line(l);
    assert Record(l, Come(i)).carried == map[i := |Line(l)|];
    assert i in Record(l, Come(i)).carried;
  }

  lemma NumberedGive(l: Ledger, i: nat)
    requires Numbered(l) && i in l.carried && l.draining == [] && l.waiting == []
    ensures Numbered(Record(l, Give(i))) && !Overtakes(l, Give(i))
  {
    var r := Record(l, Give(i));
    assert l.carried == map[i := |Line(l)|];
    assert Line(l) == l.handed && Line(r) == l.handed + [|l.handed|];
    assert r.carried == map[];
  }

  lemma NumberedKeep(l: Ledger, i: nat)
    requires Numbered(l) && i in l.carried
    ensures Numbered(Record(l, Keep(i)))
  {
    var r := Record(l, Keep(i));
    assert l.carried == map[i := |Line(l)|];
    assert Line(r) == Line(l) + [|Line(l)|];
    assert r.carried == map[];
  }

  lemma NumberedDrain(l: Ledger)
    requires Numbered(l) && l.draining == []
    ensures Numbered(Record(l, Drain))
  {
    assert Line(Record(l, Drain)) == Line(l);
  }

  lemma NumberedSend(l: Ledger)
    requires Numbered(l) && l.draining != []
    ensures Numbered(Record(l, SendFirst)) && !Overtakes(l, SendFirst)
  {
    var r, n := Record(l, SendFirst), |l.handed|;
    assert Line(l)[n] == l.draining[0] == n;
    assert l.draining == [n] + l.draining[1..];
    assert Line(r) == Line(l);
    assert r.carried == l.carried;
    forall t: nat | Behind(l, t)
      ensures t >= n
    {
      BehindInLine(l, t);
    }
  }

  lemma BehindInLine(l: Ledger, t: nat)
    requires Numbered(l) && Behind(l, t)
    ensures t >= |l.handed|
  {
    var n := |l.handed|;
    if t in l.draining {
      var k :| 0 <= k < |l.draining| && l.draining[k] == t;
      assert Line(l)[n + k] == t;
    } else if t in l.waiting {
      var k :| 0 <= k < |l.waiting| && l.waiting[k] == t;
      assert Line(l)[n + |l.draining| + k] == t;
    }
  }

  // ----- the threads take turns -----

  /** One thread at a time is busy for `u`.  A letter that will be handed over finds nothing drained or
      waiting, one that will be stored finds `u` away, and nothing waits once `u` has looked into the file. */
  predicate InTurn(s: State, u: Block, l: Ledger) {
    && (forall i, j | 0 <= i < j < |s.threads| :: !BusyFor(s.threads[i], u) || !BusyFor(s.threads[j], u))
    && (forall i | 0 <= i < |s.threads| && IsCarrying(s.threads[i], u) ::
          if s.threads[i].job.online then l.draining == [] && l.waiting == [] else u !in s.world.online)
    && (u in s.world.online && !IsJoining(s, u) ==> l.waiting == [])
  }

  predicate IsJoining(s: State, u: Block) {
    exists i :: 0 <= i < |s.threads| && s.threads[i].id == u && s.threads[i].job.Joining?
  }

  lemma NobodyBusy(p: Primitives, reg: Registry, s: State, u: Block, l: Ledger)
    requires u in reg && u in s.world.files && Agrees(p, reg, s, u, l) && !Busy(s, u)
    ensures l.carried == map[] && l.draining == []
  {
    hide Logged, For;
    forall i: nat
      ensures i !in l.carried
    {
      if i in l.carried {
        assert IsCarrying(s.threads[i], u);
        IsBusy(s, u, i);
      }
    }
    forall i | 0 <= i < |s.threads|
      ensures !IsDraining(s.threads[i], u)
    {
      if IsDraining(s.threads[i], u) {
        IsBusy(s, u, i);
      }
    }
  }

  lemma IsBusy(s: State, u: Block, i: nat)
    requires i < |s.threads| && BusyFor(s.threads[i], u)
    ensures Busy(s, u)
  {
  }

  lemma ComesInTurn(s: State, u: Block, l: Ledger, i: nat, x: Parcel)
    requires InTurn(s, u, l) && !Busy(s, u) && i < |s.threads| && s.threads[i].job.Idle? && x.to == u && l.draining == []
    ensures InTurn(WithJob(s.(world := Accept(s.world, x)), i, Carrying(x, u in s.world.online)), u, Record(l, Come(i)))
  {
    var r := WithJob(s.(world := Accept(s.world, x)), i, Carrying(x, u in s.world.online));
    forall k | 0 <= k < |s.threads|
      ensures !BusyFor(s.threads[k], u) && (k != i ==> r.threads[k] == s.threads[k])
    {
    }
  }

  lemma GoesInTurn(s: State, r: State, u: Block, l: Ledger, n: Ledger, i: nat)
    requires InTurn(s, u, l) && i < |s.threads| && IsCarrying(s.threads[i], u)
    requires r.threads == s.threads[i := s.threads[i].(job := Idle)] && r.world.online == s.world.online
    requires n.draining == l.draining && (n.waiting == l.waiting || u !in s.world.online)
    ensures InTurn(r, u, n)
  {
    forall k | 0 <= k < |s.threads| && k != i
      ensures r.threads[k] == s.threads[k] && !BusyFor(s.threads[k], u)
    {
      assert BusyFor(s.threads[i], u);
    }
    assert forall k | 0 <= k < |s.threads| ::
      r.threads[k].id == s.threads[k].id && r.threads[k].job.Joining? == s.threads[k].job.Joining?;
  }

  lemma EntersInTurn(s: State, u: Block, l: Ledger, h: Handler)
    requires InTurn(s, u, l) && h.id !in s.world.online && (h.id == u ==> !Busy(s, u))
    ensures InTurn(State(Joined(s.world, h), s.threads + [Thread(h.id, Joining)]), u, l)
  {
    var r := State(Joined(s.world, h), s.threads + [Thread(h.id, Joining)]);
    assert forall k | 0 <= k < |s.threads| :: r.threads[k] == s.threads[k];
    assert r.threads[|s.threads|] == Thread(h.id, Joining);
    if h.id == u {
      forall k | 0 <= k < |s.threads|
        ensures !BusyFor(s.threads[k], u)
      {
      }
    } else {
      assert !BusyFor(r.threads[|s.threads|], u);
    }
  }

  /** The thread of `u` goes on with its login. */
  lemma LoginInTurn(s: State, r: State, u: Block, l: Ledger, n: Ledger, i: nat)
    requires InTurn(s, u, l) && i < |s.threads| && s.threads[i].id == u
    requires s.threads[i].job.Joining? || s.threads[i].job.Draining?
    requires |r.threads| == |s.threads| && r.threads == s.threads[i := Thread(u, r.threads[i].job)]
    requires r.world.online == s.world.online
    requires r.threads[i].job.Draining? || r.threads[i].job.Idle?
    requires n.waiting == [] || (n.waiting == l.waiting && !s.threads[i].job.Joining?)
    ensures InTurn(r, u, n)
  {
    assert BusyFor(s.threads[i], u);
    forall k | 0 <= k < |s.threads| && k != i
      ensures r.threads[k] == s.threads[k] && !BusyFor(s.threads[k], u)
    {
    }
  }

  /** A step for somebody else. */
  lemma OthersInTurn(s: State, r: State, u: Block, l: Ledger, i: nat)
    requires InTurn(s, u, l) && i < |s.threads| && !BusyFor(s.threads[i], u) && |r.threads| == |s.threads|
    requires r.threads == s.threads[i := r.threads[i]] && r.threads[i].id == s.threads[i].id && !BusyFor(r.threads[i], u)
    requires u in r.world.online ==> u in s.world.online
    ensures InTurn(r, u, l)
  {
    forall k | 0 <= k < |s.threads| && k != i
      ensures r.threads[k] == s.threads[k]
    {
    }
    assert forall k | 0 <= k < |s.threads| && s.threads[k].id == u :: r.threads[k].job.Joining? == s.threads[k].job.Joining?;
  }

  // ----- every step that does not meddle -----

  ghost predicate Kept(s: State, u: Block, l: Ledger) {
    Numbered(l) && InTurn(s, u, l)
  }

  /** What a step that does not meddle leaves: the turns and the line, no letter overtaken, none stranded. */
  ghost predicate GoesWell(p: Primitives, reg: Registry, s: State, step: Step, u: Block, l: Ledger)
    requires FilesPresent(reg, s.world)
  {
    var mv := MoveOf(p, reg, s, step, u);
    Kept(Apply(p, reg, s, step), u, Record(l, mv)) && !Overtakes(l, mv) && !Strands(p, reg, s, step, u)
  }

  lemma ReceiveGoesWell(p: Primitives, reg: Registry, s: State, u: Block, l: Ledger, i: nat, m: bytes)
    requires FilesPresent(reg, s.world) && u in reg && Agrees(p, reg, s, u, l) && Kept(s, u, l)
    requires !Meddles(reg, s, Receive(i, m), u)
    ensures GoesWell(p, reg, s, Receive(i, m), u, l)
  {
    hide Agrees, Parse, Letter, InTurn, Numbered;
    if i < |s.threads| && s.threads[i].job.Idle? && |m| < TWO64 && Parse(reg, m).Deliver? {
      var Deliver(to, payload) := Parse(reg, m);
      var x := Parcel(to, Letter(s.threads[i].id, payload));
      if to == u {
        NobodyBusy(p, reg, s, u, l);
        NumberedCome(l, i);
        ComesInTurn(s, u, l, i, x);
      } else {
        OthersInTurn(s, Apply(p, reg, s, Receive(i, m)), u, l, i);
      }
    } else {
      SameInTurn(s, Apply(p, reg, s, Receive(i, m)), u, l);
    }
  }

  lemma SameInTurn(s: State, r: State, u: Block, l: Ledger)
    requires InTurn(s, u, l) && r.threads == s.threads && r.world.online == s.world.online
    ensures InTurn(r, u, l)
  {
  }

  lemma CarrierInTurn(p: Primitives, reg: Registry, s: State, u: Block, l: Ledger, i: nat)
    requires u in reg && u in s.world.files && Agrees(p, reg, s, u, l) && InTurn(s, u, l)
    requires i < |s.threads| && IsCarrying(s.threads[i], u)
    ensures i in l.carried && l.carried[i] < |l.places|
    ensures if s.threads[i].job.online then l.draining == [] && l.waiting == [] else u !in s.world.online
  {
    hide Agrees;
    CarriedLetter(p, reg, s, u, l, i);
  }

  /** Nobody who is away can be left with a letter. */
  lemma AwayIsNotPresent(s: State, u: Block)
    requires OneThreadEach(s) && u !in s.world.online
    ensures !Present(s, u)
  {
  }

  lemma FinishGoesWell(p: Primitives, reg: Registry, s: State, u: Block, l: Ledger, i: nat)
    requires FilesPresent(reg, s.world) && u in reg && OneThreadEach(s) && Agrees(p, reg, s, u, l) && Kept(s, u, l)
    ensures GoesWell(p, reg, s, Finish(i), u, l)
  {
    hide Agrees, Room, L.AfterAdd, InTurn, Numbered, OneThreadEach, Present, Overtakes;
    var r, mv := Apply(p, reg, s, Finish(i)), MoveOf(p, reg, s, Finish(i), u);
    if i < |s.threads| && IsCarrying(s.threads[i], u) {
      CarrierInTurn(p, reg, s, u, l, i);
      if s.threads[i].job.online {
        NumberedGive(l, i);
        GoesInTurn(s, r, u, l, Record(l, mv), i);
      } else {
        AwayIsNotPresent(s, u);
        NobodyIsNext(l, mv);
        if Room(s.world.files[u]) {
          NumberedKeep(l, i);
          GoesInTurn(s, r, u, l, Record(l, mv), i);
        }
      }
    } else {
      NobodyIsNext(l, mv);
      if r != s {
        OthersInTurn(s, r, u, l, i);
      }
    }
  }

  /** A step that hands nothing over overtakes nothing. */
  lemma NobodyIsNext(l: Ledger, mv: Move)
    requires !mv.Give? && !mv.SendFirst?
    ensures !Overtakes(l, mv)
  {
  }

  lemma FetchGoesWell(p: Primitives, reg: Registry, s: State, u: Block, l: Ledger, i: nat)
    requires Inv(p, reg, s) && u in reg && OneThreadEach(s) && Agrees(p, reg, s, u, l) && Kept(s, u, l)
    ensures GoesWell(p, reg, s, Fetch(i), u, l)
  {
    hide Agrees, L.Load, L.Canonical, InTurn, Numbered, OneThreadEach, Present, Overtakes, Sound, Conserved;
    var r, mv := Apply(p, reg, s, Fetch(i)), MoveOf(p, reg, s, Fetch(i), u);
    NobodyIsNext(l, mv);
    if i < |s.threads| && s.threads[i].job.Joining? && s.threads[i].id in reg {
      if s.threads[i].id == u {
        DrainAgrees(p, reg, s, u, l, i);
        NumberedDrain(l);
        LoginInTurn(s, r, u, l, Record(l, mv), i);
      } else {
        OthersInTurn(s, r, u, l, i);
      }
    }
  }

  lemma SendGoesWell(p: Primitives, reg: Registry, s: State, u: Block, l: Ledger, i: nat)
    requires FilesPresent(reg, s.world) && u in reg && Agrees(p, reg, s, u, l) && OneThreadEach(s) && Kept(s, u, l)
    ensures GoesWell(p, reg, s, SendNext(i), u, l)
  {
    hide Agrees, InTurn, Numbered, OneThreadEach, Present, Overtakes, L.Load;
    var r, mv := Apply(p, reg, s, SendNext(i)), MoveOf(p, reg, s, SendNext(i), u);
    if i < |s.threads| && s.threads[i].job.Draining? && s.threads[i].job.rest != [] {
      if s.threads[i].id == u {
        DrainerInTurn(p, reg, s, u, l, i);
        NumberedSend(l);
        LoginInTurn(s, r, u, l, Record(l, mv), i);
      } else {
        NobodyIsNext(l, mv);
        OthersInTurn(s, r, u, l, i);
      }
    } else {
      NobodyIsNext(l, mv);
    }
  }

  lemma DrainerInTurn(p: Primitives, reg: Registry, s: State, u: Block, l: Ledger, i: nat)
    requires u in reg && u in s.world.files && Agrees(p, reg, s, u, l)
    requires i < |s.threads| && IsDraining(s.threads[i], u) && s.threads[i].job.rest != []
    ensures l.draining != []
  {
    hide For, Logged;
    DrainedLetter(s.threads, u, For(u, s.world.accepted), l, i);
  }

  lemma OthersGoWell(p: Primitives, reg: Registry, s: State, step: Step, u: Block, l: Ledger)
    requires FilesPresent(reg, s.world) && Kept(s, u, l) && (step.Enter? || step.Ready? || step.Leave?)
    requires !Meddles(reg, s, step, u)
    ensures GoesWell(p, reg, s, step, u, l)
  {
    hide InTurn, Numbered, Present, Overtakes;
    var r := Apply(p, reg, s, step);
    NobodyIsNext(l, Nothing);
    match step
    case Enter(h) => if h.id !in s.world.online { EntersInTurn(s, u, l, h); }
    case Ready(i) => if i < |s.threads| && s.threads[i].job == Draining([]) { ReadyInTurn(s, u, l, i); }
    case Leave(i) => if i < |s.threads| && s.threads[i].job.Idle? { OthersInTurn(s, r, u, l, i); }
  }

  lemma ReadyInTurn(s: State, u: Block, l: Ledger, i: nat)
    requires InTurn(s, u, l) && i < |s.threads| && s.threads[i].job == Draining([])
    ensures InTurn(WithJob(s, i, Idle), u, l)
  {
    var r := WithJob(s, i, Idle);
    if s.threads[i].id == u {
      LoginInTurn(s, r, u, l, l, i);
    } else {
      OthersInTurn(s, r, u, l, i);
    }
  }

  lemma StepGoesWell(p: Primitives, reg: Registry, s: State, step: Step, u: Block, l: Ledger)
    requires Inv(p, reg, s) && u in reg && Sane(p, reg, s, u, l) && Kept(s, u, l) && !Meddles(reg, s, step, u)
    ensures GoesWell(p, reg, s, step, u, l)
  {
    hide GoesWell, Kept, Agrees, Meddles, OneThreadEach;
    match step
    case Receive(i, m) => ReceiveGoesWell(p, reg, s, u, l, i, m);
    case Finish(i) => FinishGoesWell(p, reg, s, u, l, i);
    case Fetch(i) => FetchGoesWell(p, reg, s, u, l, i);
    case SendNext(i) => SendGoesWell(p, reg, s, u, l, i);
    case _ => OthersGoWell(p, reg, s, step, u, l);
  }

  /** As long as deliveries to a user and the user's logins take turns, whatever else the threads do, no
      letter of the user is overtaken and none is left waiting for a user who is there. */
  lemma {:induction false} TurnsKeepOrder(p: Primitives, reg: Registry, u: Block, run: seq<Step>)
    requires u in reg && !Meddled(p, reg, u, run)
    ensures !Overtaken(p, reg, u, run) && !EverStrands(p, reg, u, run)
    ensures Kept(Run(p, reg, run), u, Watched(p, reg, u, run))
  {
    hide Apply, Record, MoveOf, Kept, Inv, Sane, Overtakes, Strands, Meddles;
    if run == [] {
      NobodyInTurn(p, reg, u);
    } else {
      var front, step := run[..|run| - 1], run[|run| - 1];
      TurnsKeepOrder(p, reg, u, front);
      LedgerIsRight(p, reg, u, front);
      StepGoesWell(p, reg, Run(p, reg, front), step, u, Watched(p, reg, u, front));
    }
  }

  lemma NobodyInTurn(p: Primitives, reg: Registry, u: Block)
    ensures Kept(Run(p, reg, []), u, BLANK)
  {
    hide Fresh;
    FreshIsOffline(p, reg);
  }

  /** So the user is handed the first letters that were accepted, in order, and no letter lies in the file of a
      user who has looked into it. */
  lemma TurnsDeliverInOrder(p: Primitives, reg: Registry, u: Block, run: seq<Step>)
    requires u in reg && !Meddled(p, reg, u, run)
    ensures var w := Run(p, reg, run).world; For(u, w.handed) <= For(u, w.accepted)
    ensures !Stranded(p, reg, Run(p, reg, run), u)
  {
    hide *;
    TurnsKeepOrder(p, reg, u, run);
    OrderOfLetters(p, reg, u, run);
    NeverStrandedIff(p, reg, u, run);
    StrandedNow(p, reg, u, run);
  }

  lemma StrandedNow(p: Primitives, reg: Registry, u: Block, run: seq<Step>)
    requires u in reg
    ensures Stranded(p, reg, Run(p, reg, run), u) ==> EverStranded(p, reg, u, run)
  {
    hide Run, Stranded;
  }

  /** Once the user is there and nothing is under way for the user, everything that was accepted was handed over. */
  lemma TurnsDeliverAll(p: Primitives, reg: Registry, u: Block, run: seq<Step>)
    requires u in reg && !Meddled(p, reg, u, run)
    requires u in Run(p, reg, run).world.online && !Busy(Run(p, reg, run), u)
    ensures var w := Run(p, reg, run).world; For(u, w.handed) == For(u, w.accepted)
  {
    hide Run, Watched, Meddled, Kept, Sane, For, Stranded, Busy, Inv, Overtaken, EverStrands;
    TurnsKeepOrder(p, reg, u, run);
    TurnsDeliverInOrder(p, reg, u, run);
    LedgerIsRight(p, reg, u, run);
    AllHanded(p, reg, Run(p, reg, run), u, Watched(p, reg, u, run));
  }

  lemma AllHanded(p: Primitives, reg: Registry, s: State, u: Block, l: Ledger)
    requires u in reg && u in s.world.files && Sane(p, reg, s, u, l) && Kept(s, u, l)
    requires u in s.world.online && !Busy(s, u)
    ensures |For(u, s.world.handed)| == |For(u, s.world.accepted)|
  {
    hide For, Logged, OneThreadEach, ThreadsAgree;
    NobodyBusy(p, reg, s, u, l);
    NobodyJoins(s, u);
  }

  lemma NobodyJoins(s: State, u: Block)
    requires !Busy(s, u)
    ensures !IsJoining(s, u)
  {
    forall i | 0 <= i < |s.threads| && s.threads[i].id == u
      ensures !s.threads[i].job.Joining?
    {
      if s.threads[i].job.Joining? {
        IsBusy(s, u, i);
      }
    }
  }
}
