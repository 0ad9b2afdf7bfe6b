/** The routing of messages by many client threads at once: looking the target up and delivering are
    two steps, and so are entering the table and draining the undelivered file.  Adding to a file and loading
    it are one step each, although the server takes no lock there: UndeliveredThreads shows when they act as one
    step, and UndeliveredLosses what is lost when they do not. */
module RoutingThreads {
  import opened Bytes
  import opened Crypto
  import opened Options
  import opened HandlerTable
  import opened Routing
  import L = UndeliveredLog

  /** What a client thread is in the middle of. */
  datatype Job =
    | Joining
    | Draining(rest: seq<bytes>)
    | Idle
    | Carrying(x: Parcel, online: bool)
    | Ended

  datatype Thread = Thread(id: Block, job: Job)

  datatype State = State(world: World, threads: seq<Thread>)

  datatype Step =
    | Enter(h: Handler)
    | Fetch(i: nat)
    | SendNext(i: nat)
    | Ready(i: nat)
    | Receive(i: nat, m: bytes)
    | Finish(i: nat)
    | Leave(i: nat)

  function WithJob(s: State, i: nat, job: Job): State
    requires i < |s.threads|
  {
    s.(threads := s.threads[i := s.threads[i].(job := job)])
  }

  /** One step of one thread.  A step that the thread cannot take now changes nothing. */
  function Apply(p: Primitives, reg: Registry, s: State, step: Step): (r: State)
    requires FilesPresent(reg, s.world)
    ensures FilesPresent(reg, r.world)
  {
    var w := s.world;
    match step
    case Enter(h) =>
      if h.id in w.online || h.id !in reg then s
      else State(Joined(w, h), s.threads + [Thread(h.id, Joining)])
    case Fetch(i) =>
      if i < |s.threads| && s.threads[i].job.Joining? && s.threads[i].id in reg then
        var u := s.threads[i].id;
        match L.Load(p, reg[u].auth, w.files[u])
        case None => WithJob(s, i, Idle)
        case Some(ms) => WithJob(s.(world := Fetched(p, reg, w, u)), i, Draining(ms))
      else s
    case SendNext(i) =>
      if i < |s.threads| && s.threads[i].job.Draining? && s.threads[i].job.rest != [] then
        var rest := s.threads[i].job.rest;
        WithJob(s.(world := Hand(w, Parcel(s.threads[i].id, rest[0]))), i, Draining(rest[1..]))
      else s
    case Ready(i) =>
      if i < |s.threads| && s.threads[i].job == Draining([]) then WithJob(s, i, Idle) else s
    case Receive(i, m) =>
      if i < |s.threads| && s.threads[i].job.Idle? && |m| < TWO64 then
        var from := s.threads[i].id;
        match Parse(reg, m)
        case Deliver(to, payload) =>
          var x := Parcel(to, Letter(from, payload));
          WithJob(s.(world := Accept(w, x)), i, Carrying(x, to in w.online))
        case NotFound(id) => s.(world := Answer(w, Parcel(from, [0xff] + id)))
        case KeyOf(id) => s.(world := Answer(w, Parcel(from, [1] + id + reg[id].key)))
        case _ => s
      else s
    case Finish(i) =>
      if i < |s.threads| && s.threads[i].job.Carrying? then
        var Carrying(x, online) := s.threads[i].job;
        if online then WithJob(s.(world := Hand(w, x)), i, Idle)
        else if x.to in reg && Room(w.files[x.to]) then WithJob(s.(world := Store(p, reg, w, x)), i, Idle)
        else s
      else s
    case Leave(i) =>
      if i < |s.threads| && s.threads[i].job.Idle? then
        WithJob(s.(world := Left(w, s.threads[i].id)), i, Ended)
      else s
  }

  /** What a thread holds that is meant for `u`. */
  function InHand(u: Block, t: Thread): multiset<bytes> {
    match t.job
    case Draining(rest) => if t.id == u then multiset(rest) else multiset{}
    case Carrying(x, _) => if x.to == u then multiset{x.m} else multiset{}
    case _ => multiset{}
  }

  function InHands(u: Block, ts: seq<Thread>): multiset<bytes> {
    if ts == [] then multiset{} else InHands(u, ts[..|ts| - 1]) + InHand(u, ts[|ts| - 1])
  }

  lemma {:induction false} InHandsUpdate(u: Block, ts: seq<Thread>, i: nat, t: Thread)
    requires i < |ts|
    ensures InHands(u, ts[i := t]) + InHand(u, ts[i]) == InHands(u, ts) + InHand(u, t)
    decreases |ts|
  {
    hide InHand;
    var n := |ts| - 1;
    var c := ts[i := t];
    if i == n {
      assert c[..n] == ts[..n];
    } else {
      InHandsUpdate(u, ts[..n], i, t);
      assert c[..n] == ts[..n][i := t];
      var x, y, z := InHands(u, ts[..n]), InHands(u, c[..n]), InHand(u, ts[n]);
      assert InHands(u, c) == y + z && InHands(u, ts) == x + z;
      assert (y + z) + InHand(u, ts[i]) == (y + InHand(u, ts[i])) + z;
      assert (x + z) + InHand(u, t) == (x + InHand(u, t)) + z;
    }
  }

  /** Nothing that was accepted for `u` is lost or duplicated: it was handed over, or waits in the file,
      or a thread is carrying it. */
  predicate Conserved(p: Primitives, reg: Registry, s: State, u: Block)
    requires u in reg && u in s.world.files
  {
    multiset(For(u, s.world.accepted)) == Settled(p, reg, s.world, u) + InHands(u, s.threads)
  }

  function Settled(p: Primitives, reg: Registry, w: World, u: Block): multiset<bytes>
    requires u in reg && u in w.files
  {
    multiset(For(u, w.handed)) + multiset(Logged(p, reg[u].auth, w.files[u]))
  }

  predicate Inv(p: Primitives, reg: Registry, s: State) {
    && FilesSound(p, reg, s.world.files)
    && (forall i | 0 <= i < |s.threads| :: s.threads[i].job.Carrying? ==>
          s.threads[i].job.x.to in reg && 0 < |s.threads[i].job.x.m| < TWO64)
    && (forall u | u in reg :: Conserved(p, reg, s, u))
  }

  // ----- the bookkeeping of one user -----

  lemma Balance(acc: multiset<bytes>, out: multiset<bytes>, hands: multiset<bytes>, hands': multiset<bytes>,
                held: multiset<bytes>, held': multiset<bytes>, acc': multiset<bytes>, out': multiset<bytes>)
    requires acc == out + hands && hands' + held == hands + held'
    requires acc' + out + held == acc + out' + held'
    ensures acc' == out' + hands'
  {
    forall x
      ensures acc'[x] == (out' + hands')[x]
    {
      assert acc[x] == (out + hands)[x] && (hands' + held)[x] == (hands + held')[x];
      assert (acc' + out + held)[x] == (acc + out' + held')[x];
    }
  }

  /** A thread changes what it holds by what the rest of the world gains or loses. */
  lemma ThreadMoved(p: Primitives, reg: Registry, s: State, r: State, i: nat, u: Block)
    requires u in reg && u in s.world.files && u in r.world.files && Conserved(p, reg, s, u)
    requires i < |s.threads| == |r.threads| && r.threads == s.threads[i := r.threads[i]]
    requires multiset(For(u, r.world.accepted)) + Settled(p, reg, s.world, u) + InHand(u, s.threads[i])
          == multiset(For(u, s.world.accepted)) + Settled(p, reg, r.world, u) + InHand(u, r.threads[i])
    ensures Conserved(p, reg, r, u)
  {
    hide For, InHand, InHands, Settled;
    InHandsUpdate(u, s.threads, i, r.threads[i]);
    Balance(multiset(For(u, s.world.accepted)), Settled(p, reg, s.world, u), InHands(u, s.threads), InHands(u, r.threads),
      InHand(u, s.threads[i]), InHand(u, r.threads[i]), multiset(For(u, r.world.accepted)), Settled(p, reg, r.world, u));
  }

  lemma AcceptKeeps(p: Primitives, reg: Registry, s: State, i: nat, x: Parcel, online: bool)
    requires Inv(p, reg, s) && i < |s.threads| && s.threads[i].job.Idle? && x.to in reg && 0 < |x.m| < TWO64
    ensures Inv(p, reg, WithJob(s.(world := Accept(s.world, x)), i, Carrying(x, online)))
  {
    hide For, InHands, Logged, Sound;
    var r := WithJob(s.(world := Accept(s.world, x)), i, Carrying(x, online));
    forall u | u in reg
      ensures Conserved(p, reg, r, u)
    {
      assert Conserved(p, reg, s, u);
      ForSnoc(u, s.world.accepted, x);
      ThreadMoved(p, reg, s, r, i, u);
    }
  }

  lemma HandKeeps(p: Primitives, reg: Registry, s: State, i: nat, x: Parcel, job: Job)
    requires Inv(p, reg, s) && i < |s.threads| && !job.Carrying?
    requires forall u ::
      InHand(u, s.threads[i]) == InHand(u, Thread(s.threads[i].id, job)) + (if u == x.to then multiset{x.m} else multiset{})
    ensures Inv(p, reg, WithJob(s.(world := Hand(s.world, x)), i, job))
  {
    hide For, InHand, InHands, Logged, Sound;
    var r := WithJob(s.(world := Hand(s.world, x)), i, job);
    forall u | u in reg
      ensures Conserved(p, reg, r, u)
    {
      assert Conserved(p, reg, s, u);
      ForSnoc(u, s.world.handed, x);
      ThreadMoved(p, reg, s, r, i, u);
    }
  }

  lemma StoreSettles(p: Primitives, reg: Registry, w: World, x: Parcel, u: Block)
    requires FilesSound(p, reg, w.files) && u in reg && x.to in reg && Room(w.files[x.to]) && 0 < |x.m| < TWO64
    ensures FilesSound(p, reg, Store(p, reg, w, x).files)
    ensures Settled(p, reg, Store(p, reg, w, x), u) == Settled(p, reg, w, u) + if u == x.to then multiset{x.m} else multiset{}
  {
    hide For, Logged, Sound, L.AfterAdd;
    StoredInFile(p, reg[x.to].auth, w.files[x.to], x.m);
  }

  lemma StoreKeeps(p: Primitives, reg: Registry, s: State, i: nat, x: Parcel)
    requires Inv(p, reg, s) && i < |s.threads| && s.threads[i].job == Carrying(x, false)
    requires Room(s.world.files[x.to])
    ensures Inv(p, reg, WithJob(s.(world := Store(p, reg, s.world, x)), i, Idle))
  {
    hide For, InHands, Logged, Sound, L.AfterAdd, Conserved, Settled;
    var r := WithJob(s.(world := Store(p, reg, s.world, x)), i, Idle);
    StoreSettles(p, reg, s.world, x, x.to);
    forall u | u in reg
      ensures Conserved(p, reg, r, u)
    {
      StoreSettles(p, reg, s.world, x, u);
      ThreadMoved(p, reg, s, r, i, u);
    }
  }

  lemma FetchSettles(p: Primitives, reg: Registry, w: World, v: Block, u: Block)
    requires FilesSound(p, reg, w.files) && u in reg && v in reg
    ensures FilesSound(p, reg, Fetched(p, reg, w, v).files)
    ensures Settled(p, reg, w, u) ==
      Settled(p, reg, Fetched(p, reg, w, v), u) + if u == v then multiset(Logged(p, reg[v].auth, w.files[v])) else multiset{}
  {
    hide For, Logged, Sound, L.Canonical;
    EmptyFile(p, reg[v].auth);
  }

  lemma FetchKeeps(p: Primitives, reg: Registry, s: State, i: nat)
    requires Inv(p, reg, s) && i < |s.threads| && s.threads[i].job.Joining? && s.threads[i].id in reg
    ensures Inv(p, reg, Apply(p, reg, s, Fetch(i)))
  {
    hide For, InHands, Logged, Sound, L.Load, L.Canonical, Conserved, Settled;
    var v := s.threads[i].id;
    var r := Apply(p, reg, s, Fetch(i));
    assert Sound(p, reg[v].auth, s.world.files[v]);
    SoundLoads(p, reg[v].auth, s.world.files[v]);
    FetchSettles(p, reg, s.world, v, v);
    forall u | u in reg
      ensures Conserved(p, reg, r, u)
    {
      FetchSettles(p, reg, s.world, v, u);
      ThreadMoved(p, reg, s, r, i, u);
    }
  }

  /** A step that moves no letter: the thread's job or the table changes, and answers are given. */
  lemma EmptyHandedKeeps(p: Primitives, reg: Registry, s: State, r: State)
    requires Inv(p, reg, s)
    requires r.world.(online := s.world.online, answers := s.world.answers) == s.world
    requires forall u :: InHands(u, r.threads) == InHands(u, s.threads)
    requires forall i | 0 <= i < |r.threads| :: r.threads[i].job.Carrying? ==> i < |s.threads| && r.threads[i] == s.threads[i]
    ensures Inv(p, reg, r)
  {
    hide For, InHands, Logged, Sound;
    forall u | u in reg
      ensures Conserved(p, reg, r, u)
    {
      assert Conserved(p, reg, s, u);
    }
  }

  lemma SameHands(s: State, i: nat, job: Job)
    requires i < |s.threads| && (s.threads[i].job.Joining? || s.threads[i].job == Draining([]) || s.threads[i].job.Idle?)
    requires job.Idle? || job.Ended?
    ensures forall u :: InHands(u, WithJob(s, i, job).threads) == InHands(u, s.threads)
  {
    hide InHands;
    forall u
      ensures InHands(u, WithJob(s, i, job).threads) == InHands(u, s.threads)
    {
      InHandsUpdate(u, s.threads, i, WithJob(s, i, job).threads[i]);
      assert InHands(u, s.threads) + multiset{} == InHands(u, s.threads);
      assert InHands(u, WithJob(s, i, job).threads) + multiset{} == InHands(u, WithJob(s, i, job).threads);
    }
  }

  lemma NewHand(ts: seq<Thread>, t: Thread)
    requires t.job.Joining?
    ensures forall u :: InHands(u, ts + [t]) == InHands(u, ts)
  {
    assert (ts + [t])[..|ts|] == ts;
  }

  lemma ReceiveKeeps(p: Primitives, reg: Registry, s: State, i: nat, m: bytes)
    requires Inv(p, reg, s)
    ensures Inv(p, reg, Apply(p, reg, s, Receive(i, m)))
  {
    hide InHands, For, Logged, Sound, Parse, Letter;
    if i < |s.threads| && s.threads[i].job.Idle? && |m| < TWO64 {
      match Parse(reg, m)
      case Deliver(to, payload) => {
        DeliverIffLetter(reg, m, to, payload);
        AcceptKeeps(p, reg, s, i, Parcel(to, Letter(s.threads[i].id, payload)), to in s.world.online);
      }
      case _ => EmptyHandedKeeps(p, reg, s, Apply(p, reg, s, Receive(i, m)));
    }
  }

  lemma FinishKeeps(p: Primitives, reg: Registry, s: State, i: nat)
    requires Inv(p, reg, s)
    ensures Inv(p, reg, Apply(p, reg, s, Finish(i)))
  {
    hide InHands, For, Logged, Sound, Room, Store;
    if i < |s.threads| && s.threads[i].job.Carrying? {
      var Carrying(x, online) := s.threads[i].job;
      if online {
        HandKeeps(p, reg, s, i, x, Idle);
      } else if Room(s.world.files[x.to]) {
        StoreKeeps(p, reg, s, i, x);
      }
    }
  }

  lemma SendNextKeeps(p: Primitives, reg: Registry, s: State, i: nat)
    requires Inv(p, reg, s)
    ensures Inv(p, reg, Apply(p, reg, s, SendNext(i)))
  {
    hide InHands, For, Logged, Sound;
    if i < |s.threads| && s.threads[i].job.Draining? && s.threads[i].job.rest != [] {
      var rest := s.threads[i].job.rest;
      assert rest == [rest[0]] + rest[1..];
      HandKeeps(p, reg, s, i, Parcel(s.threads[i].id, rest[0]), Draining(rest[1..]));
    }
  }

  lemma StepKeeps(p: Primitives, reg: Registry, s: State, step: Step)
    requires Inv(p, reg, s)
    ensures Inv(p, reg, Apply(p, reg, s, step))
  {
    hide InHands, For, Logged, Sound, L.Load, L.Canonical, Parse, Room, Letter;
    match step
    case Enter(h) => {
      NewHand(s.threads, Thread(h.id, Joining));
      EmptyHandedKeeps(p, reg, s, Apply(p, reg, s, step));
    }
    case Fetch(i) => if i < |s.threads| && s.threads[i].job.Joining? && s.threads[i].id in reg { FetchKeeps(p, reg, s, i); }
    case SendNext(i) => SendNextKeeps(p, reg, s, i);
    case Ready(i) => if i < |s.threads| && s.threads[i].job == Draining([]) {
      SameHands(s, i, Idle);
      EmptyHandedKeeps(p, reg, s, Apply(p, reg, s, step));
    }
    case Receive(i, m) => ReceiveKeeps(p, reg, s, i, m);
    case Finish(i) => FinishKeeps(p, reg, s, i);
    case Leave(i) => if i < |s.threads| && s.threads[i].job.Idle? {
      SameHands(s, i, Ended);
      EmptyHandedKeeps(p, reg, s, Apply(p, reg, s, step));
    }
  }

  function Run(p: Primitives, reg: Registry, run: seq<Step>): (s: State)
    ensures FilesPresent(reg, s.world)
  {
    if run == [] then State(Fresh(p, reg), []) else
    Apply(p, reg, Run(p, reg, run[..|run| - 1]), run[|run| - 1])
  }

  /** Over every interleaving of any number of client threads, what was accepted for a user is, as a
      multiset, what the user's handlers were given, what waits in the user's file, and what threads
      are carrying: as long as no two threads are in the same file at once, where a letter can be lost
      (UndeliveredLosses.TwoAppendsLoseOne). */
  lemma {:induction false} NothingLostOrDuplicated(p: Primitives, reg: Registry, run: seq<Step>)
    ensures Inv(p, reg, Run(p, reg, run))
  {
    hide Apply, Sound, Logged, L.Canonical;
    if run == [] {
      forall u | u in reg
        ensures Sound(p, reg[u].auth, Fresh(p, reg).files[u]) && Conserved(p, reg, Run(p, reg, run), u)
      {
        EmptyFile(p, reg[u].auth);
      }
    } else {
      NothingLostOrDuplicated(p, reg, run[..|run| - 1]);
      StepKeeps(p, reg, Run(p, reg, run[..|run| - 1]), run[|run| - 1]);
    }
  }

  // ----- order -----

  lemma RunOneMore(p: Primitives, reg: Registry, run: seq<Step>, step: Step)
    ensures Run(p, reg, run + [step]) == Apply(p, reg, Run(p, reg, run), step)
  {
    hide Apply;
    assert (run + [step])[..|run|] == run;
  }

  /** A letter for a user who is not there ends in the user's file. */
  lemma FirstIsStored(p: Primitives, reg: Registry, hv: Handler, u: Block, a: bytes) returns (run: seq<Step>)
    requires hv.id in reg && u in reg && |a| + 0x29 < TWO64 && u != hv.id
    ensures var s, x := Run(p, reg, run), Parcel(u, Letter(hv.id, a));
      && s.threads == [Thread(hv.id, Idle)] && s.world.online == map[hv.id := hv]
      && s.world.accepted == [x] && s.world.handed == []
      && Logged(p, reg[u].auth, s.world.files[u]) == [x.m]
      && Sound(p, reg[u].auth, s.world.files[u])
  {
    hide Sound, Logged, L.Load, L.Canonical, L.AfterAdd, Parse, Letter, Run;
    var v, x := hv.id, Parcel(u, Letter(hv.id, a));
    EmptyFile(p, reg[v].auth);
    EmptyFile(p, reg[u].auth);
    SoundLoads(p, reg[v].auth, L.Canonical(p, reg[v].auth, []));
    DeliverIffLetter(reg, Letter(u, a), u, a);
    var s0 := Run(p, reg, []);
    RunNothing(p, reg);
    RunOneMore(p, reg, [], Enter(hv));
    run := [] + [Enter(hv)];
    RunOneMore(p, reg, run, Fetch(0));
    run := run + [Fetch(0)];
    RunOneMore(p, reg, run, Ready(0));
    run := run + [Ready(0)];
    var s3 := Run(p, reg, run);
    assert s3 == State(Fetched(p, reg, Joined(s0.world, hv), v), [Thread(v, Idle)]);
    RunOneMore(p, reg, run, Receive(0, Letter(u, a)));
    run := run + [Receive(0, Letter(u, a))];
    CanonicalLength(p, reg[u].auth);
    StoredInFile(p, reg[u].auth, s3.world.files[u], x.m);
    RunOneMore(p, reg, run, Finish(0));
    run := run + [Finish(0)];
  }

  lemma CanonicalLength(p: Primitives, auth: Block)
    ensures |L.Canonical(p, auth, [])| == 0x30
  {
    LengthOfNone();
  }

  lemma RunNothing(p: Primitives, reg: Registry)
    ensures Run(p, reg, []) == State(Fresh(p, reg), [])
  {
  }

  /** The user enters, and a letter comes before the file is fetched: it is handed over at once. */
  lemma SecondOvertakes(p: Primitives, reg: Registry, hu: Handler, hv: Handler, a: bytes, b: bytes)
    returns (run: seq<Step>)
    requires hu.id in reg && hv.id in reg && hu.id != hv.id && |a| + 0x29 < TWO64 && |b| + 0x29 < TWO64
    ensures var s, x, y := Run(p, reg, run), Parcel(hu.id, Letter(hv.id, a)), Parcel(hu.id, Letter(hv.id, b));
      && |s.threads| == 2 && s.threads[1] == Thread(hu.id, Joining)
      && s.world.accepted == [x] + [y] && s.world.handed == [y]
      && Logged(p, reg[hu.id].auth, s.world.files[hu.id]) == [x.m]
      && Sound(p, reg[hu.id].auth, s.world.files[hu.id])
  {
    hide Sound, Logged, L.Load, L.Canonical, Parse, Letter, Run;
    run := FirstIsStored(p, reg, hv, hu.id, a);
    DeliverIffLetter(reg, Letter(hu.id, b), hu.id, b);
    RunOneMore(p, reg, run, Enter(hu));
    run := run + [Enter(hu)];
    RunOneMore(p, reg, run, Receive(0, Letter(hu.id, b)));
    run := run + [Receive(0, Letter(hu.id, b))];
    RunOneMore(p, reg, run, Finish(0));
    run := run + [Finish(0)];
  }

  /** Between entering the table and draining the file there is time for a newer letter to go first:
      the order of OperationsKeepOrder does not hold when login takes two steps. */
  lemma SplitLoginCanReorder(p: Primitives, reg: Registry, hu: Handler, hv: Handler, a: bytes, b: bytes)
    returns (run: seq<Step>)
    requires hu.id in reg && hv.id in reg && hu.id != hv.id && |a| + 0x29 < TWO64 && |b| + 0x29 < TWO64
    ensures var w, first, second := Run(p, reg, run).world, Letter(hv.id, a), Letter(hv.id, b);
      For(hu.id, w.accepted) == [first, second] && For(hu.id, w.handed) == [second, first]
  {
    hide Sound, Logged, L.Load, L.Canonical, Parse, Letter, Run, For;
    var x, y := Parcel(hu.id, Letter(hv.id, a)), Parcel(hu.id, Letter(hv.id, b));
    run := SecondOvertakes(p, reg, hu, hv, a, b);
    SoundLoads(p, reg[hu.id].auth, Run(p, reg, run).world.files[hu.id]);
    RunOneMore(p, reg, run, Fetch(1));
    run := run + [Fetch(1)];
    RunOneMore(p, reg, run, SendNext(1));
    run := run + [SendNext(1)];
    ForTwo(x, y);
    ForTwo(y, x);
  }

  lemma ForTwo(x: Parcel, y: Parcel)
    requires x.to == y.to
    ensures For(x.to, [x] + [y]) == [x.m, y.m]
  {
    ForSnoc(x.to, [], x);
    ForSnoc(x.to, [x], y);
    assert [] + [x] == [x];
  }
}
