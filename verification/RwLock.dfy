/** The readers-writer lock as a monitor: any number of threads acquire, sleep, are woken and release, in
    any interleaving of their turns with the mutex. */
module RwLock {

  const INT_MAX: int := 0x7fff_ffff
  const MAX_READERS: int := INT_MAX - 1

  datatype Phase =
    | Outside
    | AskingRead(asleep: bool)
    | AskingWrite(asleep: bool)
    | Reading
    | Writing

  type Threads = seq<Phase>

  predicate ReadGuard(useState: int) {
    !(useState < 0 || useState == MAX_READERS)
  }

  predicate WriteGuard(useState: int) {
    useState == 0
  }

  // ----- threads -----

  /** Failed is a violated assertion in the code. */
  datatype State = State(useState: int, threads: Threads, failed: bool)

  datatype Step =
    | Spawn
    | AskRead(i: nat)
    | AskWrite(i: nat)
    | Turn(i: nat)
    | SpuriousWakeUp(i: nat)
    | LeaveRead(i: nat)
    | LeaveWrite(i: nat)

  /** pthread_cond_broadcast. */
  function Woken(ts: Threads): (r: Threads)
    ensures |r| == |ts|
    ensures forall i | 0 <= i < |ts| :: r[i] == Awake(ts[i])
  {
    seq(|ts|, i requires 0 <= i < |ts| => Awake(ts[i]))
  }

  function Awake(ph: Phase): Phase {
    if ph.AskingRead? then AskingRead(false) else if ph.AskingWrite? then AskingWrite(false) else ph
  }

  /** One step of one thread.  A thread releases only what it holds; anything else changes nothing. */
  function Apply(s: State, step: Step): State {
    if s.failed then s else
    match step
    case Spawn => s.(threads := s.threads + [Outside])
    case AskRead(i) => if i < |s.threads| && s.threads[i].Outside? then s.(threads := s.threads[i := AskingRead(false)]) else s
    case AskWrite(i) => if i < |s.threads| && s.threads[i].Outside? then s.(threads := s.threads[i := AskingWrite(false)]) else s
    case Turn(i) =>
      if i >= |s.threads| then s
      else if s.threads[i] == AskingRead(false) then
        if ReadGuard(s.useState) then s.(useState := s.useState + 1, threads := s.threads[i := Reading])
        else s.(threads := s.threads[i := AskingRead(true)])
      else if s.threads[i] == AskingWrite(false) then
        if WriteGuard(s.useState) then s.(useState := s.useState - 1, threads := s.threads[i := Writing])
        else s.(threads := s.threads[i := AskingWrite(true)])
      else s
    case SpuriousWakeUp(i) =>
      if i >= |s.threads| then s
      else if s.threads[i].AskingRead? then s.(threads := s.threads[i := AskingRead(false)])
      else if s.threads[i].AskingWrite? then s.(threads := s.threads[i := AskingWrite(false)])
      else s
    case LeaveRead(i) =>
      if i < |s.threads| && s.threads[i].Reading? then
        if s.useState > 0 then State(s.useState - 1, Woken(s.threads[i := Outside]), false) else s.(failed := true)
      else s
    case LeaveWrite(i) =>
      if i < |s.threads| && s.threads[i].Writing? then
        if s.useState == -1 then State(s.useState + 1, Woken(s.threads[i := Outside]), false) else s.(failed := true)
      else s
  }

  function Readers(ts: Threads): nat {
    if ts == [] then 0 else Readers(ts[..|ts| - 1]) + if ts[|ts| - 1].Reading? then 1 else 0
  }

  function Writers(ts: Threads): nat {
    if ts == [] then 0 else Writers(ts[..|ts| - 1]) + if ts[|ts| - 1].Writing? then 1 else 0
  }

  function ReadersIn(ph: Phase): nat {
    if ph.Reading? then 1 else 0
  }

  function WritersIn(ph: Phase): nat {
    if ph.Writing? then 1 else 0
  }

  lemma {:induction false} CountsUpdate(ts: Threads, i: nat, ph: Phase)
    requires i < |ts|
    ensures Readers(ts[i := ph]) + ReadersIn(ts[i]) == Readers(ts) + ReadersIn(ph)
    ensures Writers(ts[i := ph]) + WritersIn(ts[i]) == Writers(ts) + WritersIn(ph)
    decreases |ts|
  {
    var n := |ts| - 1;
    if i == n {
      assert ts[i := ph][..n] == ts[..n];
    } else {
      CountsUpdate(ts[..n], i, ph);
      assert ts[i := ph][..n] == ts[..n][i := ph];
    }
  }

  lemma {:induction false} WokenCounts(ts: Threads)
    ensures Readers(Woken(ts)) == Readers(ts) && Writers(Woken(ts)) == Writers(ts)
    decreases |ts|
  {
    if ts != [] {
      var n := |ts| - 1;
      WokenCounts(ts[..n]);
      assert Woken(ts)[..n] == Woken(ts[..n]);
    }
  }

  lemma SpawnCounts(ts: Threads)
    ensures Readers(ts + [Outside]) == Readers(ts) && Writers(ts + [Outside]) == Writers(ts)
  {
    assert (ts + [Outside])[..|ts|] == ts;
  }

  /** Someone who is counted is somewhere. */
  lemma {:induction false} CountedIsThere(ts: Threads, i: nat)
    requires i < |ts|
    ensures ts[i].Reading? ==> Readers(ts) >= 1
    ensures ts[i].Writing? ==> Writers(ts) >= 1
    decreases |ts|
  {
    if i < |ts| - 1 {
      CountedIsThere(ts[..|ts| - 1], i);
    }
  }

  /** The state counts the readers, or is -1 for one writer; no assertion has failed; and nobody sleeps
      while there is room for what they ask for. */
  predicate Inv(s: State) {
    && !s.failed
    && -1 <= s.useState <= MAX_READERS
    && (s.useState == -1 <==> Writers(s.threads) == 1)
    && (s.useState == -1 ==> Readers(s.threads) == 0)
    && (s.useState >= 0 ==> Writers(s.threads) == 0 && Readers(s.threads) == s.useState)
    && (forall i | 0 <= i < |s.threads| ::
          && (s.threads[i] == AskingRead(true) ==> !ReadGuard(s.useState))
          && (s.threads[i] == AskingWrite(true) ==> !WriteGuard(s.useState)))
  }

  lemma StepKeeps(s: State, step: Step)
    requires Inv(s)
    ensures Inv(Apply(s, step))
  {
    hide Readers, Writers;
    match step
    case Spawn => SpawnCounts(s.threads);
    case AskRead(i) => if i < |s.threads| { CountsUpdate(s.threads, i, AskingRead(false)); }
    case AskWrite(i) => if i < |s.threads| { CountsUpdate(s.threads, i, AskingWrite(false)); }
    case Turn(i) => if i < |s.threads| { TurnKeeps(s, i); }
    case SpuriousWakeUp(i) => if i < |s.threads| {
      CountsUpdate(s.threads, i, AskingRead(false));
      CountsUpdate(s.threads, i, AskingWrite(false));
    }
    case LeaveRead(i) => if i < |s.threads| { LeaveKeeps(s, i); }
    case LeaveWrite(i) => if i < |s.threads| { LeaveKeeps(s, i); }
  }

  lemma TurnKeeps(s: State, i: nat)
    requires Inv(s) && i < |s.threads|
    ensures Inv(Apply(s, Turn(i)))
  {
    hide Readers, Writers;
    CountsUpdate(s.threads, i, Reading);
    CountsUpdate(s.threads, i, Writing);
    CountsUpdate(s.threads, i, AskingRead(true));
    CountsUpdate(s.threads, i, AskingWrite(true));
  }

  lemma LeaveKeeps(s: State, i: nat)
    requires Inv(s) && i < |s.threads|
    ensures Inv(Apply(s, LeaveRead(i))) && Inv(Apply(s, LeaveWrite(i)))
  {
    hide Readers, Writers;
    CountedIsThere(s.threads, i);
    CountsUpdate(s.threads, i, Outside);
    WokenCounts(s.threads[i := Outside]);
  }

  function Run(steps: seq<Step>): State {
    if steps == [] then State(0, [], false) else Apply(Run(steps[..|steps| - 1]), steps[|steps| - 1])
  }

  /** Over every interleaving of any number of threads: readers and writers exclude each other, the state
      stays within its bounds and says exactly who is inside, both assertions hold, and no thread stays
      asleep while its guard is true. */
  lemma {:induction false} LockIsSafe(steps: seq<Step>)
    ensures Inv(Run(steps))
  {
    hide Inv, Apply;
    if steps == [] {
      StartIsSafe();
    } else {
      LockIsSafe(steps[..|steps| - 1]);
      StepKeeps(Run(steps[..|steps| - 1]), steps[|steps| - 1]);
    }
  }

  lemma StartIsSafe()
    ensures Inv(State(0, [], false))
  {
  }

  lemma Exclusion(steps: seq<Step>, i: nat, j: nat)
    requires i < |Run(steps).threads| && j < |Run(steps).threads| && i != j
    ensures Run(steps).threads[i].Writing? ==> !Run(steps).threads[j].Writing? && !Run(steps).threads[j].Reading?
  {
    hide Run, Readers, Writers;
    LockIsSafe(steps);
    var ts := Run(steps).threads;
    if ts[i].Writing? {
      CountedIsThere(ts, i);
      CountedIsThere(ts, j);
      CountsUpdate(ts, i, Outside);
      CountedIsThere(ts[i := Outside], j);
    }
  }

  // ----- who gets in -----

  /** The threads that are reading. */
  function ReadingThreads(ts: Threads): set<nat> {
    set j: nat | j < |ts| && ts[j].Reading?
  }

  predicate NobodyWrites(ts: Threads) {
    forall j | 0 <= j < |ts| :: !ts[j].Writing?
  }

  lemma {:induction false} ReadersAreThreads(ts: Threads)
    ensures |ReadingThreads(ts)| == Readers(ts)
    decreases |ts|
  {
    if ts != [] {
      var n := |ts| - 1;
      ReadersAreThreads(ts[..n]);
      assert ReadingThreads(ts) == ReadingThreads(ts[..n]) + if ts[n].Reading? then {n} else {};
    }
  }

  lemma {:induction false} NoWriters(ts: Threads)
    ensures Writers(ts) == 0 <==> NobodyWrites(ts)
    decreases |ts|
  {
    if ts != [] {
      NoWriters(ts[..|ts| - 1]);
    }
  }

  /** What the state of the lock says about the threads. */
  lemma WhoIsInside(s: State)
    requires Inv(s)
    ensures s.useState < 0 <==> !NobodyWrites(s.threads)
    ensures s.useState == MAX_READERS <==> |ReadingThreads(s.threads)| == 0x7fff_fffe
    ensures |ReadingThreads(s.threads)| <= 0x7fff_fffe
    ensures s.useState == 0 <==> NobodyWrites(s.threads) && ReadingThreads(s.threads) == {}
  {
    hide Readers, Writers;
    ReadersAreThreads(s.threads);
    NoWriters(s.threads);
  }

  /** An awake thread that asks to read gets in exactly when nobody writes and not too many read, and falls
      asleep otherwise. */
  lemma ReaderEntersIff(s: State, i: nat)
    requires Inv(s) && i < |s.threads| && s.threads[i] == AskingRead(false)
    ensures Apply(s, Turn(i)).threads == s.threads[i :=
      if NobodyWrites(s.threads) && |ReadingThreads(s.threads)| < 0x7fff_fffe then Reading else AskingRead(true)]
  {
    hide Readers, Writers;
    WhoIsInside(s);
  }

  /** One that asks to write gets in exactly when nobody reads or writes. */
  lemma WriterEntersIff(s: State, i: nat)
    requires Inv(s) && i < |s.threads| && s.threads[i] == AskingWrite(false)
    ensures Apply(s, Turn(i)).threads == s.threads[i :=
      if NobodyWrites(s.threads) && ReadingThreads(s.threads) == {} then Writing else AskingWrite(true)]
  {
    hide Readers, Writers;
    WhoIsInside(s);
  }

  /** Over every run: who gets in, and that nobody sleeps who could get in. */
  lemma EntersIff(steps: seq<Step>, i: nat)
    requires i < |Run(steps).threads|
    ensures var ts, next := Run(steps).threads, Apply(Run(steps), Turn(i)).threads;
      && (ts[i] == AskingRead(false) ==>
            (next[i].Reading? <==> NobodyWrites(ts) && |ReadingThreads(ts)| < 0x7fff_fffe))
      && (ts[i] == AskingWrite(false) ==>
            (next[i].Writing? <==> NobodyWrites(ts) && ReadingThreads(ts) == {}))
      && (ts[i] == AskingRead(true) ==> !NobodyWrites(ts) || |ReadingThreads(ts)| == 0x7fff_fffe)
      && (ts[i] == AskingWrite(true) ==> !NobodyWrites(ts) || ReadingThreads(ts) != {})
  {
    hide Run, Readers, Writers, NobodyWrites, ReadingThreads;
    LockIsSafe(steps);
    var s := Run(steps);
    WhoIsInside(s);
    if s.threads[i] == AskingRead(false) {
      ReaderEntersIff(s, i);
    } else if s.threads[i] == AskingWrite(false) {
      WriterEntersIff(s, i);
    }
  }

  lemma RunOneMore(steps: seq<Step>, step: Step)
    ensures Run(steps + [step]) == Apply(Run(steps), step)
  {
    hide Apply;
    assert (steps + [step])[..|steps|] == steps;
  }

  function Many(n: nat): (ts: Threads)
    ensures |ts| == n && forall i | 0 <= i < n :: ts[i] == Reading
  {
    seq(n, i => Reading)
  }

  lemma {:induction false} AllRead(ts: Threads)
    requires forall i | 0 <= i < |ts| :: ts[i].Reading?
    ensures Readers(ts) == |ts|
    decreases |ts|
  {
    if ts != [] {
      AllRead(ts[..|ts| - 1]);
    }
  }

  /** Readers do not keep each other out: as many as the count can hold are inside together in some run. */
  lemma {:induction false} ReadersShare(n: nat) returns (steps: seq<Step>)
    requires n <= 0x7fff_fffe
    ensures Run(steps).threads == Many(n)
    decreases n
  {
    hide Run, Inv, Apply, Readers;
    steps := [];
    if n == 0 {
      StartsEmpty();
    } else {
      steps := ReadersShare(n - 1);
      var s := Run(steps);
      LockIsSafe(steps);
      AllRead(s.threads);
      OneMoreReader(s, n - 1);
      RunOneMore(steps, Spawn);
      RunOneMore(steps + [Spawn], AskRead(n - 1));
      RunOneMore(steps + [Spawn] + [AskRead(n - 1)], Turn(n - 1));
      steps := steps + [Spawn] + [AskRead(n - 1)] + [Turn(n - 1)];
      assert Many(n - 1) + [Reading] == Many(n);
    }
  }

  lemma StartsEmpty()
    ensures Run([]).threads == Many(0)
  {
  }

  lemma OneMoreReader(s: State, n: nat)
    requires Inv(s) && |s.threads| == n < 0x7fff_fffe && Readers(s.threads) == n && forall i | 0 <= i < n :: s.threads[i].Reading?
    ensures Apply(Apply(Apply(s, Spawn), AskRead(n)), Turn(n)).threads == s.threads + [Reading]
  {
    hide Readers, Writers;
    NoWriters(s.threads);
  }

  /** A writer is inside, a reader falls asleep, wakes up for no reason and sleeps again; when the writer leaves it is woken,
      and gets in. */
  lemma SleeperIsWoken()
    ensures var steps := [Spawn, Spawn, AskWrite(0), AskRead(1), Turn(0), Turn(1)];
      && Run(steps).threads == [Writing, AskingRead(true)]
      && Run(steps + [SpuriousWakeUp(1)]).threads == [Writing, AskingRead(false)]
      && Run(steps + [SpuriousWakeUp(1)] + [Turn(1)]).threads == [Writing, AskingRead(true)]
      && Run(steps + [SpuriousWakeUp(1)] + [Turn(1)] + [LeaveWrite(0)]).threads == [Outside, AskingRead(false)]
      && Run(steps + [SpuriousWakeUp(1)] + [Turn(1)] + [LeaveWrite(0)] + [Turn(1)]).threads == [Outside, Reading]
  {
    hide Run;
    var none: seq<Step> := [];
    NobodyYet();
    RunOneMore(none, Spawn);
    RunOneMore(none + [Spawn], Spawn);
    var two := none + [Spawn] + [Spawn];
    RunOneMore(two, AskWrite(0));
    RunOneMore(two + [AskWrite(0)], AskRead(1));
    RunOneMore(two + [AskWrite(0)] + [AskRead(1)], Turn(0));
    RunOneMore(two + [AskWrite(0)] + [AskRead(1)] + [Turn(0)], Turn(1));
    var steps := two + [AskWrite(0)] + [AskRead(1)] + [Turn(0)] + [Turn(1)];
    assert steps == [Spawn, Spawn, AskWrite(0), AskRead(1), Turn(0), Turn(1)];
    RunOneMore(steps, SpuriousWakeUp(1));
    RunOneMore(steps + [SpuriousWakeUp(1)], Turn(1));
    RunOneMore(steps + [SpuriousWakeUp(1)] + [Turn(1)], LeaveWrite(0));
    RunOneMore(steps + [SpuriousWakeUp(1)] + [Turn(1)] + [LeaveWrite(0)], Turn(1));
  }

  lemma NobodyYet()
    ensures Run([]) == State(0, [], false)
  {
  }

  // ----- everybody can get in -----

  predicate Inside(ph: Phase) {
    ph.Reading? || ph.Writing?
  }

  predicate Asks(ph: Phase) {
    ph.AskingRead? || ph.AskingWrite?
  }

  /** A step with which a thread gives the lock back. */
  predicate Leaves(step: Step) {
    step.LeaveRead? || step.LeaveWrite?
  }

  /** When those that are inside have left, everybody else asks, sleeps or stays away as before, only that
      nobody sleeps any more. */
  lemma {:induction false} AllLeave(steps: seq<Step>, i: nat) returns (more: seq<Step>)
    requires i < |Run(steps).threads| && Asks(Run(steps).threads[i])
    ensures forall k | 0 <= k < |more| :: Leaves(more[k])
    ensures var ts, ts' := Run(steps).threads, Run(steps + more).threads;
      && |ts'| == |ts| && (forall j | 0 <= j < |ts| :: !Inside(ts'[j]))
      && ts'[i].AskingRead? == ts[i].AskingRead? && Asks(ts'[i])
    decreases Readers(Run(steps).threads) + Writers(Run(steps).threads)
  {
    hide Run, Inv, Apply, Readers, Writers;
    var s := Run(steps);
    more := [];
    assert steps + more == steps;
    if j :| 0 <= j < |s.threads| && Inside(s.threads[j]) {
      var step := if s.threads[j].Reading? then LeaveRead(j) else LeaveWrite(j);
      LockIsSafe(steps);
      OneLeaves(s, j);
      RunOneMore(steps, step);
      more := AllLeave(steps + [step], i);
      assert steps + [step] + more == steps + ([step] + more);
      more := [step] + more;
    }
  }

  lemma OneLeaves(s: State, j: nat)
    requires Inv(s) && j < |s.threads| && Inside(s.threads[j])
    ensures var t := Apply(s, if s.threads[j].Reading? then LeaveRead(j) else LeaveWrite(j));
      && t.threads == Woken(s.threads[j := Outside])
      && Readers(t.threads) + Writers(t.threads) < Readers(s.threads) + Writers(s.threads)
  {
    hide Readers, Writers;
    CountedIsThere(s.threads, j);
    CountsUpdate(s.threads, j, Outside);
    WokenCounts(s.threads[j := Outside]);
  }

  /** No thread is shut out for good: from every reachable state it gets what it asks for when those inside
      leave and it takes one turn. */
  lemma EverybodyCanGetIn(steps: seq<Step>, i: nat) returns (more: seq<Step>)
    requires i < |Run(steps).threads| && Asks(Run(steps).threads[i])
    ensures forall k | 0 <= k < |more| :: Leaves(more[k])
    ensures var ts := Run(steps + more + [Turn(i)]).threads;
      |ts| == |Run(steps).threads| && ts[i] == if Run(steps).threads[i].AskingRead? then Reading else Writing
  {
    hide Run, Inv, Apply, Readers, Writers;
    more := AllLeave(steps, i);
    var s := Run(steps + more);
    LockIsSafe(steps + more);
    EmptyLock(s, i);
    RunOneMore(steps + more, Turn(i));
  }

  lemma EmptyLock(s: State, i: nat)
    requires Inv(s) && i < |s.threads| && Asks(s.threads[i]) && forall j | 0 <= j < |s.threads| :: !Inside(s.threads[j])
    ensures Apply(s, Turn(i)).threads == s.threads[i := if s.threads[i].AskingRead? then Reading else Writing]
  {
    hide Readers, Writers;
    WhoIsInside(s);
  }

  // ----- the code -----

  /** The lock.  Each method is one turn of a thread that holds the mutex. */
  class Lock {
    var useState: int
    ghost var threads: Threads

    ghost function Now(): State
      reads this
    {
      State(useState, threads, false)
    }

    /** init_lock. */
    constructor ()
      ensures Inv(Now()) && threads == []
    {
      useState, threads := 0, [];
    }

    /** A turn of the loop of acquire_readlock, by a thread that asks and is awake. */
    method ReadTurn(ghost i: nat) returns (entered: bool)
      requires Inv(Now()) && i < |threads| && threads[i] == AskingRead(false)
      modifies this
      ensures Now() == Apply(old(Now()), Turn(i)) && Inv(Now())
      ensures entered <==> NobodyWrites(old(threads)) && |ReadingThreads(old(threads))| < 0x7fff_fffe
      ensures threads == old(threads)[i := if entered then Reading else AskingRead(true)]
    {
      hide Readers, Writers, NobodyWrites, ReadingThreads;
      StepKeeps(Now(), Turn(i));
      WhoIsInside(Now());
      if useState < 0 || useState == MAX_READERS {
        threads := threads[i := AskingRead(true)];
        return false;
      }
      useState := useState + 1;
      threads := threads[i := Reading];
      entered := true;
    }

    /** release_readlock. */
    method ReleaseRead(ghost i: nat)
      requires Inv(Now()) && i < |threads| && threads[i].Reading?
      modifies this
      ensures Now() == Apply(old(Now()), LeaveRead(i)) && Inv(Now())
      ensures ReadingThreads(threads) == ReadingThreads(old(threads)) - {i}
      ensures threads[i].Outside? && forall j | 0 <= j < |threads| ::
        threads[j] != AskingRead(true) && threads[j] != AskingWrite(true)
    {
      StepKeeps(Now(), LeaveRead(i));
      CountedIsThere(threads, i);
      assert useState > 0;
      useState := useState - 1;
      threads := Woken(threads[i := Outside]);
    }

    /** A turn of the loop of acquire_writelock. */
    method WriteTurn(ghost i: nat) returns (entered: bool)
      requires Inv(Now()) && i < |threads| && threads[i] == AskingWrite(false)
      modifies this
      ensures Now() == Apply(old(Now()), Turn(i)) && Inv(Now())
      ensures entered <==> NobodyWrites(old(threads)) && ReadingThreads(old(threads)) == {}
      ensures threads == old(threads)[i := if entered then Writing else AskingWrite(true)]
    {
      hide Readers, Writers, NobodyWrites, ReadingThreads;
      StepKeeps(Now(), Turn(i));
      WhoIsInside(Now());
      if useState != 0 {
        threads := threads[i := AskingWrite(true)];
        return false;
      }
      useState := useState - 1;
      threads := threads[i := Writing];
      entered := true;
    }

    /** release_writelock. */
    method ReleaseWrite(ghost i: nat)
      requires Inv(Now()) && i < |threads| && threads[i].Writing?
      modifies this
      ensures Now() == Apply(old(Now()), LeaveWrite(i)) && Inv(Now())
      ensures threads[i].Outside? && NobodyWrites(threads) && ReadingThreads(threads) == {}
      ensures forall j | 0 <= j < |threads| :: threads[j] != AskingRead(true) && threads[j] != AskingWrite(true)
    {
      StepKeeps(Now(), LeaveWrite(i));
      CountedIsThere(threads, i);
      assert useState == -1;
      useState := useState + 1;
      threads := Woken(threads[i := Outside]);
      WhoIsInside(Now());
    }
  }
}
