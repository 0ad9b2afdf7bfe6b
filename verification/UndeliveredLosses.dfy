/** Which appends to an undelivered file lose letters when several threads make them at once: those that
    write a header over one that they did not read. */
module UndeliveredLosses {
  import opened Bytes
  import opened Crypto
  import opened Files
  import opened LogHeader
  import opened Options
  import opened UndeliveredLog
  import opened UndeliveredThreads

  /** The user does not log in meanwhile. */
  predicate AddsOnly(run: seq<Step>) {
    forall k | 0 <= k < |run| :: !run[k].OpenLoad?
  }

  predicate WritesHeader(s: State, step: Step) {
    step.WriteHeader? && step.i < |s.jobs| && s.jobs[step.i].Noted?
  }

  /** How many headers were written. */
  function HeaderWrites(p: Primitives, auth: Block, threads: nat, run: seq<Step>): nat {
    if run == [] then 0 else
    var front := run[..|run| - 1];
    HeaderWrites(p, auth, threads, front) + if WritesHeader(Run(p, auth, threads, front), run[|run| - 1]) then 1 else 0
  }

  /** How long the file would be with all that they announce. */
  function Announced(p: Primitives, auth: Block, threads: nat, run: seq<Step>): nat {
    if run == [] then 0x30 else
    var front, step := run[..|run| - 1], run[|run| - 1];
    var s := Run(p, auth, threads, front);
    Announced(p, auth, threads, front) + if WritesHeader(s, step) then 40 + |s.jobs[step.i].m| else 0
  }

  /** A header is written that counts on from another one than it replaces. */
  predicate IsStale(s: State, step: Step) {
    WritesHeader(s, step) && (|s.file| < 0x30 || RecordCount(s.file) != s.jobs[step.i].mnum)
  }

  predicate Stale(p: Primitives, auth: Block, threads: nat, run: seq<Step>) {
    run != [] &&
    var front := run[..|run| - 1];
    Stale(p, auth, threads, front) || IsStale(Run(p, auth, threads, front), run[|run| - 1])
  }

  /** An append ends without its record: there is no MAC where it looks for one, or the message is empty. */
  predicate IsFailure(p: Primitives, auth: Block, s: State, step: Step) {
    (step.ReadMac? || step.WriteSize?) && Harms(p, auth, s, step)
  }

  predicate Failed(p: Primitives, auth: Block, threads: nat, run: seq<Step>) {
    run != [] &&
    var front := run[..|run| - 1];
    Failed(p, auth, threads, front) || IsFailure(p, auth, Run(p, auth, threads, front), run[|run| - 1])
  }

  // ----- what the header counts -----

  /** What a thread noted or computed from it, after `n` header writes that announced the length `len`. */
  predicate JobBounded(job: Job, n: nat, len: nat) {
    match job
    case Idle => true
    case Noted(_, flen, mnum) => 0x30 <= flen <= len && mnum <= n
    case Headed(_, flen, mnum) => 0x30 <= flen <= len && mnum < n
    case Chained(_, at, _) => at >= 0x30
    case Sized(_, at, _) => at >= 0x30
    case Filled(_, at, _) => at >= 0x30
    case _ => false
  }

  predicate Bounded(p: Primitives, auth: Block, s: State, n: nat, len: nat) {
    && Authentic(p, auth, s.file) && RecordCount(s.file) <= n <= len && 0x30 <= FileLength(s.file) <= len
    && s.handed == [] && (forall i | 0 <= i < |s.jobs| :: JobBounded(s.jobs[i], n, len))
  }

  /** A thread that noted as many records as there were header writes noted the header that is there. */
  predicate NotedNow(s: State, n: nat)
    requires |s.file| >= 0x30
  {
    forall i | 0 <= i < |s.jobs| && s.jobs[i].Noted? && s.jobs[i].mnum == n ::
      RecordCount(s.file) == n && FileLength(s.file) == s.jobs[i].flen
  }

  lemma SameHeader(p: Primitives, auth: Block, a: bytes, b: bytes)
    requires |a| >= 0x30 && |b| >= 0x30 && a[..0x30] == b[..0x30]
    ensures Authentic(p, auth, a) == Authentic(p, auth, b)
    ensures FileLength(a) == FileLength(b) && RecordCount(a) == RecordCount(b)
  {
    hide De64;
    assert a[..0x10] == a[..0x30][..0x10] && b[..0x10] == b[..0x30][..0x10];
    assert a[0x10..0x30] == a[..0x30][0x10..] && b[0x10..0x30] == b[..0x30][0x10..];
    assert a[..8] == a[..0x30][..8] && b[..8] == b[..0x30][..8];
    assert a[8..0x10] == a[..0x30][8..0x10] && b[8..0x10] == b[..0x30][8..0x10];
  }

  lemma BodyWrite(p: Primitives, auth: Block, file: bytes, at: nat, x: bytes)
    requires |file| >= 0x30 && at >= 0x30
    ensures var r := Overwrite(file, at, x);
      && |r| >= 0x30 && Authentic(p, auth, r) == Authentic(p, auth, file)
      && FileLength(r) == FileLength(file) && RecordCount(r) == RecordCount(file)
  {
    hide Authentic, FileLength, RecordCount;
    assert Overwrite(file, at, x)[..0x30] == file[..0x30];
    SameHeader(p, auth, Overwrite(file, at, x), file);
  }

  lemma HeaderWrite(p: Primitives, auth: Block, file: bytes, flen: uint64, mnum: uint64)
    requires |file| >= 0x30
    ensures var r := Overwrite(file, 0, Header(p, auth, flen, mnum));
      Authentic(p, auth, r) && FileLength(r) == flen && RecordCount(r) == mnum
  {
    hide Header, Authentic, FileLength, RecordCount;
    var h := Header(p, auth, flen, mnum);
    assert Overwrite(file, 0, h)[..0x30] == h;
    HeaderFields(p, auth, flen, mnum, Overwrite(file, 0, h));
  }

  /** The state after a header is written. */
  lemma HeaderStep(p: Primitives, auth: Block, s: State, i: nat, n: nat, len: nat)
    requires Bounded(p, auth, s, n, len) && WritesHeader(s, WriteHeader(i)) && len + 40 + |s.jobs[i].m| < TWO63
    ensures var job, r := s.jobs[i], Apply(p, auth, s, WriteHeader(i));
      && Bounded(p, auth, r, n + 1, len + 40 + |job.m|) && NotedNow(r, n + 1)
      && RecordCount(r.file) == job.mnum + 1 && FileLength(r.file) == job.flen + 40 + |job.m|
  {
    hide Header, Authentic, FileLength, RecordCount, Overwrite;
    var job := s.jobs[i];
    assert JobBounded(job, n, len);
    HeaderWrite(p, auth, s.file, job.flen + 40 + |job.m|, job.mnum + 1);
  }

  lemma OtherStep(p: Primitives, auth: Block, s: State, step: Step, n: nat, len: nat)
    requires Bounded(p, auth, s, n, len) && NotedNow(s, n) && !WritesHeader(s, step) && !step.OpenLoad? && len < TWO63
    ensures var r := Apply(p, auth, s, step);
      && Bounded(p, auth, r, n, len) && NotedNow(r, n)
      && RecordCount(r.file) == RecordCount(s.file) && FileLength(r.file) == FileLength(s.file)
  {
    hide Apply, Authentic, FileLength, RecordCount, JobBounded;
    var r := Apply(p, auth, s, step);
    OtherFile(p, auth, s, step, n, len);
    OtherJob(p, auth, s, step, n, len);
    forall k | 0 <= k < |r.jobs|
      ensures JobBounded(r.jobs[k], n, len)
    {
      assert JobBounded(s.jobs[k], n, len);
    }
  }

  /** Whatever else a thread writes, it leaves the header alone. */
  lemma OtherFile(p: Primitives, auth: Block, s: State, step: Step, n: nat, len: nat)
    requires Bounded(p, auth, s, n, len) && !WritesHeader(s, step) && !step.OpenLoad?
    ensures var r := Apply(p, auth, s, step);
      && |r.file| >= 0x30 && Authentic(p, auth, r.file) && r.handed == s.handed
      && RecordCount(r.file) == RecordCount(s.file) && FileLength(r.file) == FileLength(s.file)
  {
    hide Header, Authentic, FileLength, RecordCount, Overwrite, Mac, ParseRecord, Leave, Wrap64;
    if step.i < |s.jobs| {
      var job := s.jobs[step.i];
      assert JobBounded(job, n, len);
      match job
      case Chained(m, at, _) => BodyWrite(p, auth, s.file, at, Be64(Wrap64(|m|)));
      case Sized(m, at, _) => BodyWrite(p, auth, s.file, at + 8, m);
      case Filled(m, at, prev) => BodyWrite(p, auth, s.file, at + 8 + |m|, Mac(p, auth, prev, m));
      case _ =>
    }
  }

  lemma OtherJob(p: Primitives, auth: Block, s: State, step: Step, n: nat, len: nat)
    requires Bounded(p, auth, s, n, len) && !WritesHeader(s, step) && !step.OpenLoad? && len < TWO63
    ensures var r := Apply(p, auth, s, step);
      && |r.jobs| == |s.jobs| && (forall k | 0 <= k < |s.jobs| && k != step.i :: r.jobs[k] == s.jobs[k])
      && (step.i < |s.jobs| ==>
            && JobBounded(r.jobs[step.i], n, len)
            && (r.jobs[step.i].Noted? ==>
                  r.jobs[step.i] == s.jobs[step.i]
                  || (r.jobs[step.i].mnum == RecordCount(s.file) && r.jobs[step.i].flen == FileLength(s.file))))
  {
    hide Header, Authentic, FileLength, RecordCount, Overwrite, Mac, ParseRecord, Leave;
    if step.i < |s.jobs| {
      assert JobBounded(s.jobs[step.i], n, len);
    }
  }

  lemma StartBounded(p: Primitives, auth: Block, threads: nat)
    ensures var s := Start(p, auth, threads);
      Bounded(p, auth, s, 0, 0x30) && NotedNow(s, 0) && RecordCount(s.file) == 0 && FileLength(s.file) == 0x30
  {
    hide Image;
    ImageFields(p, auth, 0x30, Image(p, auth, 0x30, []), []);
  }

  lemma FrontFits(p: Primitives, auth: Block, threads: nat, run: seq<Step>)
    requires run != [] && AddsOnly(run)
    ensures AddsOnly(run[..|run| - 1]) && !run[|run| - 1].OpenLoad?
    ensures Announced(p, auth, threads, run[..|run| - 1]) <= Announced(p, auth, threads, run)
  {
    hide Run;
  }

  /** The header counts all of the header writes if and only if none was stale. */
  lemma {:induction false} CountsAllIffNotStale(p: Primitives, auth: Block, threads: nat, run: seq<Step>)
    requires AddsOnly(run) && Announced(p, auth, threads, run) < TWO63
    ensures var s, n := Run(p, auth, threads, run), HeaderWrites(p, auth, threads, run);
      && Bounded(p, auth, s, n, Announced(p, auth, threads, run)) && NotedNow(s, n)
      && (RecordCount(s.file) == n <==> !Stale(p, auth, threads, run))
  {
    hide Apply, Bounded, NotedNow, RecordCount, FileLength, JobBounded;
    if run == [] {
      StartBounded(p, auth, threads);
    } else {
      var front, step := run[..|run| - 1], run[|run| - 1];
      FrontFits(p, auth, threads, run);
      CountsAllIffNotStale(p, auth, threads, front);
      var s, n, len := Run(p, auth, threads, front), HeaderWrites(p, auth, threads, front), Announced(p, auth, threads, front);
      if WritesHeader(s, step) {
        HeaderStep(p, auth, s, step.i, n, len);
        NoteOfCount(p, auth, s, step.i, n, len);
      } else {
        OtherStep(p, auth, s, step, n, len);
      }
    }
  }

  lemma NoteOfCount(p: Primitives, auth: Block, s: State, i: nat, n: nat, len: nat)
    requires Bounded(p, auth, s, n, len) && NotedNow(s, n) && WritesHeader(s, WriteHeader(i))
    ensures s.jobs[i].mnum <= n && RecordCount(s.file) <= n && |s.file| >= 0x30
    ensures s.jobs[i].mnum == n ==> RecordCount(s.file) == n && FileLength(s.file) == s.jobs[i].flen
  {
    hide RecordCount, FileLength, Authentic;
    assert JobBounded(s.jobs[i], n, len);
  }

  // ----- what was completed -----

  lemma {:induction false} LeaveOnce(queue: seq<nat>, i: nat)
    requires i in queue
    ensures |Leave(queue, i)| == |queue| - 1
    ensures forall k | k in queue && k != i :: k in Leave(queue, i)
  {
    if queue[0] != i {
      LeaveOnce(queue[1..], i);
    }
  }

  /** Who is writing is in the queue. */
  predicate WritersQueued(s: State) {
    forall i | 0 <= i < |s.jobs| && Writing(s.jobs[i]) :: i in s.queue
  }

  /** Every header write is followed by one append completed or under way, or one that failed. */
  lemma CountedStep(p: Primitives, auth: Block, s: State, step: Step)
    requires WritersQueued(s) && !step.OpenLoad? && forall i | 0 <= i < |s.jobs| :: !s.jobs[i].Loading? && !s.jobs[i].Emptied?
    ensures var r := Apply(p, auth, s, step);
      var more := if WritesHeader(s, step) then 1 else if IsFailure(p, auth, s, step) then -1 else 0;
      WritersQueued(r) && |r.added| + |r.queue| == |s.added| + |s.queue| + more
  {
    hide Header, Authentic, FileLength, RecordCount, Overwrite, Mac, ParseRecord, Leave;
    if step.i < |s.jobs| && Writing(s.jobs[step.i]) {
      LeaveOnce(s.queue, step.i);
    }
  }

  lemma NobodyLoads(p: Primitives, auth: Block, s: State, n: nat, len: nat)
    requires Bounded(p, auth, s, n, len)
    ensures forall i | 0 <= i < |s.jobs| :: !s.jobs[i].Loading? && !s.jobs[i].Emptied?
  {
    hide Authentic, RecordCount, FileLength;
    forall i | 0 <= i < |s.jobs|
      ensures !s.jobs[i].Loading? && !s.jobs[i].Emptied?
    {
      assert JobBounded(s.jobs[i], n, len);
    }
  }

  lemma {:induction false} Accounted(p: Primitives, auth: Block, threads: nat, run: seq<Step>)
    requires AddsOnly(run) && Announced(p, auth, threads, run) < TWO63
    ensures var s, n := Run(p, auth, threads, run), HeaderWrites(p, auth, threads, run);
      WritersQueued(s) && |s.added| + |s.queue| + (if Failed(p, auth, threads, run) then 1 else 0) <= n
  {
    hide Apply, Bounded, NotedNow, RecordCount, Harms, WritersQueued;
    if run == [] {
      StartCounted(p, auth, threads);
    } else {
      var front, step := run[..|run| - 1], run[|run| - 1];
      FrontFits(p, auth, threads, run);
      Accounted(p, auth, threads, front);
      CountsAllIffNotStale(p, auth, threads, front);
      var s := Run(p, auth, threads, front);
      NobodyLoads(p, auth, s, HeaderWrites(p, auth, threads, front), Announced(p, auth, threads, front));
      CountedStep(p, auth, s, step);
    }
  }

  lemma StartCounted(p: Primitives, auth: Block, threads: nat)
    ensures var s := Start(p, auth, threads); WritersQueued(s) && s.added == [] && s.queue == []
  {
    hide Canonical;
  }

  /** While no header is stale and no append fails, nothing does harm. */
  lemma {:induction false} UnharmedUnlessStale(p: Primitives, auth: Block, threads: nat, run: seq<Step>)
    requires AddsOnly(run) && Announced(p, auth, threads, run) < TWO63
    requires !Stale(p, auth, threads, run) && !Failed(p, auth, threads, run)
    ensures !Harmed(p, auth, threads, run)
  {
    hide Run, Bounded, NotedNow, RecordCount, Harms, IsFailure, IsStale;
    if run != [] {
      var front, step := run[..|run| - 1], run[|run| - 1];
      FrontFits(p, auth, threads, run);
      UnharmedUnlessStale(p, auth, threads, front);
      CountsAllIffNotStale(p, auth, threads, front);
      var s, n, len := Run(p, auth, threads, front), HeaderWrites(p, auth, threads, front), Announced(p, auth, threads, front);
      UnharmedStep(p, auth, s, step, n, len);
    }
  }

  lemma UnharmedStep(p: Primitives, auth: Block, s: State, step: Step, n: nat, len: nat)
    requires Bounded(p, auth, s, n, len) && NotedNow(s, n) && RecordCount(s.file) == n && len < TWO63
    requires WritesHeader(s, step) ==> len + 40 + |s.jobs[step.i].m| < TWO63
    requires !IsStale(s, step) && !IsFailure(p, auth, s, step)
    ensures !Harms(p, auth, s, step)
  {
    hide Bounded, NotedNow, RecordCount, FileLength, Authentic, Load;
    NobodyLoads(p, auth, s, n, len);
    if WritesHeader(s, step) {
      NoteOfCount(p, auth, s, step.i, n, len);
      HeaderIsThere(p, auth, s, step.i, n, len);
    }
  }

  lemma HeaderIsThere(p: Primitives, auth: Block, s: State, i: nat, n: nat, len: nat)
    requires Bounded(p, auth, s, n, len) && i < |s.jobs| && s.jobs[i].Noted?
    ensures Authentic(p, auth, s.file) && s.jobs[i].flen <= len
  {
    hide RecordCount, FileLength, Authentic;
    assert JobBounded(s.jobs[i], n, len);
  }

  // ----- what is lost -----

  /** Whatever order the threads take their steps in: when all appends that wrote a header were completed, the
      file loads as what they appended if and only if no header was stale. */
  lemma CompletedLoadIffNotStale(p: Primitives, auth: Block, threads: nat, run: seq<Step>)
    requires AddsOnly(run) && Announced(p, auth, threads, run) < TWO63
    requires |Run(p, auth, threads, run).added| == HeaderWrites(p, auth, threads, run)
    ensures var s := Run(p, auth, threads, run); Load(p, auth, s.file) == Some(s.added) <==> !Stale(p, auth, threads, run)
  {
    hide Run, Bounded, NotedNow, Load, Harmed, Canonical;
    var s, n := Run(p, auth, threads, run), HeaderWrites(p, auth, threads, run);
    CountsAllIffNotStale(p, auth, threads, run);
    Accounted(p, auth, threads, run);
    if Stale(p, auth, threads, run) {
      FewerLoad(p, auth, s.file);
    } else {
      UnharmedUnlessStale(p, auth, threads, run);
      NobodyLoads(p, auth, s, n, Announced(p, auth, threads, run));
      NothingLostUnlessHarmed(p, auth, threads, run);
      NothingHanded(p, auth, s, n, Announced(p, auth, threads, run));
    }
  }

  lemma NothingHanded(p: Primitives, auth: Block, s: State, n: nat, len: nat)
    requires Bounded(p, auth, s, n, len)
    ensures s.handed == [] && Waiting(s) == s.added
  {
    hide RecordCount, FileLength, Authentic, JobBounded;
  }

  lemma FewerLoad(p: Primitives, auth: Block, file: bytes)
    ensures Load(p, auth, file).Some? ==> |file| >= 0x30 && |Load(p, auth, file).value| == RecordCount(file)
  {
    hide ParseRecords, RecordCount, Authentic;
    if Authentic(p, auth, file) && ParseRecords(p, auth, INITIAL_MAC, RecordCount(file), file[0x30..]).Some? {
      ParsedAreRecords(p, auth, INITIAL_MAC, RecordCount(file), file[0x30..]);
    }
  }

  /** After a stale header the file never again loads as as many letters as headers were written: once all
      appends are completed, letters are gone, or the whole file is refused. */
  lemma StaleLosesLetters(p: Primitives, auth: Block, threads: nat, run: seq<Step>, ms: Messages)
    requires AddsOnly(run) && Announced(p, auth, threads, run) < TWO63 && Stale(p, auth, threads, run)
    requires Load(p, auth, Run(p, auth, threads, run).file) == Some(ms)
    ensures |ms| < HeaderWrites(p, auth, threads, run)
  {
    hide Run, Bounded, NotedNow, Load;
    CountsAllIffNotStale(p, auth, threads, run);
    BoundedCount(p, auth, Run(p, auth, threads, run), HeaderWrites(p, auth, threads, run), Announced(p, auth, threads, run));
    FewerLoad(p, auth, Run(p, auth, threads, run).file);
  }

  lemma BoundedCount(p: Primitives, auth: Block, s: State, n: nat, len: nat)
    requires Bounded(p, auth, s, n, len)
    ensures RecordCount(s.file) <= n
  {
    hide RecordCount, FileLength, Authentic, JobBounded;
  }

  // ----- two threads that read the same header -----

  predicate NoStepOf(run: seq<Step>, i: nat) {
    forall k | 0 <= k < |run| :: run[k].i != i
  }

  lemma {:induction false} Undisturbed(p: Primitives, auth: Block, threads: nat, run: seq<Step>, more: seq<Step>, i: nat)
    requires NoStepOf(more, i) && i < |Run(p, auth, threads, run).jobs|
    ensures var s, r := Run(p, auth, threads, run), Run(p, auth, threads, run + more);
      |r.jobs| == |s.jobs| && r.jobs[i] == s.jobs[i]
    ensures HeaderWrites(p, auth, threads, run) <= HeaderWrites(p, auth, threads, run + more)
    ensures Stale(p, auth, threads, run) ==> Stale(p, auth, threads, run + more)
    decreases |more|
  {
    hide Apply, WritesHeader, IsStale;
    if more == [] {
      assert run + more == run;
    } else {
      var front, step := more[..|more| - 1], more[|more| - 1];
      Undisturbed(p, auth, threads, run, front, i);
      assert (run + more)[..|run + more| - 1] == run + front;
      OthersStay(p, auth, Run(p, auth, threads, run + front), step, i);
    }
  }

  lemma OthersStay(p: Primitives, auth: Block, s: State, step: Step, i: nat)
    requires step.i != i && i < |s.jobs|
    ensures var r := Apply(p, auth, s, step); |r.jobs| == |s.jobs| && r.jobs[i] == s.jobs[i]
  {
    hide Header, Authentic, FileLength, RecordCount, Overwrite, Mac, ParseRecord, Leave, Wrap64;
  }

  /** Two threads read a header, then both write one, and in between anybody does anything: the second writes
      a stale one, or there was one before. */
  lemma SecondWriterIsStale(p: Primitives, auth: Block, threads: nat, run: seq<Step>, i: nat, more: seq<Step>, j: nat)
    requires var s := Run(p, auth, threads, run);
      && WritesHeader(s, WriteHeader(i)) && WritesHeader(s, WriteHeader(j)) && i != j && NoStepOf(more, j)
    requires var all := run + [WriteHeader(i)] + more + [WriteHeader(j)];
      AddsOnly(all) && Announced(p, auth, threads, all) < TWO63
    ensures Stale(p, auth, threads, run + [WriteHeader(i)] + more + [WriteHeader(j)])
  {
    hide Run, Bounded, NotedNow, RecordCount, Apply;
    var s, r1 := Run(p, auth, threads, run), run + [WriteHeader(i)];
    var r2 := r1 + more;
    var all := r2 + [WriteHeader(j)];
    assert r1[..|r1| - 1] == run && all[..|all| - 1] == r2 && r2[..|r1|] == r1;
    FrontFits(p, auth, threads, all);
    FitsUpTo(p, auth, threads, r1, more);
    FrontFits(p, auth, threads, r1);
    CountsAllIffNotStale(p, auth, threads, run);
    NoteOfCount(p, auth, s, j, HeaderWrites(p, auth, threads, run), Announced(p, auth, threads, run));
    RunOneMore(p, auth, threads, run, WriteHeader(i));
    OthersStay(p, auth, s, WriteHeader(i), j);
    Undisturbed(p, auth, threads, r1, more, j);
    CountsAllIffNotStale(p, auth, threads, r2);
    NoteOfCount(p, auth, Run(p, auth, threads, r2), j, HeaderWrites(p, auth, threads, r2), Announced(p, auth, threads, r2));
  }

  lemma {:induction false} FitsUpTo(p: Primitives, auth: Block, threads: nat, run: seq<Step>, more: seq<Step>)
    requires AddsOnly(run + more)
    ensures AddsOnly(run) && Announced(p, auth, threads, run) <= Announced(p, auth, threads, run + more)
    decreases |more|
  {
    hide Run;
    if more == [] {
      assert run + more == run;
    } else {
      var front := more[..|more| - 1];
      assert (run + more)[..|run + more| - 1] == run + front;
      FrontFits(p, auth, threads, run + more);
      FitsUpTo(p, auth, threads, run, front);
    }
  }

  // ----- two runs -----

  /** Both threads read the header of the empty log, one appends its letter, then the other one does. */
  function BothAdd(m1: bytes, m2: bytes): seq<Step> {
    [ReadHeader(0, m1), ReadHeader(1, m2)]
    + [WriteHeader(0), ReadMac(0), WriteSize(0), WriteText(0), WriteMac(0)]
    + [WriteHeader(1), ReadMac(1), WriteSize(1), WriteText(1), WriteMac(1)]
  }

  /** The rest of an append whose header was read. */
  function AfterNote(p: Primitives, auth: Block, s: State, i: nat): State {
    var s2 := Apply(p, auth, s, WriteHeader(i));
    var s3 := Apply(p, auth, s2, ReadMac(i));
    var s4 := Apply(p, auth, s3, WriteSize(i));
    var s5 := Apply(p, auth, s4, WriteText(i));
    Apply(p, auth, s5, WriteMac(i))
  }

  lemma BothAddRuns(p: Primitives, auth: Block, m1: bytes, m2: bytes)
    ensures var s0 := Start(p, auth, 2);
      var s1 := Apply(p, auth, Apply(p, auth, s0, ReadHeader(0, m1)), ReadHeader(1, m2));
      Run(p, auth, 2, BothAdd(m1, m2)) == AfterNote(p, auth, AfterNote(p, auth, s1, 0), 1)
  {
    hide Apply, Start;
    var r0: seq<Step> := [];
    assert Run(p, auth, 2, r0) == Start(p, auth, 2);
    RunTwoMore(p, auth, r0, ReadHeader(0, m1), ReadHeader(1, m2));
    var r1 := r0 + [ReadHeader(0, m1), ReadHeader(1, m2)];
    RunRest(p, auth, r1, 0);
    var r2 := r1 + [WriteHeader(0), ReadMac(0), WriteSize(0), WriteText(0), WriteMac(0)];
    RunRest(p, auth, r2, 1);
    assert BothAdd(m1, m2) == r2 + [WriteHeader(1), ReadMac(1), WriteSize(1), WriteText(1), WriteMac(1)];
  }

  lemma RunTwoMore(p: Primitives, auth: Block, run: seq<Step>, a: Step, b: Step)
    ensures Run(p, auth, 2, run + [a, b]) == Apply(p, auth, Apply(p, auth, Run(p, auth, 2, run), a), b)
  {
    hide Apply, Run;
    RunOneMore(p, auth, 2, run, a);
    RunOneMore(p, auth, 2, run + [a], b);
    assert run + [a, b] == run + [a] + [b];
  }

  lemma RunRest(p: Primitives, auth: Block, run: seq<Step>, i: nat)
    ensures Run(p, auth, 2, run + [WriteHeader(i), ReadMac(i), WriteSize(i), WriteText(i), WriteMac(i)])
         == AfterNote(p, auth, Run(p, auth, 2, run), i)
  {
    hide Apply, Run;
    RunTwoMore(p, auth, run, WriteHeader(i), ReadMac(i));
    var r := run + [WriteHeader(i), ReadMac(i)];
    RunTwoMore(p, auth, r, WriteSize(i), WriteText(i));
    RunOneMore(p, auth, 2, r + [WriteSize(i), WriteText(i)], WriteMac(i));
    assert run + [WriteHeader(i), ReadMac(i), WriteSize(i), WriteText(i), WriteMac(i)]
        == r + [WriteSize(i), WriteText(i)] + [WriteMac(i)];
  }

  /** What an append does that found the log empty when it read the header. */
  lemma RestOnEmpty(p: Primitives, auth: Block, s: State, i: nat, m: bytes)
    requires i < |s.jobs| && s.jobs[i] == Noted(m, 0x30, 0) && i !in s.queue && |s.file| >= 0x30
    requires m != [] && 0x30 + 40 + |m| < TWO63
    ensures AfterNote(p, auth, s, i) ==
      s.(jobs := s.jobs[i := Idle], added := s.added + [m],
         file := Overwrite(Overwrite(s.file, 0, Header(p, auth, 0x58 + |m|, 1)), 0x30, Record(p, auth, INITIAL_MAC, m)))
  {
    hide Apply, Overwrite, Mac, Leave, Header, RecordStages;
    LeaveJoined(s.queue, i);
    var h := Header(p, auth, 0x58 + |m|, 1);
    var d1 := Overwrite(s.file, 0, h);
    var s2 := WithJob(s.(file := d1, queue := s.queue + [i]), i, Headed(m, 0x30, 0));
    HeaderOnEmpty(p, auth, s, i, m);
    var s3 := WithJob(s2, i, Chained(m, 0x30, INITIAL_MAC));
    MacFound(p, auth, s2, i, s3);
    RecordAtOnce(p, auth, s3, i, m, 0x30, INITIAL_MAC);
    RecordStagesOverwrite(p, auth, d1, 0x30, INITIAL_MAC, m);
  }

  lemma HeaderOnEmpty(p: Primitives, auth: Block, s: State, i: nat, m: bytes)
    requires i < |s.jobs| && s.jobs[i] == Noted(m, 0x30, 0) && 0x30 + 40 + |m| < TWO63
    ensures Apply(p, auth, s, WriteHeader(i)) ==
      WithJob(s.(file := Overwrite(s.file, 0, Header(p, auth, 0x58 + |m|, 1)), queue := s.queue + [i]), i, Headed(m, 0x30, 0))
  {
    hide Header, Overwrite;
  }

  lemma RecordStagesOverwrite(p: Primitives, auth: Block, d1: bytes, at: nat, prev: Block, m: bytes)
    requires m != [] && at <= |d1|
    ensures RecordStages(p, auth, d1, at, prev, m)[3] == Overwrite(d1, at, Record(p, auth, prev, m))
  {
    hide Mac, Wrap64, Overwrite;
    var l, mac := Be64(Wrap64(|m|)), Mac(p, auth, prev, m);
    OverwriteTwice(d1, at, l, m);
    OverwriteTwice(d1, at, l + m, mac);
  }

  /** A file that begins with this header and this record holds this letter. */
  lemma OneRecordLoads(p: Primitives, auth: Block, file: bytes, m: bytes)
    requires m != [] && 0x30 + 40 + |m| < TWO63 && |file| >= 0x30
    ensures Load(p, auth, Overwrite(Overwrite(file, 0, Header(p, auth, 0x58 + |m|, 1)), 0x30, Record(p, auth, INITIAL_MAC, m)))
         == Some([m])
  {
    hide Header, Overwrite, Record, Load, LastMac;
    var h, r := Header(p, auth, 0x58 + |m|, 1), Record(p, auth, INITIAL_MAC, m);
    var d1 := Overwrite(file, 0, h);
    var d2 := Overwrite(d1, 0x30, r);
    assert d1[..0x30] == h;
    assert d2[..0x30] == d1[..0x30] && d2[0x30..0x30 + |r|] == r;
    Snoc(p, auth, INITIAL_MAC, [], m);
    NoMac(p, auth);
    assert [] + [m] == [m];
    assert Records(p, auth, INITIAL_MAC, [m]) == r;
    assert Image(p, auth, 0x58 + |m|, [m]) == h + r;
    assert d2[..0x30 + |r|] == h + r;
    ImageIsLoaded(p, auth, 0x58 + |m|, d2, [m]);
  }

  /** Two letters for one user: both appends succeed, and the one that was first is gone. */
  lemma TwoAppendsLoseOne(p: Primitives, auth: Block, m1: bytes, m2: bytes)
    requires m1 != [] && m2 != [] && 0x30 + 40 + |m1| < TWO63 && 0x30 + 40 + |m2| < TWO63
    ensures var s := Run(p, auth, 2, BothAdd(m1, m2)); s.added == [m1, m2] && Load(p, auth, s.file) == Some([m2])
  {
    hide Apply, Overwrite, Header, Record, Load, Run, AfterNote, BothAdd;
    BothAddRuns(p, auth, m1, m2);
    var s1 := BothNoted(p, auth, m1, m2);
    RestOnEmpty(p, auth, s1, 0, m1);
    var s2 := AfterNote(p, auth, s1, 0);
    RestOnEmpty(p, auth, s2, 1, m2);
    OneRecordLoads(p, auth, s2.file, m2);
  }

  lemma BothNoted(p: Primitives, auth: Block, m1: bytes, m2: bytes) returns (s: State)
    requires |m1| < TWO64 && |m2| < TWO64
    ensures s == Apply(p, auth, Apply(p, auth, Start(p, auth, 2), ReadHeader(0, m1)), ReadHeader(1, m2))
    ensures |s.file| >= 0x30 && s.jobs == [Noted(m1, 0x30, 0), Noted(m2, 0x30, 0)] && s.queue == [] && s.added == []
  {
    hide Image, Authentic, FileLength, RecordCount;
    var s0 := Start(p, auth, 2);
    ImageFields(p, auth, 0x30, Image(p, auth, 0x30, []), []);
    s := Apply(p, auth, Apply(p, auth, s0, ReadHeader(0, m1)), ReadHeader(1, m2));
    assert s.jobs == [Noted(m1, 0x30, 0), Noted(m2, 0x30, 0)];
  }

  /** The user logs in and has read the empty log when somebody appends a letter. */
  function AddDuringLoad(m: bytes): seq<Step> {
    [OpenLoad(0)] + Adding(1, m) + [Truncate(0), Restart(0)]
  }

  /** The append succeeds, the letter is not handed over, and the file is emptied. */
  lemma LoadWipesAppend(p: Primitives, auth: Block, m: bytes)
    requires m != [] && 0x30 + 40 + |m| < TWO63
    ensures var s := Run(p, auth, 2, AddDuringLoad(m));
      s.added == [m] && s.handed == [] && s.file == Canonical(p, auth, []) && AtRest(s)
  {
    hide Run, Apply, Canonical, Adding, AfterAdding, AfterAdd, AddStages;
    var r1: seq<Step> := [OpenLoad(0)];
    var r2 := r1 + Adding(1, m);
    var r3 := r2 + [Truncate(0)];
    assert AddDuringLoad(m) == r3 + [Restart(0)];
    RunOneMore(p, auth, 2, [], OpenLoad(0));
    assert [] + [OpenLoad(0)] == r1;
    var s1 := OpenedEmpty(p, auth);
    assert Run(p, auth, 2, []) == Start(p, auth, 2) by {
      StartRun(p, auth);
    }
    AddingRuns(p, auth, 2, r1, 1, m);
    AddingIsOneStep(p, auth, s1, 1, m);
    AddExtendsCanonical(p, auth, [], m);
    var s2 := s1.(file := AfterAdd(p, auth, s1.file, m), added := [m]);
    assert Run(p, auth, 2, r2) == s2;
    RunOneMore(p, auth, 2, r2, Truncate(0));
    RunOneMore(p, auth, 2, r3, Restart(0));
    WipesFile(p, auth, s2);
  }

  lemma StartRun(p: Primitives, auth: Block)
    ensures Run(p, auth, 2, []) == Start(p, auth, 2)
  {
    hide Start;
  }

  lemma OpenedEmpty(p: Primitives, auth: Block) returns (s: State)
    ensures s == Apply(p, auth, Start(p, auth, 2), OpenLoad(0))
    ensures s.file == Canonical(p, auth, []) && s.jobs == [Loading(0, 0x30, INITIAL_MAC, []), Idle]
    ensures s.queue == [] && s.added == [] && s.handed == []
  {
    hide Image, Authentic, FileLength, RecordCount;
    ImageFields(p, auth, 0x30, Image(p, auth, 0x30, []), []);
    s := Apply(p, auth, Start(p, auth, 2), OpenLoad(0));
    assert s.jobs == [Loading(0, 0x30, INITIAL_MAC, []), Idle];
  }

  lemma WipesFile(p: Primitives, auth: Block, s: State)
    requires s.jobs == [Loading(0, 0x30, INITIAL_MAC, []), Idle]
    ensures Apply(p, auth, Apply(p, auth, s, Truncate(0)), Restart(0)) ==
      s.(file := Canonical(p, auth, []), jobs := [Idle, Idle], handed := s.handed + [])
  {
    hide Canonical, Header, Overwrite;
    RestartsEmpty(p, auth);
  }
}
