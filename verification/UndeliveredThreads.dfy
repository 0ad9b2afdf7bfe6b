/** Several of the server's threads in one undelivered file with no lock around it: every read and write of
    undel_add_message and undel_load is a step of its own. */
module UndeliveredThreads {
  import opened Bytes
  import opened Crypto
  import opened Files
  import opened LogHeader
  import opened Options
  import opened UndeliveredLog

  /** How far a thread has come: with an append, which noted the header's fields, wrote a new header, read the
      last MAC and writes the three parts of a record; or with a load, which reads record after record,
      empties the file and writes a header. */
  datatype Job =
    | Idle
    | Noted(m: bytes, flen: uint64, mnum: uint64)
    | Headed(m: bytes, flen: uint64, mnum: uint64)
    | Chained(m: bytes, at: nat, prev: Block)
    | Sized(m: bytes, at: nat, prev: Block)
    | Filled(m: bytes, at: nat, prev: Block)
    | Loading(left: nat, pos: nat, prev: Block, got: Messages)
    | Emptied(got: Messages)

  /** The file and the threads, and for the record: the threads between the write of their header and their
      last write, in the order of the former, the messages whose append was completed, and those that
      completed loads gave back. */
  datatype State = State(file: bytes, jobs: seq<Job>, queue: seq<nat>, added: Messages, handed: Messages)

  datatype Step =
    | ReadHeader(i: nat, m: bytes)
    | WriteHeader(i: nat)
    | ReadMac(i: nat)
    | WriteSize(i: nat)
    | WriteText(i: nat)
    | WriteMac(i: nat)
    | OpenLoad(i: nat)
    | ReadRecord(i: nat)
    | Truncate(i: nat)
    | Restart(i: nat)

  function WithJob(s: State, i: nat, job: Job): State
    requires i < |s.jobs|
  {
    s.(jobs := s.jobs[i := job])
  }

  function Leave(queue: seq<nat>, i: nat): seq<nat> {
    if queue == [] then [] else
    if queue[0] == i then queue[1..] else [queue[0]] + Leave(queue[1..], i)
  }

  /** The thread is done with its append, whether or not it went well. */
  function Ended(s: State, i: nat): State
    requires i < |s.jobs|
  {
    WithJob(s.(queue := Leave(s.queue, i)), i, Idle)
  }

  function From(file: bytes, pos: nat): bytes {
    if pos <= |file| then file[pos..] else []
  }

  /** One step of one thread.  A step that the thread cannot take now changes nothing. */
  function Apply(p: Primitives, auth: Block, s: State, step: Step): State {
    if step.i >= |s.jobs| then s else
    var i, job, file := step.i, s.jobs[step.i], s.file;
    match step
    case ReadHeader(_, m) =>
      if job.Idle? && |m| < TWO64 && Authentic(p, auth, file) then
        WithJob(s, i, Noted(m, FileLength(file), RecordCount(file)))
      else s
    case WriteHeader(_) =>
      if job.Noted? then
        var h := Header(p, auth, Wrap64(job.flen as nat + 8 + |job.m| + 32), Wrap64(job.mnum as nat + 1));
        WithJob(s.(file := Overwrite(file, 0, h), queue := s.queue + [i]), i, Headed(job.m, job.flen, job.mnum))
      else s
    case ReadMac(_) =>
      if job.Headed? then
        var at := Wrap64(job.flen as int - 32);
        if at >= TWO63 || at + 32 > |file| then Ended(s, i)
        else WithJob(s, i, Chained(job.m, at + 32, if job.mnum == 0 then INITIAL_MAC else file[at..at + 32]))
      else s
    case WriteSize(_) =>
      if job.Chained? then
        var r := s.(file := Overwrite(file, job.at, Be64(Wrap64(|job.m|))));
        if job.m == [] then Ended(r, i) else WithJob(r, i, Sized(job.m, job.at, job.prev))
      else s
    case WriteText(_) =>
      if job.Sized? then
        WithJob(s.(file := Overwrite(file, job.at + 8, job.m)), i, Filled(job.m, job.at, job.prev))
      else s
    case WriteMac(_) =>
      if job.Filled? then
        var mac := Mac(p, auth, job.prev, job.m);
        Ended(s.(file := Overwrite(file, job.at + 8 + |job.m|, mac), added := s.added + [job.m]), i)
      else s
    case OpenLoad(_) =>
      if job.Idle? && Authentic(p, auth, file) then WithJob(s, i, Loading(RecordCount(file), 0x30, INITIAL_MAC, []))
      else s
    case ReadRecord(_) =>
      if job.Loading? && job.left > 0 then
        var rest := From(file, job.pos);
        match ParseRecord(p, auth, job.prev, rest)
        case None => WithJob(s, i, Idle)
        case Some(m) => WithJob(s, i, Loading(job.left - 1, job.pos + 40 + |m|, rest[8 + |m|..40 + |m|], job.got + [m]))
      else s
    case Truncate(_) =>
      if job.Loading? && job.left == 0 then WithJob(s.(file := []), i, Emptied(job.got)) else s
    case Restart(_) =>
      if job.Emptied? then
        WithJob(s.(file := Overwrite(file, 0, Header(p, auth, 0x30, 0)), handed := s.handed + job.got), i, Idle)
      else s
  }

  function Start(p: Primitives, auth: Block, threads: nat): State {
    State(Canonical(p, auth, []), seq(threads, _ => Idle), [], [], [])
  }

  function Run(p: Primitives, auth: Block, threads: nat, run: seq<Step>): State {
    if run == [] then Start(p, auth, threads) else
    Apply(p, auth, Run(p, auth, threads, run[..|run| - 1]), run[|run| - 1])
  }

  // ----- a file with appends under way -----

  /** The file that holds `ms`, whose header counts `qs` as well, and that ends in a part of a record. */
  function Form(p: Primitives, auth: Block, ms: Messages, qs: Messages, part: bytes): (r: bytes)
    ensures |r| == 0x30 + Length(ms) + |part|
  {
    Header(p, auth, Wrap64(0x30 + Length(ms + qs)), Wrap64(|ms + qs|)) + (Records(p, auth, INITIAL_MAC, ms) + part)
  }

  lemma FormFields(p: Primitives, auth: Block, ms: Messages, qs: Messages, part: bytes)
    requires 0x30 + Length(ms + qs) < TWO63
    ensures var file := Form(p, auth, ms, qs, part);
      && Authentic(p, auth, file) && FileLength(file) == 0x30 + Length(ms + qs) && RecordCount(file) == |ms| + |qs|
      && file[0x30..] == Records(p, auth, INITIAL_MAC, ms) + part
  {
    hide *;
    FitsWord(ms + qs);
    FormParts(p, auth, ms, qs, part);
    BehindHeader(p, auth, Wrap64(0x30 + Length(ms + qs)), Wrap64(|ms + qs|), Records(p, auth, INITIAL_MAC, ms) + part);
  }

  lemma FitsWord(ms: Messages)
    requires 0x30 + Length(ms) < TWO63
    ensures Wrap64(0x30 + Length(ms)) == 0x30 + Length(ms) && Wrap64(|ms|) == |ms|
  {
    hide Length, Wrap64;
    LengthBounds(ms);
  }

  lemma FormParts(p: Primitives, auth: Block, ms: Messages, qs: Messages, part: bytes)
    ensures Form(p, auth, ms, qs, part) ==
      Header(p, auth, Wrap64(0x30 + Length(ms + qs)), Wrap64(|ms + qs|)) + (Records(p, auth, INITIAL_MAC, ms) + part)
  {
    hide Header, Records, Wrap64, Length;
  }

  lemma NoWrap(n: nat)
    requires n < TWO63
    ensures Wrap64(n) == n
  {
  }

  lemma BehindHeader(p: Primitives, auth: Block, flen: uint64, mnum: uint64, body: bytes)
    ensures var file := Header(p, auth, flen, mnum) + body;
      Authentic(p, auth, file) && FileLength(file) == flen && RecordCount(file) == mnum && file[0x30..] == body
  {
    hide Header, FileLength, RecordCount, Authentic;
    HeaderFields(p, auth, flen, mnum, Header(p, auth, flen, mnum) + body);
  }

  lemma FormIsCanonical(p: Primitives, auth: Block, ms: Messages)
    ensures Form(p, auth, ms, [], []) == Canonical(p, auth, ms)
  {
    hide Header, Length, Records, Wrap64;
    assert ms + [] == ms && Records(p, auth, INITIAL_MAC, ms) + [] == Records(p, auth, INITIAL_MAC, ms);
  }

  lemma {:induction false} LengthSum(a: Messages, b: Messages)
    ensures Length(a + b) == Length(a) + Length(b)
    decreases |a|
  {
    if a == [] {
      assert a + b == b;
    } else {
      LengthSum(a[1..], b);
      assert (a + b)[1..] == a[1..] + b;
    }
  }

  lemma LengthOne(m: bytes)
    ensures Length([m]) == 40 + |m|
  {
  }

  /** The length that a new header states. */
  lemma OneMoreLength(ms: Messages, qs: Messages, m: bytes)
    ensures Length(ms + (qs + [m])) == Length(ms + qs) + 40 + |m|
  {
    hide Length;
    assert ms + (qs + [m]) == (ms + qs) + [m];
    LengthSum(ms + qs, [m]);
    LengthOne(m);
  }

  /** A new header counts one message more. */
  lemma FormHeader(p: Primitives, auth: Block, ms: Messages, qs: Messages, part: bytes, m: bytes, h: bytes)
    requires h == Header(p, auth, Wrap64(0x30 + Length(ms + (qs + [m]))), Wrap64(|ms + (qs + [m])|))
    ensures Overwrite(Form(p, auth, ms, qs, part), 0, h) == Form(p, auth, ms, qs + [m], part)
  {
    hide Header, Length, Records, Wrap64, Overwrite;
    var former := Header(p, auth, Wrap64(0x30 + Length(ms + qs)), Wrap64(|ms + qs|));
    var body := Records(p, auth, INITIAL_MAC, ms) + part;
    OverwriteFront(former + body, h);
    assert (former + body)[0x30..] == body;
  }

  /** What the next record is chained to. */
  lemma FormMac(p: Primitives, auth: Block, ms: Messages, qs: Messages)
    requires 0x30 + Length(ms + qs) < TWO63
    ensures var file, end := Form(p, auth, ms, qs, []), 0x30 + Length(ms);
      LastMac(p, auth, INITIAL_MAC, ms) == if ms == [] then INITIAL_MAC else file[end - 32..end]
  {
    hide Header, Length, Records, LastMac;
    if ms == [] {
      NoMac(p, auth);
    } else {
      var file, rs, n := Form(p, auth, ms, qs, []), Records(p, auth, INITIAL_MAC, ms), Length(ms);
      RecordsEndWithLastMac(p, auth, INITIAL_MAC, ms);
      FormFields(p, auth, ms, qs, []);
      assert file[0x30..] == rs + [] == rs;
      assert file[0x10 + n..0x30 + n] == file[0x30..][n - 32..];
    }
  }

  lemma FormGrows(p: Primitives, auth: Block, ms: Messages, qs: Messages, part: bytes, x: bytes)
    ensures Overwrite(Form(p, auth, ms, qs, part), 0x30 + Length(ms) + |part|, x) == Form(p, auth, ms, qs, part + x)
  {
    hide Header, Length, Records, Wrap64, Overwrite;
    var h, rs := Header(p, auth, Wrap64(0x30 + Length(ms + qs)), Wrap64(|ms + qs|)), Records(p, auth, INITIAL_MAC, ms);
    OverwriteEnd(Form(p, auth, ms, qs, part), x);
    Associate(rs, part, x);
    Associate(h, rs + part, x);
  }

  /** A record that is complete is counted as one of the messages that the file holds. */
  lemma FormDone(p: Primitives, auth: Block, ms: Messages, m: bytes, qs: Messages)
    ensures Form(p, auth, ms, [m] + qs, Record(p, auth, LastMac(p, auth, INITIAL_MAC, ms), m)) == Form(p, auth, ms + [m], qs, [])
  {
    hide Header, Length, Records, LastMac, Record, Wrap64;
    Snoc(p, auth, INITIAL_MAC, ms, m);
    assert ms + ([m] + qs) == (ms + [m]) + qs;
    assert Records(p, auth, INITIAL_MAC, ms + [m]) + [] == Records(p, auth, INITIAL_MAC, ms + [m]);
  }

  /** The beginning of a record. */
  predicate IsPart(m: bytes, part: bytes) {
    |m| < TWO64 && |part| < 40 + |m| && (|part| >= 8 ==> part[..8] == Be64(Wrap64(|m|)))
  }

  lemma FormRefused(p: Primitives, auth: Block, ms: Messages, m: bytes, qs: Messages, part: bytes)
    requires 0x30 + Length(ms + ([m] + qs)) < TWO63 && AllStorable(ms) && IsPart(m, part)
    ensures Load(p, auth, Form(p, auth, ms, [m] + qs, part)) == None
  {
    hide Header, Length, Records, LastMac, ParseRecords, FileLength, RecordCount, Authentic, Form;
    FormFields(p, auth, ms, [m] + qs, part);
    RecordsAreParsed(p, auth, INITIAL_MAC, ms, 1 + |qs|, part);
    PartIsRefused(p, auth, LastMac(p, auth, INITIAL_MAC, ms), m, part, 1 + |qs|);
  }

  lemma PartIsRefused(p: Primitives, auth: Block, prev: Block, m: bytes, part: bytes, n: nat)
    requires IsPart(m, part) && n > 0
    ensures ParseRecords(p, auth, prev, n, part) == None
  {
    hide De64, Be64;
    DeBe64(|m|);
  }

  lemma FormLoads(p: Primitives, auth: Block, ms: Messages)
    requires 0x30 + Length(ms) < TWO63 && AllStorable(ms)
    ensures Load(p, auth, Form(p, auth, ms, [], [])) == Some(ms)
  {
    hide Image, Length, Load;
    FormIsCanonical(p, auth, ms);
    LengthBounds(ms);
    ImageIsLoaded(p, auth, Wrap64(0x30 + Length(ms)), Canonical(p, auth, ms), ms);
  }

  // ----- harm -----

  /** A header that is written is out of date when the file's header is not the one that was noted, and it is
      too much when the file cannot grow that far. */
  predicate HarmsHeader(p: Primitives, auth: Block, file: bytes, job: Job)
    requires job.Noted?
  {
    || !Authentic(p, auth, file) || FileLength(file) != job.flen || RecordCount(file) != job.mnum
    || job.flen + 40 + |job.m| >= TWO63
  }

  /** A step harms when it writes a header that is out of date or too much, finds no MAC where the header that
      it noted says, writes an empty message, or empties a file that does not hold just what was loaded. */
  predicate Harms(p: Primitives, auth: Block, s: State, step: Step) {
    step.i < |s.jobs| &&
    var job := s.jobs[step.i];
    match step
    case WriteHeader(_) => job.Noted? && HarmsHeader(p, auth, s.file, job)
    case ReadMac(_) => job.Headed? && (job.flen < 32 || job.flen - 32 >= TWO63 || job.flen > |s.file|)
    case WriteSize(_) => job.Chained? && job.m == []
    case Truncate(_) => job.Loading? && job.left == 0 && Load(p, auth, s.file) != Some(job.got)
    case _ => false
  }

  predicate Harmed(p: Primitives, auth: Block, threads: nat, run: seq<Step>) {
    run != [] &&
    var front := run[..|run| - 1];
    Harmed(p, auth, threads, front) || Harms(p, auth, Run(p, auth, threads, front), run[|run| - 1])
  }

  // ----- what holds while nothing does harm -----

  /** A thread between the write of its header and its last write. */
  predicate Writing(job: Job) {
    job.Headed? || job.Chained? || job.Sized? || job.Filled?
  }

  predicate QueueRight(s: State) {
    && (forall k | 0 <= k < |s.queue| :: s.queue[k] < |s.jobs| && Writing(s.jobs[s.queue[k]]))
    && (forall j, k | 0 <= j < k < |s.queue| :: s.queue[j] != s.queue[k])
    && (forall i | 0 <= i < |s.jobs| && Writing(s.jobs[i]) :: i in s.queue)
  }

  lemma QueuedAreThreads(s: State)
    requires QueueRight(s)
    ensures forall k | 0 <= k < |s.queue| :: s.queue[k] < |s.jobs|
  {
  }

  /** The messages of the threads that are writing. */
  function Queued(s: State): (qs: Messages)
    requires QueueRight(s)
    ensures |qs| == |s.queue| && forall k | 0 <= k < |qs| :: qs[k] == s.jobs[s.queue[k]].m
  {
    seq(|s.queue|, k requires 0 <= k < |s.queue| => s.jobs[s.queue[k]].m)
  }

  /** What was added and not given back yet. */
  function Waiting(s: State): Messages
    requires s.handed <= s.added
  {
    s.added[|s.handed|..]
  }

  /** What a thread has written of its record. */
  function PartBy(job: Job): bytes {
    match job
    case Sized(m, _, _) => Be64(Wrap64(|m|))
    case Filled(m, _, _) => Be64(Wrap64(|m|)) + m
    case _ => []
  }

  /** What the first thread in the queue has. */
  function PartOf(s: State): bytes
    requires QueueRight(s)
  {
    if s.queue == [] then [] else PartBy(s.jobs[s.queue[0]])
  }

  predicate Notes(job: Job, before: Messages) {
    job.Headed? ==> job.flen == 0x30 + Length(before) && job.mnum == |before|
  }

  predicate AtEnd(p: Primitives, auth: Block, job: Job, ms: Messages) {
    && (job.Chained? || job.Sized? || job.Filled? ==>
          job.at == 0x30 + Length(ms) && job.prev == LastMac(p, auth, INITIAL_MAC, ms))
    && (job.Sized? || job.Filled? ==> job.m != [])
  }

  /** Only the first thread in the queue is past its header; the others noted where those before them end. */
  predicate QueueInStep(p: Primitives, auth: Block, s: State, ms: Messages)
    requires QueueRight(s)
  {
    && (forall k | 1 <= k < |s.queue| :: s.jobs[s.queue[k]].Headed?)
    && (forall k | 0 <= k < |s.queue| :: Notes(s.jobs[s.queue[k]], ms + Queued(s)[..k]))
    && (s.queue != [] ==> AtEnd(p, auth, s.jobs[s.queue[0]], ms))
  }

  /** The file holds what waits, counts what is being written, and ends in what the first thread wrote. */
  predicate Whole(p: Primitives, auth: Block, s: State) {
    && QueueRight(s) && s.handed <= s.added && AllStorable(Waiting(s))
    && (forall i | 0 <= i < |s.jobs| :: !s.jobs[i].Emptied?)
    && 0x30 + Length(Waiting(s) + Queued(s)) < TWO63
    && s.file == Form(p, auth, Waiting(s), Queued(s), PartOf(s))
    && QueueInStep(p, auth, s, Waiting(s))
  }

  /** One thread has emptied the file and holds what waited; nobody is writing. */
  predicate Void(s: State) {
    && s.file == [] && s.queue == [] && s.handed <= s.added && AllStorable(Waiting(s))
    && (forall i | 0 <= i < |s.jobs| :: !Writing(s.jobs[i]))
    && (forall i | 0 <= i < |s.jobs| && s.jobs[i].Emptied? :: s.jobs[i].got == Waiting(s))
    && (forall i, j | 0 <= i < j < |s.jobs| :: !s.jobs[i].Emptied? || !s.jobs[j].Emptied?)
    && (exists i :: 0 <= i < |s.jobs| && s.jobs[i].Emptied?)
  }

  predicate Intact(p: Primitives, auth: Block, s: State) {
    Whole(p, auth, s) || Void(s)
  }

  /** A thread that is not writing goes on to something that is no writing either. */
  lemma AsideKeeps(p: Primitives, auth: Block, s: State, i: nat, job: Job)
    requires Intact(p, auth, s) && i < |s.jobs|
    requires !Writing(s.jobs[i]) && !s.jobs[i].Emptied? && !Writing(job) && !job.Emptied?
    ensures Intact(p, auth, WithJob(s, i, job))
  {
    hide Whole, Void;
    if Whole(p, auth, s) {
      AsideOfWhole(p, auth, s, i, job);
    } else {
      AsideOfVoid(s, i, job);
    }
  }

  lemma AsideOfWhole(p: Primitives, auth: Block, s: State, i: nat, job: Job)
    requires Whole(p, auth, s) && i < |s.jobs|
    requires !Writing(s.jobs[i]) && !Writing(job) && !job.Emptied?
    ensures Whole(p, auth, WithJob(s, i, job))
  {
    hide Form, Length, LastMac, AllStorable;
    AsideQueue(s, i, job);
  }

  lemma AsideQueue(s: State, i: nat, job: Job)
    requires QueueRight(s) && i < |s.jobs| && !Writing(s.jobs[i]) && !Writing(job)
    ensures var r := WithJob(s, i, job); QueueRight(r) && Queued(r) == Queued(s) && PartOf(r) == PartOf(s)
  {
    var r := WithJob(s, i, job);
    assert QueueRight(r);
  }

  lemma AsideOfVoid(s: State, i: nat, job: Job)
    requires Void(s) && i < |s.jobs|
    requires !s.jobs[i].Emptied? && !Writing(job) && !job.Emptied?
    ensures Void(WithJob(s, i, job))
  {
    hide AllStorable;
    var r := WithJob(s, i, job);
    var k :| 0 <= k < |s.jobs| && s.jobs[k].Emptied?;
    assert r.jobs[k] == s.jobs[k];
  }

  lemma Fields(p: Primitives, auth: Block, s: State)
    requires Whole(p, auth, s)
    ensures var ms, qs := Waiting(s), Queued(s);
      && Authentic(p, auth, s.file) && FileLength(s.file) == 0x30 + Length(ms + qs) && RecordCount(s.file) == |ms| + |qs|
      && |s.file| == 0x30 + Length(ms) + |PartOf(s)|
  {
    hide Form, Length, Authentic, FileLength, RecordCount, QueueInStep, AllStorable, QueueRight;
    FormFields(p, auth, Waiting(s), Queued(s), PartOf(s));
  }

  function Joining(s: State, i: nat, file: bytes): State
    requires i < |s.jobs| && s.jobs[i].Noted?
  {
    var job := s.jobs[i];
    WithJob(s.(file := file, queue := s.queue + [i]), i, Headed(job.m, job.flen, job.mnum))
  }

  lemma JoinQueue(s: State, i: nat, file: bytes)
    requires QueueRight(s) && i < |s.jobs| && s.jobs[i].Noted?
    ensures var r := Joining(s, i, file);
      QueueRight(r) && Queued(r) == Queued(s) + [s.jobs[i].m] && PartOf(r) == PartOf(s)
  {
    var r := Joining(s, i, file);
    assert r.queue[|s.queue|] == i;
    assert QueueRight(r);
  }

  lemma JoinInStep(p: Primitives, auth: Block, s: State, i: nat, file: bytes, ms: Messages)
    requires QueueRight(s) && i < |s.jobs| && s.jobs[i].Noted? && QueueInStep(p, auth, s, ms)
    requires s.jobs[i].flen == 0x30 + Length(ms + Queued(s)) && s.jobs[i].mnum == |ms + Queued(s)|
    ensures QueueRight(Joining(s, i, file)) && QueueInStep(p, auth, Joining(s, i, file), ms)
  {
    hide Length, LastMac, QueueRight, Queued, Notes;
    var r := Joining(s, i, file);
    JoinQueue(s, i, file);
    forall k | 0 <= k < |r.queue|
      ensures Notes(r.jobs[r.queue[k]], ms + Queued(r)[..k]) && (k >= 1 ==> r.jobs[r.queue[k]].Headed?)
    {
      JoinNotes(p, auth, s, i, file, ms, k);
    }
    JoinAtEnd(p, auth, s, i, file, ms);
  }

  lemma JoinNotes(p: Primitives, auth: Block, s: State, i: nat, file: bytes, ms: Messages, k: nat)
    requires QueueRight(s) && i < |s.jobs| && s.jobs[i].Noted? && QueueInStep(p, auth, s, ms)
    requires s.jobs[i].flen == 0x30 + Length(ms + Queued(s)) && s.jobs[i].mnum == |ms + Queued(s)|
    requires QueueRight(Joining(s, i, file)) && k < |Joining(s, i, file).queue|
    ensures var r := Joining(s, i, file);
      Notes(r.jobs[r.queue[k]], ms + Queued(r)[..k]) && (k >= 1 ==> r.jobs[r.queue[k]].Headed?)
  {
    hide Length, LastMac, Queued;
    var r, qs := Joining(s, i, file), Queued(s);
    JoinQueue(s, i, file);
    assert Queued(r)[..k] == qs[..k];
    if k == |qs| {
      assert r.queue[k] == i && qs[..k] == qs;
    } else {
      assert r.queue[k] == s.queue[k] && Notes(s.jobs[s.queue[k]], ms + qs[..k]);
    }
  }

  lemma JoinAtEnd(p: Primitives, auth: Block, s: State, i: nat, file: bytes, ms: Messages)
    requires QueueRight(s) && i < |s.jobs| && s.jobs[i].Noted? && QueueInStep(p, auth, s, ms)
    ensures var r := Joining(s, i, file);
      r.queue[0] < |r.jobs| && AtEnd(p, auth, r.jobs[r.queue[0]], ms)
  {
    hide Length, LastMac, Queued, Notes;
  }

  /** The thread joins the queue behind the others. */
  lemma JoinKeeps(p: Primitives, auth: Block, s: State, i: nat)
    requires Whole(p, auth, s) && i < |s.jobs| && s.jobs[i].Noted? && !HarmsHeader(p, auth, s.file, s.jobs[i])
    ensures Whole(p, auth, Apply(p, auth, s, WriteHeader(i)))
  {
    hide Form, Length, LastMac, AllStorable, Header, Overwrite, Authentic, FileLength, RecordCount, Wrap64, QueueInStep,
      QueueRight, PartOf, Queued;
    var m, ms, qs := s.jobs[i].m, Waiting(s), Queued(s);
    Fields(p, auth, s);
    OneMoreLength(ms, qs, m);
    var h := Header(p, auth, Wrap64(0x30 + Length(ms + (qs + [m]))), Wrap64(|ms + (qs + [m])|));
    FormHeader(p, auth, ms, qs, PartOf(s), m, h);
    assert Apply(p, auth, s, WriteHeader(i)) == Joining(s, i, Overwrite(s.file, 0, h));
    JoinQueue(s, i, Overwrite(s.file, 0, h));
    JoinInStep(p, auth, s, i, Overwrite(s.file, 0, h), ms);
  }

  // ----- one thread's record -----

  lemma FirstInQueue(p: Primitives, auth: Block, s: State, i: nat)
    requires Whole(p, auth, s) && i < |s.jobs| && Writing(s.jobs[i])
    ensures s.queue != []
    ensures !s.jobs[i].Headed? ==> s.queue[0] == i
  {
    hide Form, Length, LastMac, AllStorable;
    assert i in s.queue;
  }

  /** A MAC is found only by the thread whose turn it is: for the others the file is still too short. */
  lemma MacIsForFirst(p: Primitives, auth: Block, s: State, i: nat)
    requires Whole(p, auth, s) && i < |s.jobs| && s.jobs[i].Headed? && s.jobs[i].flen <= |s.file|
    ensures s.queue != [] && s.queue[0] == i && PartOf(s) == [] && s.jobs[i].flen == 0x30 + Length(Waiting(s))
  {
    hide Form, Length, LastMac, AllStorable, QueueInStep;
    Fields(p, auth, s);
    var k :| 0 <= k < |s.queue| && s.queue[k] == i;
    var ms, qs := Waiting(s), Queued(s);
    assert |PartOf(s)| <= 8 + |qs[0]|;
    NotedWhere(p, auth, s, ms, k);
    if k > 0 {
      LengthSum(ms, qs[..k]);
      assert qs[..k] == [qs[0]] + qs[..k][1..];
      LengthSum([qs[0]], qs[..k][1..]);
      LengthOne(qs[0]);
      assert false;
    }
    assert qs[..0] == [] && ms + [] == ms;
  }

  lemma NotedWhere(p: Primitives, auth: Block, s: State, ms: Messages, k: nat)
    requires QueueRight(s) && QueueInStep(p, auth, s, ms) && k < |s.queue| && s.jobs[s.queue[k]].Headed?
    ensures var job := s.jobs[s.queue[k]]; job.flen == 0x30 + Length(ms + Queued(s)[..k]) && job.mnum == |ms| + k
  {
    hide Length, LastMac;
  }

  /** The first thread in the queue goes on with its record. */
  function Going(s: State, i: nat, file: bytes, job: Job): State
    requires i < |s.jobs|
  {
    WithJob(s.(file := file), i, job)
  }

  lemma GoingQueue(s: State, i: nat, file: bytes, job: Job)
    requires QueueRight(s) && s.queue != [] && s.queue[0] == i && Writing(job) && job.m == s.jobs[i].m
    ensures var r := Going(s, i, file, job); QueueRight(r) && Queued(r) == Queued(s)
  {
    var r := Going(s, i, file, job);
    assert QueueRight(r);
  }

  lemma GoingInStep(p: Primitives, auth: Block, s: State, i: nat, file: bytes, job: Job, ms: Messages)
    requires QueueRight(s) && s.queue != [] && s.queue[0] == i && Writing(job) && job.m == s.jobs[i].m
    requires QueueInStep(p, auth, s, ms) && !job.Headed? && AtEnd(p, auth, job, ms)
    ensures var r := Going(s, i, file, job); QueueRight(r) && QueueInStep(p, auth, r, ms)
  {
    hide Length, LastMac;
    GoingQueue(s, i, file, job);
  }

  lemma GoingKeeps(p: Primitives, auth: Block, s: State, i: nat, file: bytes, job: Job)
    requires Whole(p, auth, s) && s.queue != [] && s.queue[0] == i && Writing(job) && job.m == s.jobs[i].m
    requires !job.Headed? && AtEnd(p, auth, job, Waiting(s))
    requires file == Form(p, auth, Waiting(s), Queued(s), PartBy(job))
    ensures Whole(p, auth, Going(s, i, file, job))
  {
    hide Form, Length, LastMac, AllStorable, QueueInStep, Queued, PartBy;
    GoingQueue(s, i, file, job);
    GoingInStep(p, auth, s, i, file, job, Waiting(s));
  }

  lemma MacKeeps(p: Primitives, auth: Block, s: State, i: nat)
    requires Whole(p, auth, s) && i < |s.jobs| && s.jobs[i].Headed? && !Harms(p, auth, s, ReadMac(i))
    ensures Whole(p, auth, Apply(p, auth, s, ReadMac(i)))
  {
    hide Form, Length, LastMac, Whole, Queued, QueueRight, Apply, Wrap64, AtEnd;
    var job, at := s.jobs[i], s.jobs[i].flen - 32;
    var next := Chained(job.m, at + 32, if job.mnum == 0 then INITIAL_MAC else s.file[at..at + 32]);
    MacAtEnd(p, auth, s, i);
    GoingKeeps(p, auth, s, i, s.file, next);
    NoWrap(at);
    MacFound(p, auth, s, i, Going(s, i, s.file, next));
  }

  lemma MacAtEnd(p: Primitives, auth: Block, s: State, i: nat)
    requires Whole(p, auth, s) && i < |s.jobs| && s.jobs[i].Headed? && !Harms(p, auth, s, ReadMac(i))
    ensures QueueRight(s) && s.queue != [] && s.queue[0] == i && s.handed <= s.added
    ensures s.file == Form(p, auth, Waiting(s), Queued(s), [])
    ensures var job, at := s.jobs[i], s.jobs[i].flen - 32;
      AtEnd(p, auth, Chained(job.m, at + 32, if job.mnum == 0 then INITIAL_MAC else s.file[at..at + 32]), Waiting(s))
  {
    hide Form, Length, LastMac, AllStorable, QueueInStep, Queued, PartOf, QueueRight;
    MacIsForFirst(p, auth, s, i);
    NotesFirst(p, auth, s, Waiting(s));
    FormMac(p, auth, Waiting(s), Queued(s));
  }

  lemma NotesFirst(p: Primitives, auth: Block, s: State, ms: Messages)
    requires QueueRight(s) && QueueInStep(p, auth, s, ms) && s.queue != [] && s.jobs[s.queue[0]].Headed?
    ensures s.jobs[s.queue[0]].mnum == |ms|
  {
    hide Length, LastMac;
    assert Notes(s.jobs[s.queue[0]], ms + Queued(s)[..0]);
  }

  lemma FirstAtEnd(p: Primitives, auth: Block, s: State, i: nat)
    requires Whole(p, auth, s) && i < |s.jobs| && Writing(s.jobs[i]) && !s.jobs[i].Headed?
    ensures QueueRight(s) && s.queue != [] && s.queue[0] == i && s.handed <= s.added
    ensures AtEnd(p, auth, s.jobs[i], Waiting(s))
    ensures s.file == Form(p, auth, Waiting(s), Queued(s), PartBy(s.jobs[i]))
  {
    hide Form, Length, LastMac, AllStorable, PartBy;
    FirstInQueue(p, auth, s, i);
  }

  lemma SizeKeeps(p: Primitives, auth: Block, s: State, i: nat)
    requires Whole(p, auth, s) && i < |s.jobs| && s.jobs[i].Chained? && s.jobs[i].m != []
    ensures Whole(p, auth, Apply(p, auth, s, WriteSize(i)))
  {
    hide Form, Length, LastMac, Whole, Queued, Overwrite, Wrap64, QueueRight, Apply;
    FirstAtEnd(p, auth, s, i);
    var Chained(m, at, prev) := s.jobs[i];
    var x := Be64(Wrap64(|m|));
    FormGrows(p, auth, Waiting(s), Queued(s), [], x);
    assert [] + x == x;
    GoingKeeps(p, auth, s, i, Overwrite(s.file, at, x), Sized(m, at, prev));
    SizeGoes(p, auth, s, i);
  }

  lemma SizeGoes(p: Primitives, auth: Block, s: State, i: nat)
    requires i < |s.jobs| && s.jobs[i].Chained? && s.jobs[i].m != []
    ensures var Chained(m, at, prev) := s.jobs[i];
      Apply(p, auth, s, WriteSize(i)) == Going(s, i, Overwrite(s.file, at, Be64(Wrap64(|m|))), Sized(m, at, prev))
  {
    hide Overwrite, Wrap64;
  }

  lemma TextKeeps(p: Primitives, auth: Block, s: State, i: nat)
    requires Whole(p, auth, s) && i < |s.jobs| && s.jobs[i].Sized?
    ensures Whole(p, auth, Apply(p, auth, s, WriteText(i)))
  {
    hide Form, Length, LastMac, Whole, Queued, Overwrite, Wrap64, QueueRight, Apply;
    FirstAtEnd(p, auth, s, i);
    var Sized(m, at, prev) := s.jobs[i];
    FormGrows(p, auth, Waiting(s), Queued(s), Be64(Wrap64(|m|)), m);
    GoingKeeps(p, auth, s, i, Overwrite(s.file, at + 8, m), Filled(m, at, prev));
    TextGoes(p, auth, s, i);
  }

  lemma TextGoes(p: Primitives, auth: Block, s: State, i: nat)
    requires i < |s.jobs| && s.jobs[i].Sized?
    ensures var Sized(m, at, prev) := s.jobs[i];
      Apply(p, auth, s, WriteText(i)) == Going(s, i, Overwrite(s.file, at + 8, m), Filled(m, at, prev))
  {
    hide Overwrite;
  }

  // ----- the last write -----

  /** The first thread leaves the queue. */
  lemma LeaveQueue(s: State, r: State)
    requires QueueRight(s) && s.queue != []
    requires r.queue == s.queue[1..] && r.jobs == s.jobs[s.queue[0] := Idle]
    ensures QueueRight(r) && Queued(r) == Queued(s)[1..]
  {
    hide QueueRight, Queued, Writing;
    QueuedAreThreads(s);
    forall i | 0 <= i < |r.jobs| && Writing(r.jobs[i])
      ensures i in r.queue
    {
      StillQueued(s, r, i);
    }
    forall k | 0 <= k < |r.queue|
      ensures r.queue[k] < |r.jobs| && Writing(r.jobs[r.queue[k]])
      ensures s.queue[k + 1] < |s.jobs| && r.jobs[r.queue[k]] == s.jobs[s.queue[k + 1]]
    {
      LaterStays(s, r, k);
    }
    assert QueueRight(r) by {
      NobodyTwice(s);
      QueueIsRight(r);
    }
    SameQueued(s, r);
  }

  lemma StillQueued(s: State, r: State, i: nat)
    requires QueueRight(s) && s.queue != [] && i < |s.jobs|
    requires r.queue == s.queue[1..] && r.jobs == s.jobs[s.queue[0] := Idle] && Writing(r.jobs[i])
    ensures i in r.queue
  {
    var k :| 0 <= k < |s.queue| && s.queue[k] == i;
    assert r.queue[k - 1] == i;
  }

  lemma LaterStays(s: State, r: State, k: nat)
    requires QueueRight(s) && k + 1 < |s.queue|
    requires r.queue == s.queue[1..] && r.jobs == s.jobs[s.queue[0] := Idle]
    ensures r.queue[k] < |r.jobs| && Writing(r.jobs[r.queue[k]]) && r.jobs[r.queue[k]] == s.jobs[s.queue[k + 1]]
  {
    Apart(s, k + 1);
  }

  lemma NobodyTwice(s: State)
    requires QueueRight(s)
    ensures forall j, k | 0 <= j < k < |s.queue| :: s.queue[j] != s.queue[k]
  {
  }

  lemma QueueIsRight(s: State)
    requires forall k | 0 <= k < |s.queue| :: s.queue[k] < |s.jobs| && Writing(s.jobs[s.queue[k]])
    requires forall j, k | 0 <= j < k < |s.queue| :: s.queue[j] != s.queue[k]
    requires forall i | 0 <= i < |s.jobs| && Writing(s.jobs[i]) :: i in s.queue
    ensures QueueRight(s)
  {
  }

  lemma SameQueued(s: State, r: State)
    requires QueueRight(s) && QueueRight(r) && s.queue != [] && |r.queue| == |s.queue| - 1
    requires forall k | 0 <= k < |r.queue| :: r.jobs[r.queue[k]] == s.jobs[s.queue[k + 1]]
    ensures Queued(r) == Queued(s)[1..]
  {
    hide QueueRight;
  }

  lemma Apart(s: State, k: nat)
    requires QueueRight(s) && 0 < k < |s.queue|
    ensures s.queue[k] != s.queue[0]
  {
  }

  lemma NotesLater(p: Primitives, auth: Block, s: State, r: State, ms: Messages, k: nat)
    requires QueueRight(s) && QueueRight(r) && s.queue != [] && QueueInStep(p, auth, s, ms)
    requires r.queue == s.queue[1..] && r.jobs == s.jobs[s.queue[0] := Idle] && Queued(r) == Queued(s)[1..]
    requires k < |r.queue|
    ensures r.jobs[r.queue[k]].Headed? && Notes(r.jobs[r.queue[k]], ms + [Queued(s)[0]] + Queued(r)[..k])
  {
    hide Length, LastMac, Queued;
    var qs := Queued(s);
    assert r.queue[k] == s.queue[k + 1] && s.queue[k + 1] != s.queue[0] by {
      Apart(s, k + 1);
    }
    assert Notes(s.jobs[s.queue[k + 1]], ms + qs[..k + 1]);
    assert ms + qs[..k + 1] == ms + [qs[0]] + qs[1..][..k];
  }

  lemma LeaveInStep(p: Primitives, auth: Block, s: State, r: State, ms: Messages)
    requires QueueRight(s) && s.queue != [] && QueueInStep(p, auth, s, ms)
    requires r.queue == s.queue[1..] && r.jobs == s.jobs[s.queue[0] := Idle]
    ensures QueueRight(r) && QueueInStep(p, auth, r, ms + [Queued(s)[0]]) && PartOf(r) == []
  {
    hide Length, LastMac, Queued, QueueRight, Notes;
    LeaveQueue(s, r);
    QueuedAreThreads(r);
    forall k | 0 <= k < |r.queue|
      ensures r.jobs[r.queue[k]].Headed? && Notes(r.jobs[r.queue[k]], ms + [Queued(s)[0]] + Queued(r)[..k])
    {
      NotesLater(p, auth, s, r, ms, k);
    }
  }

  lemma LastFile(p: Primitives, auth: Block, s: State, i: nat)
    requires Whole(p, auth, s) && i < |s.jobs| && s.jobs[i].Filled?
    ensures s.queue != [] && s.queue[0] == i && s.jobs[i].m != [] && Queued(s) == [s.jobs[i].m] + Queued(s)[1..]
    ensures Apply(p, auth, s, WriteMac(i)).file == Form(p, auth, Waiting(s) + [s.jobs[i].m], Queued(s)[1..], [])
  {
    hide Form, Length, LastMac, QueueInStep, Queued, Overwrite, Wrap64, QueueRight, PartOf, Mac, Record, Whole, Apply, AtEnd, Be64,
      PartBy, Waiting;
    FirstAtEnd(p, auth, s, i);
    var Filled(m, at, prev) := s.jobs[i];
    var ms, qs := Waiting(s), Queued(s);
    LastPart(p, auth, s, i);
    MacGoesOut(p, auth, s, i, ms);
    FormGrows(p, auth, ms, qs, Be64(Wrap64(|m|)) + m, Mac(p, auth, prev, m));
    FormDone(p, auth, ms, m, qs[1..]);
  }

  lemma MacGoesOut(p: Primitives, auth: Block, s: State, i: nat, ms: Messages)
    requires i < |s.jobs| && s.jobs[i].Filled? && AtEnd(p, auth, s.jobs[i], ms)
    ensures var Filled(m, at, prev) := s.jobs[i];
      var part := Be64(Wrap64(|m|)) + m;
      && m != [] && PartBy(s.jobs[i]) == part && prev == LastMac(p, auth, INITIAL_MAC, ms)
      && Apply(p, auth, s, WriteMac(i)).file == Overwrite(s.file, 0x30 + Length(ms) + |part|, Mac(p, auth, prev, m))
  {
    hide Length, LastMac, Overwrite, Wrap64, Mac;
  }

  lemma LastKeeps(p: Primitives, auth: Block, s: State, i: nat)
    requires Whole(p, auth, s) && i < |s.jobs| && s.jobs[i].Filled?
    ensures Whole(p, auth, Apply(p, auth, s, WriteMac(i)))
  {
    hide Form, Length, QueueInStep, Queued, Overwrite, QueueRight, PartOf, Mac, AllStorable, Wrap64;
    var r, m, ms, qs := Apply(p, auth, s, WriteMac(i)), s.jobs[i].m, Waiting(s), Queued(s);
    LastFile(p, auth, s, i);
    LeaveQueue(s, r);
    LeaveInStep(p, auth, s, r, ms);
    LastWaits(s, r, m);
    LastFits(ms, qs, m);
  }

  lemma LastFits(ms: Messages, qs: Messages, m: bytes)
    requires AllStorable(ms) && 0x30 + Length(ms + qs) < TWO63 && m != [] && qs != [] && qs == [m] + qs[1..]
    ensures AllStorable(ms + [m]) && Length((ms + [m]) + qs[1..]) == Length(ms + qs)
  {
    hide Length;
    assert ms + qs == (ms + [m]) + qs[1..];
    LengthBounds(ms + qs);
    assert m in ms + qs;
  }

  lemma LastPart(p: Primitives, auth: Block, s: State, i: nat)
    requires QueueRight(s) && s.queue != [] && s.queue[0] == i && s.jobs[i].Filled?
    ensures var Filled(m, at, prev) := s.jobs[i];
      && PartOf(s) == Be64(Wrap64(|m|)) + m && Queued(s) == [m] + Queued(s)[1..]
      && Record(p, auth, prev, m) == PartOf(s) + Mac(p, auth, prev, m)
  {
    hide Wrap64, Mac;
  }

  lemma LastWaits(s: State, r: State, m: bytes)
    requires s.handed <= s.added && r.handed == s.handed && r.added == s.added + [m]
    ensures r.handed <= r.added && Waiting(r) == Waiting(s) + [m]
  {
  }

  // ----- loading -----

  lemma PartIsPart(s: State)
    requires QueueRight(s) && s.queue != [] && |Queued(s)[0]| < TWO64
    ensures IsPart(Queued(s)[0], PartOf(s))
  {
    hide Wrap64;
  }

  /** A file that loads while nothing does harm has no append under way, and loads as what waits. */
  lemma LoadsAsWaiting(p: Primitives, auth: Block, s: State)
    requires Whole(p, auth, s)
    ensures Load(p, auth, s.file) == if s.queue == [] then Some(Waiting(s)) else None
  {
    hide Form, Length, QueueInStep, QueueRight, AllStorable, Load, PartOf, Queued;
    var ms, qs := Waiting(s), Queued(s);
    if s.queue == [] {
      assert qs == [] && ms + qs == ms;
      NoPart(s);
      FormLoads(p, auth, ms);
    } else {
      assert qs == [qs[0]] + qs[1..];
      LengthBounds(ms + qs);
      assert (ms + qs)[|ms|] == qs[0] && qs[0] in ms + qs;
      PartIsPart(s);
      FormRefused(p, auth, ms, qs[0], qs[1..], PartOf(s));
    }
  }

  lemma NoPart(s: State)
    requires QueueRight(s) && s.queue == []
    ensures PartOf(s) == []
  {
  }

  lemma TruncateKeeps(p: Primitives, auth: Block, s: State, i: nat)
    requires Whole(p, auth, s) && i < |s.jobs| && s.jobs[i].Loading? && s.jobs[i].left == 0
    requires !Harms(p, auth, s, Truncate(i))
    ensures Void(Apply(p, auth, s, Truncate(i)))
  {
    hide Form, Length, QueueInStep, AllStorable, Load, PartOf, Queued;
    LoadsAsWaiting(p, auth, s);
    var r := Apply(p, auth, s, Truncate(i));
    assert r.jobs[i].Emptied?;
  }

  lemma RestartKeeps(p: Primitives, auth: Block, s: State, i: nat)
    requires Void(s) && i < |s.jobs| && s.jobs[i].Emptied?
    ensures Whole(p, auth, Apply(p, auth, s, Restart(i)))
  {
    hide Header, Overwrite, Form, LastMac, Length;
    var r := Apply(p, auth, s, Restart(i));
    OverwriteNothing(Header(p, auth, 0x30, 0));
    Rested(r);
    assert r.handed == r.added;
    NothingHeld(p, auth);
    assert Waiting(r) + Queued(r) == [];
  }

  lemma Rested(s: State)
    requires s.queue == [] && forall i | 0 <= i < |s.jobs| :: !Writing(s.jobs[i])
    ensures QueueRight(s) && Queued(s) == [] && PartOf(s) == []
  {
    assert QueueRight(s);
  }

  lemma NothingHeld(p: Primitives, auth: Block)
    ensures Form(p, auth, [], [], []) == Header(p, auth, 0x30, 0) && Length([]) == 0
  {
    hide Header;
  }

  // ----- every step -----

  lemma WholeKeeps(p: Primitives, auth: Block, s: State, step: Step)
    requires Whole(p, auth, s) && !Harms(p, auth, s, step)
    ensures Intact(p, auth, Apply(p, auth, s, step))
  {
    hide Whole, Void, Load, Overwrite, Header, ParseRecord, Mac, HarmsHeader, Wrap64, Authentic, FileLength, RecordCount;
    if step.i < |s.jobs| {
      var i, job := step.i, s.jobs[step.i];
      match step
      case WriteHeader(_) => if job.Noted? { JoinKeeps(p, auth, s, i); }
      case ReadMac(_) => if job.Headed? { MacKeeps(p, auth, s, i); }
      case WriteSize(_) => if job.Chained? { SizeKeeps(p, auth, s, i); }
      case WriteText(_) => if job.Sized? { TextKeeps(p, auth, s, i); }
      case WriteMac(_) => if job.Filled? { LastKeeps(p, auth, s, i); }
      case Truncate(_) => if job.Loading? && job.left == 0 { TruncateKeeps(p, auth, s, i); }
      case Restart(_) => if job.Emptied? { NobodyEmptied(p, auth, s, i); }
      case _ => ReadsKeep(p, auth, s, step);
    }
  }

  lemma NobodyEmptied(p: Primitives, auth: Block, s: State, i: nat)
    requires Whole(p, auth, s) && i < |s.jobs|
    ensures !s.jobs[i].Emptied?
  {
    hide Form, Length, QueueInStep, QueueRight;
  }

  /** Reading the header or a record changes no more than what the thread is about. */
  lemma ReadsKeep(p: Primitives, auth: Block, s: State, step: Step)
    requires Intact(p, auth, s) && (step.ReadHeader? || step.OpenLoad? || step.ReadRecord?)
    ensures Intact(p, auth, Apply(p, auth, s, step))
  {
    hide Whole, Void, ParseRecord, Authentic, FileLength, RecordCount;
    var r := Apply(p, auth, s, step);
    if r != s {
      AsideKeeps(p, auth, s, step.i, r.jobs[step.i]);
    }
  }

  lemma VoidKeeps(p: Primitives, auth: Block, s: State, step: Step)
    requires Void(s) && !Harms(p, auth, s, step)
    ensures Intact(p, auth, Apply(p, auth, s, step))
  {
    hide Whole, Overwrite, Header, ParseRecord, Mac, Wrap64, AllStorable;
    if step.i < |s.jobs| {
      match step
      case Restart(i) => if s.jobs[i].Emptied? { RestartKeeps(p, auth, s, i); }
      case ReadHeader(_, _) => ReadsKeep(p, auth, s, step);
      case OpenLoad(_) => ReadsKeep(p, auth, s, step);
      case ReadRecord(_) => ReadsKeep(p, auth, s, step);
      case _ => assert Apply(p, auth, s, step) == s;
    }
  }

  lemma StepKeeps(p: Primitives, auth: Block, s: State, step: Step)
    requires Intact(p, auth, s) && !Harms(p, auth, s, step)
    ensures Intact(p, auth, Apply(p, auth, s, step))
  {
    hide Whole, Void, Apply, Harms;
    if Whole(p, auth, s) {
      WholeKeeps(p, auth, s, step);
    } else {
      VoidKeeps(p, auth, s, step);
    }
  }

  lemma StartIsWhole(p: Primitives, auth: Block, threads: nat)
    ensures Whole(p, auth, Start(p, auth, threads))
  {
    hide Form, Canonical, LastMac, Length;
    var s := Start(p, auth, threads);
    FormIsCanonical(p, auth, []);
    Rested(s);
    NothingHeld(p, auth);
    assert Waiting(s) + Queued(s) == [];
  }

  /** Over every interleaving in which no step does harm: the file holds what was added and not given back
      yet, in the order in which the appends were completed, with its header ahead by the appends under way;
      or a load has emptied it and holds just that. */
  lemma {:induction false} IntactUnlessHarmed(p: Primitives, auth: Block, threads: nat, run: seq<Step>)
    requires !Harmed(p, auth, threads, run)
    ensures Intact(p, auth, Run(p, auth, threads, run))
  {
    hide Apply, Harms, Whole, Void;
    if run == [] {
      StartIsWhole(p, auth, threads);
    } else {
      IntactUnlessHarmed(p, auth, threads, run[..|run| - 1]);
      StepKeeps(p, auth, Run(p, auth, threads, run[..|run| - 1]), run[|run| - 1]);
    }
  }

  /** Nobody is between the writes of an append or of a load. */
  predicate AtRest(s: State) {
    forall i | 0 <= i < |s.jobs| :: !Writing(s.jobs[i]) && !s.jobs[i].Emptied?
  }

  lemma SomebodyEmptied(s: State)
    requires AtRest(s)
    ensures !Void(s)
  {
  }

  lemma SomebodyWrites(s: State)
    requires QueueRight(s) && s.queue != []
    ensures !AtRest(s)
  {
    assert Writing(s.jobs[s.queue[0]]);
  }

  /** So at rest the file is the image of what waits, and what was added is what was given back and then what
      waits, in order: nothing is lost, doubled or moved. */
  lemma NothingLostUnlessHarmed(p: Primitives, auth: Block, threads: nat, run: seq<Step>)
    requires !Harmed(p, auth, threads, run) && AtRest(Run(p, auth, threads, run))
    ensures var s := Run(p, auth, threads, run);
      && s.handed <= s.added && s.added == s.handed + Waiting(s)
      && s.file == Canonical(p, auth, Waiting(s)) && Load(p, auth, s.file) == Some(Waiting(s))
  {
    hide Run, Harmed, Form, Canonical, QueueInStep, Load, Length, AllStorable;
    IntactUnlessHarmed(p, auth, threads, run);
    var s := Run(p, auth, threads, run);
    SomebodyEmptied(s);
    if s.queue != [] {
      SomebodyWrites(s);
    }
    assert Queued(s) == [];
    FormIsCanonical(p, auth, Waiting(s));
    LoadsAsWaiting(p, auth, s);
  }

  // ----- one operation at a time -----

  /** A thread begins while another one is not done. */
  predicate Overlaps(s: State, step: Step) {
    && (step.ReadHeader? || step.OpenLoad?) && step.i < |s.jobs| && s.jobs[step.i].Idle?
    && exists j :: 0 <= j < |s.jobs| && !s.jobs[j].Idle?
  }

  predicate Overlapped(p: Primitives, auth: Block, threads: nat, run: seq<Step>) {
    run != [] &&
    var front := run[..|run| - 1];
    Overlapped(p, auth, threads, front) || Overlaps(Run(p, auth, threads, front), run[|run| - 1])
  }

  /** Letters are not empty, and offsets are signed. */
  predicate Fits(s: State, step: Step) {
    step.ReadHeader? ==> step.m != [] && |s.file| + 40 + |step.m| < TWO63
  }

  predicate AllFit(p: Primitives, auth: Block, threads: nat, run: seq<Step>) {
    run == [] ||
    var front := run[..|run| - 1];
    AllFit(p, auth, threads, front) && Fits(Run(p, auth, threads, front), run[|run| - 1])
  }

  /** What the thread knows of the file is still so. */
  predicate UpToDate(p: Primitives, auth: Block, file: bytes, job: Job) {
    match job
    case Noted(m, _, _) => m != [] && !HarmsHeader(p, auth, file, job)
    case Headed(m, _, _) => m != []
    case Chained(m, _, _) => m != []
    case Loading(left, pos, prev, got) => Onto(got, ParseRecords(p, auth, prev, left, From(file, pos))) == Load(p, auth, file)
    case _ => true
  }

  predicate Serial(p: Primitives, auth: Block, s: State) {
    && Intact(p, auth, s)
    && (forall i, j | 0 <= i < j < |s.jobs| :: s.jobs[i].Idle? || s.jobs[j].Idle?)
    && (forall i | 0 <= i < |s.jobs| :: UpToDate(p, auth, s.file, s.jobs[i]))
  }

  lemma MacIsThere(p: Primitives, auth: Block, s: State, i: nat)
    requires Intact(p, auth, s) && i < |s.jobs| && s.jobs[i].Headed?
    requires forall j | 0 <= j < |s.jobs| && j != i :: s.jobs[j].Idle?
    ensures 0x30 <= s.jobs[i].flen <= |s.file| && s.jobs[i].flen < TWO63
  {
    hide Form, Length, LastMac, AllStorable, QueueInStep;
    Fields(p, auth, s);
    var ms, qs := Waiting(s), Queued(s);
    assert s.queue[0] == i;
    NotedWhere(p, auth, s, ms, 0);
    assert qs[..0] == [] && ms + [] == ms;
    LengthSum(ms, qs);
  }

  lemma SerialDoesNotHarm(p: Primitives, auth: Block, s: State, step: Step)
    requires Serial(p, auth, s)
    ensures !Harms(p, auth, s, step)
  {
    hide Intact, Load, HarmsHeader, Authentic, FileLength, RecordCount;
    if step.i < |s.jobs| {
      var i, job := step.i, s.jobs[step.i];
      if step.ReadMac? && job.Headed? {
        MacIsThere(p, auth, s, i);
      } else if step.Truncate? && job.Loading? && job.left == 0 {
        assert UpToDate(p, auth, s.file, job);
        OntoNone(job.got);
      } else if step.WriteHeader? && job.Noted? {
        assert UpToDate(p, auth, s.file, job);
      } else if step.WriteSize? && job.Chained? {
        assert UpToDate(p, auth, s.file, job);
      }
    }
  }

  /** What a thread knows after its own step. */
  lemma StaysUpToDate(p: Primitives, auth: Block, s: State, step: Step)
    requires Serial(p, auth, s) && !Overlaps(s, step) && Fits(s, step) && step.i < |s.jobs|
    ensures UpToDate(p, auth, Apply(p, auth, s, step).file, Apply(p, auth, s, step).jobs[step.i])
  {
    hide Intact, Overwrite, Header, Mac, Wrap64, HarmsHeader, ParseRecords, ParseRecord, Load, Authentic, FileLength, RecordCount;
    var i, job := step.i, s.jobs[step.i];
    assert UpToDate(p, auth, s.file, job);
    match step
    case ReadHeader(_, m) => if job.Idle? && |m| < TWO64 && Authentic(p, auth, s.file) { NotesNow(p, auth, s, m); }
    case OpenLoad(_) => if job.Idle? && Authentic(p, auth, s.file) { OpensNow(p, auth, s.file); }
    case ReadRecord(_) => if job.Loading? && job.left > 0 { ReadsNow(p, auth, s.file, job); }
    case _ =>
  }

  lemma NotesNow(p: Primitives, auth: Block, s: State, m: bytes)
    requires Intact(p, auth, s) && Authentic(p, auth, s.file) && m != [] && |s.file| + 40 + |m| < TWO63
    requires forall j | 0 <= j < |s.jobs| :: s.jobs[j].Idle?
    ensures UpToDate(p, auth, s.file, Noted(m, FileLength(s.file), RecordCount(s.file)))
  {
    hide Form, Length, LastMac, AllStorable, QueueInStep, FileLength, RecordCount, Authentic;
    Fields(p, auth, s);
    assert Queued(s) == [] && Waiting(s) + [] == Waiting(s);
    NoPart(s);
  }

  lemma OpensNow(p: Primitives, auth: Block, file: bytes)
    requires Authentic(p, auth, file)
    ensures UpToDate(p, auth, file, Loading(RecordCount(file), 0x30, INITIAL_MAC, []))
  {
    hide ParseRecords, RecordCount;
    OntoNothing(ParseRecords(p, auth, INITIAL_MAC, RecordCount(file), file[0x30..]));
  }

  lemma ReadsNow(p: Primitives, auth: Block, file: bytes, job: Job)
    requires job.Loading? && job.left > 0 && UpToDate(p, auth, file, job)
    ensures var rest := From(file, job.pos); var r := ParseRecord(p, auth, job.prev, rest);
      r.Some? ==>
        var m := r.value;
        UpToDate(p, auth, file, Loading(job.left - 1, job.pos + 40 + |m|, rest[8 + |m|..40 + |m|], job.got + [m]))
  {
    hide ParseRecords, ParseRecord, Load;
    var rest := From(file, job.pos);
    OntoStep(p, auth, job.prev, job.left, rest, job.got);
    var r := ParseRecord(p, auth, job.prev, rest);
    if r.Some? {
      assert From(file, job.pos + 40 + |r.value|) == rest[40 + |r.value|..];
    }
  }

  lemma StaysSerial(p: Primitives, auth: Block, s: State, step: Step)
    requires Serial(p, auth, s) && !Overlaps(s, step) && Fits(s, step)
    ensures Serial(p, auth, Apply(p, auth, s, step))
  {
    hide Intact, UpToDate, Apply;
    var r := Apply(p, auth, s, step);
    SerialDoesNotHarm(p, auth, s, step);
    StepKeeps(p, auth, s, step);
    OneThreadMoves(p, auth, s, step);
    if r != s {
      StaysUpToDate(p, auth, s, step);
      forall k | 0 <= k < |r.jobs| && k != step.i
        ensures UpToDate(p, auth, r.file, r.jobs[k])
      {
        assert r.jobs[k].Idle?;
        IdleIsUpToDate(p, auth, r.file);
      }
    }
  }

  lemma IdleIsUpToDate(p: Primitives, auth: Block, file: bytes)
    ensures UpToDate(p, auth, file, Idle)
  {
  }

  /** The thread that takes a step is the only one that is not idle. */
  lemma OneThreadMoves(p: Primitives, auth: Block, s: State, step: Step)
    requires forall i, j | 0 <= i < j < |s.jobs| :: s.jobs[i].Idle? || s.jobs[j].Idle?
    requires !Overlaps(s, step)
    ensures var r := Apply(p, auth, s, step);
      && |r.jobs| == |s.jobs|
      && (r != s ==> step.i < |s.jobs| && forall k | 0 <= k < |r.jobs| && k != step.i :: r.jobs[k].Idle?)
  {
    hide Overwrite, Header, Mac, Wrap64, ParseRecord, Authentic, FileLength, RecordCount;
  }

  /** A schedule in which no operation begins before the one before it is over does no harm, whatever each
      of them adds or loads. */
  lemma {:induction false} NoHarmWithoutOverlap(p: Primitives, auth: Block, threads: nat, run: seq<Step>)
    requires !Overlapped(p, auth, threads, run) && AllFit(p, auth, threads, run)
    ensures !Harmed(p, auth, threads, run) && Serial(p, auth, Run(p, auth, threads, run))
  {
    hide Apply, Serial, Harms, Overlaps, Fits;
    if run == [] {
      StartIsSerial(p, auth, threads);
    } else {
      var front := run[..|run| - 1];
      NoHarmWithoutOverlap(p, auth, threads, front);
      SerialDoesNotHarm(p, auth, Run(p, auth, threads, front), run[|run| - 1]);
      StaysSerial(p, auth, Run(p, auth, threads, front), run[|run| - 1]);
    }
  }

  /** So then nothing is lost. */
  lemma NothingLostWithoutOverlap(p: Primitives, auth: Block, threads: nat, run: seq<Step>)
    requires !Overlapped(p, auth, threads, run) && AllFit(p, auth, threads, run) && AtRest(Run(p, auth, threads, run))
    ensures var s := Run(p, auth, threads, run);
      && s.handed <= s.added && s.added == s.handed + Waiting(s)
      && s.file == Canonical(p, auth, Waiting(s)) && Load(p, auth, s.file) == Some(Waiting(s))
  {
    hide *;
    NoHarmWithoutOverlap(p, auth, threads, run);
    NothingLostUnlessHarmed(p, auth, threads, run);
  }

  lemma StartIsSerial(p: Primitives, auth: Block, threads: nat)
    ensures Serial(p, auth, Start(p, auth, threads))
  {
    hide Whole, Canonical, Load;
    StartIsWhole(p, auth, threads);
  }

  // ----- whole operations -----

  lemma RunOneMore(p: Primitives, auth: Block, threads: nat, run: seq<Step>, step: Step)
    ensures Run(p, auth, threads, run + [step]) == Apply(p, auth, Run(p, auth, threads, run), step)
  {
    hide Apply;
    assert (run + [step])[..|run|] == run;
  }

  lemma {:induction false} LeaveJoined(queue: seq<nat>, i: nat)
    requires i !in queue
    ensures Leave(queue + [i], i) == queue
  {
    if queue == [] {
      assert [i][1..] == [];
    } else {
      LeaveJoined(queue[1..], i);
      assert (queue + [i])[1..] == queue[1..] + [i];
    }
  }

  /** The steps of undel_add_message. */
  function Adding(i: nat, m: bytes): seq<Step> {
    [ReadHeader(i, m), WriteHeader(i), ReadMac(i), WriteSize(i), WriteText(i), WriteMac(i)]
  }

  /** The state after them when nobody else takes a step. */
  function AfterAdding(p: Primitives, auth: Block, s: State, i: nat, m: bytes): State {
    var s1 := Apply(p, auth, s, ReadHeader(i, m));
    var s2 := Apply(p, auth, s1, WriteHeader(i));
    var s3 := Apply(p, auth, s2, ReadMac(i));
    var s4 := Apply(p, auth, s3, WriteSize(i));
    var s5 := Apply(p, auth, s4, WriteText(i));
    Apply(p, auth, s5, WriteMac(i))
  }

  lemma AddingRuns(p: Primitives, auth: Block, threads: nat, run: seq<Step>, i: nat, m: bytes)
    ensures Run(p, auth, threads, run + Adding(i, m)) == AfterAdding(p, auth, Run(p, auth, threads, run), i, m)
  {
    hide Run, Apply;
    var r1 := run + [ReadHeader(i, m)];
    var r2 := r1 + [WriteHeader(i)];
    var r3 := r2 + [ReadMac(i)];
    var r4 := r3 + [WriteSize(i)];
    var r5 := r4 + [WriteText(i)];
    RunOneMore(p, auth, threads, run, ReadHeader(i, m));
    RunOneMore(p, auth, threads, r1, WriteHeader(i));
    RunOneMore(p, auth, threads, r2, ReadMac(i));
    RunOneMore(p, auth, threads, r3, WriteSize(i));
    RunOneMore(p, auth, threads, r4, WriteText(i));
    RunOneMore(p, auth, threads, r5, WriteMac(i));
    assert run + Adding(i, m) == r5 + [WriteMac(i)];
  }

  /** The three writes of a record at the position that was found. */
  lemma RecordAtOnce(p: Primitives, auth: Block, s: State, i: nat, m: bytes, at: nat, prev: Block)
    requires i < |s.jobs| && s.jobs[i] == Chained(m, at, prev)
    ensures var s4 := Apply(p, auth, s, WriteSize(i)); var s5 := Apply(p, auth, s4, WriteText(i));
      var st := RecordStages(p, auth, s.file, at, prev, m);
      Apply(p, auth, s5, WriteMac(i)) ==
        Ended(s.(file := st[|st| - 1], added := if m == [] then s.added else s.added + [m]), i)
  {
    hide Overwrite, Mac, Wrap64, Leave, Apply, Ended;
    SizeWritten(p, auth, s, i);
    var d2 := Overwrite(s.file, at, Be64(Wrap64(|m|)));
    if m == [] {
      IdleThen(s.(file := d2), i);
      NothingAfter(p, auth, Ended(s.(file := d2), i), i);
    } else {
      var s4 := Going(s, i, d2, Sized(m, at, prev));
      TextGoes(p, auth, s4, i);
      var s5 := Going(s4, i, Overwrite(d2, at + 8, m), Filled(m, at, prev));
      MacWritten(p, auth, s5, i);
      LastOverwrites(s, s5, i, m, at, prev, Mac(p, auth, prev, m));
    }
  }

  lemma SizeWritten(p: Primitives, auth: Block, s: State, i: nat)
    requires i < |s.jobs| && s.jobs[i].Chained?
    ensures var Chained(m, at, prev) := s.jobs[i]; var d2 := Overwrite(s.file, at, Be64(Wrap64(|m|)));
      Apply(p, auth, s, WriteSize(i)) == if m == [] then Ended(s.(file := d2), i) else Going(s, i, d2, Sized(m, at, prev))
  {
    hide Overwrite, Wrap64, Leave;
  }

  lemma IdleThen(s: State, i: nat)
    requires i < |s.jobs|
    ensures i < |Ended(s, i).jobs| && Ended(s, i).jobs[i].Idle?
  {
    hide Leave;
  }

  /** An idle thread has no text and no MAC to write. */
  lemma NothingAfter(p: Primitives, auth: Block, s: State, i: nat)
    requires i < |s.jobs| && s.jobs[i].Idle?
    ensures Apply(p, auth, Apply(p, auth, s, WriteText(i)), WriteMac(i)) == s
  {
  }

  lemma MacWritten(p: Primitives, auth: Block, s: State, i: nat)
    requires i < |s.jobs| && s.jobs[i].Filled?
    ensures var Filled(m, at, prev) := s.jobs[i];
      Apply(p, auth, s, WriteMac(i)) ==
        Ended(s.(file := Overwrite(s.file, at + 8 + |m|, Mac(p, auth, prev, m)), added := s.added + [m]), i)
  {
    hide Overwrite, Mac, Leave;
  }

  lemma LastOverwrites(s: State, s5: State, i: nat, m: bytes, at: nat, prev: Block, mac: Block)
    requires i < |s.jobs| && s5 == WithJob(s.(file := s5.file), i, Filled(m, at, prev))
    ensures Ended(s5.(file := Overwrite(s5.file, at + 8 + |m|, mac), added := s5.added + [m]), i)
         == Ended(s.(file := Overwrite(s5.file, at + 8 + |m|, mac), added := s.added + [m]), i)
  {
    hide Overwrite, Leave;
    assert s5.jobs[i := Idle] == s.jobs[i := Idle];
  }

  /** Taken without a break on any file they do what AfterAdd says, as Routing.Store takes for granted; the
      append is completed exactly when all of its writes happen. */
  lemma AddingIsOneStep(p: Primitives, auth: Block, s: State, i: nat, m: bytes)
    requires i < |s.jobs| && s.jobs[i].Idle? && i !in s.queue && |m| < TWO64
    ensures AfterAdding(p, auth, s, i, m) ==
      s.(file := AfterAdd(p, auth, s.file, m), added := if |AddStages(p, auth, s.file, m)| == 5 then s.added + [m] else s.added)
  {
    hide Overwrite, Mac, Wrap64, Leave, Header, Authentic, FileLength, RecordCount;
    LeaveJoined(s.queue, i);
    if Authentic(p, auth, s.file) {
      AddingToFile(p, auth, s, i, m);
    }
  }

  lemma AddingToFile(p: Primitives, auth: Block, s: State, i: nat, m: bytes)
    requires i < |s.jobs| && s.jobs[i].Idle? && i !in s.queue && |m| < TWO64 && Authentic(p, auth, s.file)
    ensures AfterAdding(p, auth, s, i, m) ==
      s.(file := AfterAdd(p, auth, s.file, m), added := if |AddStages(p, auth, s.file, m)| == 5 then s.added + [m] else s.added)
  {
    hide Overwrite, Mac, Wrap64, Leave, Header, Authentic, FileLength, RecordCount, RecordStages, Apply;
    LeaveJoined(s.queue, i);
    var flen, mnum := FileLength(s.file), RecordCount(s.file);
    var h := Header(p, auth, Wrap64(flen as nat + 8 + |m| + 32), Wrap64(mnum as nat + 1));
    var d1, at := Overwrite(s.file, 0, h), Wrap64(flen as int - 32);
    var s2 := WithJob(s.(file := d1, queue := s.queue + [i]), i, Headed(m, flen, mnum));
    HeaderAtOnce(p, auth, s, i, m);
    if at >= TWO63 || at + 32 > |d1| {
      MacMissing(p, auth, s2, i);
      assert Ended(s2, i) == s.(file := d1);
      NothingWhileIdle(p, auth, s.(file := d1), i);
    } else {
      var prev := if mnum == 0 then INITIAL_MAC else d1[at..at + 32];
      var s3 := WithJob(s2, i, Chained(m, at + 32, prev));
      MacFound(p, auth, s2, i, s3);
      RecordAtOnce(p, auth, s3, i, m, at + 32, prev);
      var st := RecordStages(p, auth, d1, at + 32, prev, m);
      var added := if m == [] then s.added else s.added + [m];
      assert Ended(s3.(file := st[|st| - 1], added := added), i) == s.(file := st[|st| - 1], added := added);
    }
  }

  lemma HeaderAtOnce(p: Primitives, auth: Block, s: State, i: nat, m: bytes)
    requires i < |s.jobs| && s.jobs[i].Idle? && |m| < TWO64 && Authentic(p, auth, s.file)
    ensures var flen, mnum := FileLength(s.file), RecordCount(s.file);
      var h := Header(p, auth, Wrap64(flen as nat + 8 + |m| + 32), Wrap64(mnum as nat + 1));
      Apply(p, auth, Apply(p, auth, s, ReadHeader(i, m)), WriteHeader(i)) ==
        WithJob(s.(file := Overwrite(s.file, 0, h), queue := s.queue + [i]), i, Headed(m, flen, mnum))
  {
    hide Overwrite, Wrap64, Header, Authentic, FileLength, RecordCount;
  }

  lemma MacMissing(p: Primitives, auth: Block, s: State, i: nat)
    requires i < |s.jobs| && s.jobs[i].Headed?
    requires var at := Wrap64(s.jobs[i].flen as int - 32); at >= TWO63 || at + 32 > |s.file|
    ensures Apply(p, auth, s, ReadMac(i)) == Ended(s, i)
  {
    hide Wrap64;
  }

  lemma MacFound(p: Primitives, auth: Block, s: State, i: nat, r: State)
    requires i < |s.jobs| && s.jobs[i].Headed?
    requires var Headed(m, flen, mnum) := s.jobs[i]; var at := Wrap64(flen as int - 32);
      && at < TWO63 && at + 32 <= |s.file|
      && r == WithJob(s, i, Chained(m, at + 32, if mnum == 0 then INITIAL_MAC else s.file[at..at + 32]))
    ensures Apply(p, auth, s, ReadMac(i)) == r
  {
    hide Wrap64;
  }

  /** An idle thread has no record to write. */
  lemma NothingWhileIdle(p: Primitives, auth: Block, s: State, i: nat)
    requires i < |s.jobs| && s.jobs[i].Idle?
    ensures Apply(p, auth, Apply(p, auth, Apply(p, auth, s, WriteSize(i)), WriteText(i)), WriteMac(i)) == s
  {
  }

  /** The thread has given up, or has read all of the records. */
  ghost predicate ReadOut(s: State, r: State, i: nat, all: Option<Messages>) {
    i < |s.jobs| &&
    match all
    case None => r == WithJob(s, i, Idle)
    case Some(ms) => exists pos: nat, prev: Block :: r == WithJob(s, i, Loading(0, pos, prev, ms))
  }

  lemma ReadOutLater(s: State, next: State, r: State, i: nat, job: Job, all: Option<Messages>)
    requires i < |s.jobs| && next == WithJob(s, i, job) && ReadOut(next, r, i, all)
    ensures ReadOut(s, r, i, all)
  {
    match all
    case None => assert WithJob(next, i, Idle) == WithJob(s, i, Idle);
    case Some(ms) => {
      var pos: nat, prev: Block :| r == WithJob(next, i, Loading(0, pos, prev, ms));
      assert WithJob(next, i, Loading(0, pos, prev, ms)) == WithJob(s, i, Loading(0, pos, prev, ms));
    }
  }

  lemma {:induction false} ReadingRecords(p: Primitives, auth: Block, threads: nat, run: seq<Step>, i: nat)
    returns (more: seq<Step>)
    requires var s := Run(p, auth, threads, run); i < |s.jobs| && s.jobs[i].Loading?
    ensures var s := Run(p, auth, threads, run); var job := s.jobs[i];
      ReadOut(s, Run(p, auth, threads, more), i, Onto(job.got, ParseRecords(p, auth, job.prev, job.left, From(s.file, job.pos))))
    decreases Run(p, auth, threads, run).jobs[i].left
  {
    hide Run, ParseRecord, ParseRecords, Apply, From;
    var s := Run(p, auth, threads, run);
    var job := s.jobs[i];
    var rest := From(s.file, job.pos);
    if job.left == 0 {
      more := run;
      ParseNothing(p, auth, job.prev, rest);
      OntoNone(job.got);
      assert s == WithJob(s, i, Loading(0, job.pos, job.prev, job.got));
    } else {
      OntoStep(p, auth, job.prev, job.left, rest, job.got);
      RunOneMore(p, auth, threads, run, ReadRecord(i));
      more := run + [ReadRecord(i)];
      ReadsOne(p, auth, s, i);
      if ParseRecord(p, auth, job.prev, rest).Some? {
        var next := Run(p, auth, threads, more);
        var more' := ParseRecords(p, auth, next.jobs[i].prev, next.jobs[i].left, From(next.file, next.jobs[i].pos));
        var all := Onto(next.jobs[i].got, more');
        more := ReadingRecords(p, auth, threads, more, i);
        ReadOutLater(s, next, Run(p, auth, threads, more), i, next.jobs[i], all);
      }
    }
  }

  lemma ReadsOne(p: Primitives, auth: Block, s: State, i: nat)
    requires i < |s.jobs| && s.jobs[i].Loading? && s.jobs[i].left > 0
    ensures var job := s.jobs[i]; var rest := From(s.file, job.pos); var r := ParseRecord(p, auth, job.prev, rest);
      && (r.None? ==> Apply(p, auth, s, ReadRecord(i)) == WithJob(s, i, Idle))
      && (r.Some? ==>
            && From(s.file, job.pos + 40 + |r.value|) == rest[40 + |r.value|..]
            && Apply(p, auth, s, ReadRecord(i)) == WithJob(s, i, Loading(job.left - 1, job.pos + 40 + |r.value|,
                 rest[8 + |r.value|..40 + |r.value|], job.got + [r.value])))
  {
    hide ParseRecord;
  }

  /** A load without a break gives back what the file loads as and leaves an empty log, as Routing.Fetched
      takes for granted; a file that does not load is left alone. */
  lemma LoadingIsOneStep(p: Primitives, auth: Block, threads: nat, run: seq<Step>, i: nat) returns (more: seq<Step>)
    requires var s := Run(p, auth, threads, run); i < |s.jobs| && s.jobs[i].Idle?
    ensures var s, r := Run(p, auth, threads, run), Run(p, auth, threads, more);
      match Load(p, auth, s.file)
      case None => r == s
      case Some(ms) => r == s.(file := Canonical(p, auth, []), handed := s.handed + ms)
  {
    hide *;
    var s, all := Run(p, auth, threads, run), Load(p, auth, Run(p, auth, threads, run).file);
    if Authentic(p, auth, s.file) {
      more := ReadingAll(p, auth, threads, run, i);
      if all.Some? {
        more := Emptying(p, auth, threads, more, s, i, all.value);
      } else {
        ReadNothing(s, Run(p, auth, threads, more), i);
      }
    } else {
      RefusedAtOnce(p, auth, s.file);
      more := run;
    }
  }

  lemma RefusedAtOnce(p: Primitives, auth: Block, file: bytes)
    requires !Authentic(p, auth, file)
    ensures Load(p, auth, file) == None
  {
    hide Authentic;
  }

  lemma ReadNothing(s: State, r: State, i: nat)
    requires i < |s.jobs| && s.jobs[i].Idle? && ReadOut(s, r, i, None)
    ensures r == s
  {
    assert WithJob(s, i, Idle) == s;
  }

  lemma ReadingAll(p: Primitives, auth: Block, threads: nat, run: seq<Step>, i: nat) returns (more: seq<Step>)
    requires var s := Run(p, auth, threads, run); i < |s.jobs| && s.jobs[i].Idle? && Authentic(p, auth, s.file)
    ensures ReadOut(Run(p, auth, threads, run), Run(p, auth, threads, more), i, Load(p, auth, Run(p, auth, threads, run).file))
  {
    hide Run, ParseRecords, ReadOut, RecordCount, Authentic;
    var s := Run(p, auth, threads, run);
    RunOneMore(p, auth, threads, run, OpenLoad(i));
    more := run + [OpenLoad(i)];
    OntoNothing(ParseRecords(p, auth, INITIAL_MAC, RecordCount(s.file), s.file[0x30..]));
    var begun := Run(p, auth, threads, more);
    assert begun == WithJob(s, i, Loading(RecordCount(s.file), 0x30, INITIAL_MAC, []));
    more := ReadingRecords(p, auth, threads, more, i);
    ReadOutLater(s, begun, Run(p, auth, threads, more), i, begun.jobs[i], Load(p, auth, s.file));
  }

  lemma Emptying(p: Primitives, auth: Block, threads: nat, run: seq<Step>, s: State, i: nat, ms: Messages)
    returns (more: seq<Step>)
    requires i < |s.jobs| && s.jobs[i].Idle? && ReadOut(s, Run(p, auth, threads, run), i, Some(ms))
    ensures Run(p, auth, threads, more) == s.(file := Canonical(p, auth, []), handed := s.handed + ms)
  {
    hide Run, Canonical, Apply;
    var begun := Run(p, auth, threads, run);
    RunOneMore(p, auth, threads, run, Truncate(i));
    more := run + [Truncate(i)];
    RunOneMore(p, auth, threads, more, Restart(i));
    more := more + [Restart(i)];
    EmptiesAndRestarts(p, auth, s, begun, i, ms);
  }

  lemma EmptiesAndRestarts(p: Primitives, auth: Block, s: State, begun: State, i: nat, ms: Messages)
    requires i < |s.jobs| && s.jobs[i].Idle? && ReadOut(s, begun, i, Some(ms))
    ensures Apply(p, auth, Apply(p, auth, begun, Truncate(i)), Restart(i)) ==
      s.(file := Canonical(p, auth, []), handed := s.handed + ms)
  {
    hide Canonical, Header, Overwrite;
    RestartsEmpty(p, auth);
  }

  lemma RestartsEmpty(p: Primitives, auth: Block)
    ensures Overwrite([], 0, Header(p, auth, 0x30, 0)) == Canonical(p, auth, [])
  {
    hide Header, Overwrite;
    OverwriteNothing(Header(p, auth, 0x30, 0));
  }
}
