/** Several threads that send through one keyset with no lock around it, as the server's threads do when
    they pass letters on: sealing a text, counting it and queueing it are separate steps. */
module SharedKeyset {
  import opened Bytes
  import opened Crypto
  import opened MessageQueue
  import opened Options
  import opened SecureChannel
  import opened Sequences
  import Duplex

  /** A text on its way, and what the counter showed each of the three times that encrypt_message read it:
      for the sequence number, for the head of the text, and for the cipher. */
  datatype Draft = Draft(text: bytes, seqNum: uint64, head: uint64, cipher: uint64)

  /** How far a thread has come with send_message. */
  datatype Job =
    | Idle
    | Numbered(text: bytes, seqNum: uint64)
    | Headed(text: bytes, seqNum: uint64, head: uint64)
    | Ciphered(d: Draft)
    | Counting(d: Draft, value: uint64)
    | Counted(d: Draft)

  /** The counter, the threads, the sequence numbers given out, and what was queued. */
  datatype State = State(nonce: uint64, jobs: seq<Job>, given: seq<uint64>, queue: seq<Draft>)

  datatype Step =
    | Number(i: nat, text: bytes)
    | Head(i: nat)
    | Encrypt(i: nat)
    | Fetch(i: nat)
    | Store(i: nat)
    | Add(i: nat)

  function WithJob(s: State, i: nat, job: Job): State
    requires i < |s.jobs|
  {
    s.(jobs := s.jobs[i := job])
  }

  /** One step of one thread: the three reads of encrypt_message, the read and the write of the increment,
      and add_message.  A step that the thread cannot take now changes nothing. */
  function Apply(s: State, step: Step): State {
    if step.i >= |s.jobs| then s else
    var i, job := step.i, s.jobs[step.i];
    match step
    case Number(_, text) =>
      if job.Idle? then WithJob(s.(given := s.given + [s.nonce]), i, Numbered(text, s.nonce)) else s
    case Head(_) =>
      if job.Numbered? then WithJob(s, i, Headed(job.text, job.seqNum, s.nonce)) else s
    case Encrypt(_) =>
      if job.Headed? then WithJob(s, i, Ciphered(Draft(job.text, job.seqNum, job.head, s.nonce))) else s
    case Fetch(_) =>
      if job.Ciphered? then WithJob(s, i, Counting(job.d, s.nonce)) else s
    case Store(_) =>
      if job.Counting? then WithJob(s.(nonce := Wrap64((job.value as int) + 1)), i, Counted(job.d)) else s
    case Add(_) =>
      if job.Counted? then WithJob(s.(queue := s.queue + [job.d]), i, Idle) else s
  }

  function Start(from: uint64, threads: nat): State {
    State(from, seq(threads, _ => Idle), [], [])
  }

  function Run(from: uint64, threads: nat, run: seq<Step>): State {
    if run == [] then Start(from, threads) else
    Apply(Run(from, threads, run[..|run| - 1]), run[|run| - 1])
  }

  // ----- what is queued -----

  /** The message that a draft becomes. */
  function Body(p: Primitives, k: Keys, d: Draft): bytes {
    var b := Be64(d.head) + Stream(p, k.symm, d.cipher, 0, d.text);
    b + p.hmac(k.hmac, b)
  }

  function Messages(p: Primitives, k: Keys, ds: seq<Draft>): (r: seq<Message>)
    ensures |r| == |ds|
  {
    seq(|ds|, i requires 0 <= i < |ds| => Message(ds[i].seqNum, Body(p, k, ds[i])))
  }

  function TextsOf(ds: seq<Draft>): (r: seq<bytes>)
    ensures |r| == |ds|
  {
    seq(|ds|, i requires 0 <= i < |ds| => ds[i].text)
  }

  function NoncesOf(ds: seq<Draft>): (r: seq<uint64>)
    ensures |r| == |ds|
  {
    seq(|ds|, i requires 0 <= i < |ds| => ds[i].seqNum)
  }

  /** The counter showed the same at all three reads. */
  predicate Whole(d: Draft) {
    d.seqNum == d.head == d.cipher
  }

  predicate AllWhole(ds: seq<Draft>) {
    forall i | 0 <= i < |ds| :: Whole(ds[i])
  }

  /** A queued message always has a right MAC, and opens under the nonce at its head: as its text when the
      cipher ran under the same nonce. */
  lemma DraftOpens(p: Primitives, k: Keys, d: Draft)
    ensures Open(p, k, Body(p, k, d)) == Some(Stream(p, k.symm, d.head, 0, Stream(p, k.symm, d.cipher, 0, d.text)))
    ensures d.head == d.cipher ==> Open(p, k, Body(p, k, d)) == Some(d.text)
  {
    hide De64, Be64, Stream;
    var body, cipher := Body(p, k, d), Stream(p, k.symm, d.cipher, 0, d.text);
    DeBe64(d.head);
    StreamTwice(p, k.symm, d.cipher, 0, d.text);
    assert body[..8] == Be64(d.head) && body[8..|body| - 32] == cipher;
    assert body[..|body| - 32] == Be64(d.head) + cipher;
  }

  lemma WholeIsSealed(p: Primitives, k: Keys, ds: seq<Draft>)
    requires AllWhole(ds)
    ensures Messages(p, k, ds) == SealedAll(p, k, NoncesOf(ds), TextsOf(ds))
  {
    hide Stream, Be64;
    forall i | 0 <= i < |ds|
      ensures Messages(p, k, ds)[i] == SealedAll(p, k, NoncesOf(ds), TextsOf(ds))[i]
    {
      assert Whole(ds[i]);
    }
  }

  /** A step tears when it changes the counter while another thread is between its reads. */
  predicate Tears(s: State, step: Step) {
    && Apply(s, step).nonce != s.nonce
    && exists j :: 0 <= j < |s.jobs| && (s.jobs[j].Numbered? || s.jobs[j].Headed?)
  }

  predicate Torn(from: uint64, threads: nat, run: seq<Step>) {
    run != [] &&
    var front := run[..|run| - 1];
    Torn(from, threads, front) || Tears(Run(from, threads, front), run[|run| - 1])
  }

  /** What was read so far is what the counter shows. */
  predicate Sharp(s: State) {
    && AllWhole(s.queue)
    && forall i | 0 <= i < |s.jobs| :: match s.jobs[i]
         case Idle => true
         case Numbered(_, n) => n == s.nonce
         case Headed(_, n, m) => n == m == s.nonce
         case Ciphered(d) => Whole(d)
         case Counting(d, _) => Whole(d)
         case Counted(d) => Whole(d)
  }

  lemma StepStaysSharp(s: State, step: Step)
    requires Sharp(s) && !Tears(s, step)
    ensures Sharp(Apply(s, step))
  {
    hide Wrap64;
    var r := Apply(s, step);
    if r.nonce != s.nonce {
      forall j | 0 <= j < |s.jobs|
        ensures !s.jobs[j].Numbered? && !s.jobs[j].Headed?
      {
      }
    }
  }

  /** As long as no thread stores the counter between the reads of another, everything queued is sealed
      under one nonce each, in the order in which it was queued. */
  lemma {:induction false} SharpUnlessTorn(from: uint64, threads: nat, run: seq<Step>)
    requires !Torn(from, threads, run)
    ensures Sharp(Run(from, threads, run))
  {
    hide Apply, Sharp, Tears;
    if run == [] {
      StartIsSharp(from, threads);
    } else {
      SharpUnlessTorn(from, threads, run[..|run| - 1]);
      StepStaysSharp(Run(from, threads, run[..|run| - 1]), run[|run| - 1]);
    }
  }

  lemma StartIsSharp(from: uint64, threads: nat)
    ensures Sharp(Start(from, threads))
  {
  }

  /** A step blurs when it reads the counter and finds another number than the one that the text was given. */
  predicate Blurs(s: State, step: Step) {
    && step.i < |s.jobs|
    && ((step.Head? && s.jobs[step.i].Numbered? && s.jobs[step.i].seqNum != s.nonce)
        || (step.Encrypt? && s.jobs[step.i].Headed? && s.jobs[step.i].seqNum != s.nonce))
  }

  predicate Blurred(from: uint64, threads: nat, run: seq<Step>) {
    run != [] &&
    var front := run[..|run| - 1];
    Blurred(from, threads, front) || Blurs(Run(from, threads, front), run[|run| - 1])
  }

  predicate ClearJob(job: Job) {
    match job
    case Idle => true
    case Numbered(_, _) => true
    case Headed(_, n, m) => n == m
    case Ciphered(d) => Whole(d)
    case Counting(d, _) => Whole(d)
    case Counted(d) => Whole(d)
  }

  /** Whatever was read for a text so far, by a thread or in the queue, was the same number. */
  predicate Clear(s: State) {
    AllWhole(s.queue) && forall i | 0 <= i < |s.jobs| :: ClearJob(s.jobs[i])
  }

  lemma StepClears(s: State, step: Step)
    requires Clear(s)
    ensures Clear(Apply(s, step)) <==> !Blurs(s, step)
  {
    hide Wrap64;
    var r := Apply(s, step);
    if Blurs(s, step) {
      assert !ClearJob(r.jobs[step.i]);
    }
  }

  lemma UnclearForGood(s: State, step: Step)
    requires !Clear(s)
    ensures !Clear(Apply(s, step))
  {
    hide Wrap64, Whole;
    var r := Apply(s, step);
    if !AllWhole(s.queue) {
      var k :| 0 <= k < |s.queue| && !Whole(s.queue[k]);
      assert r.queue[k] == s.queue[k];
    } else {
      var i :| 0 <= i < |s.jobs| && !ClearJob(s.jobs[i]);
      StillUnclear(s, step, i);
    }
  }

  lemma StillUnclear(s: State, step: Step, i: nat)
    requires i < |s.jobs| && !ClearJob(s.jobs[i])
    ensures !Clear(Apply(s, step))
  {
    hide Wrap64;
    var r := Apply(s, step);
    if step.Add? && step.i == i && s.jobs[i].Counted? {
      assert r.queue[|s.queue|] == s.jobs[i].d;
    } else {
      assert !ClearJob(r.jobs[i]);
    }
  }

  /** Over every interleaving, each text is sealed under one nonce exactly when no thread reads the counter
      after it has changed since the text was given its number. */
  lemma {:induction false} ClearIffUnblurred(from: uint64, threads: nat, run: seq<Step>)
    ensures Clear(Run(from, threads, run)) <==> !Blurred(from, threads, run)
  {
    hide Apply, Clear, Blurs;
    if run == [] {
      StartIsClear(from, threads);
    } else {
      var front, step := run[..|run| - 1], run[|run| - 1];
      ClearIffUnblurred(from, threads, front);
      if Blurred(from, threads, front) {
        UnclearForGood(Run(from, threads, front), step);
      } else {
        StepClears(Run(from, threads, front), step);
      }
    }
  }

  lemma StartIsClear(from: uint64, threads: nat)
    ensures Clear(Start(from, threads))
  {
  }

  /** In particular when no thread stores the counter between the reads of another. */
  lemma ClearUnlessTorn(from: uint64, threads: nat, run: seq<Step>)
    requires !Torn(from, threads, run)
    ensures !Blurred(from, threads, run)
  {
    hide Run, Torn, Blurred;
    SharpUnlessTorn(from, threads, run);
    ClearIffUnblurred(from, threads, run);
  }

  /** So the other side of the channel opens everything that the server's threads sent, as the first texts
      in the order in which they were queued, whatever nonces repeat. */
  lemma ThreadsAreHeard(p: Primitives, from: uint64, threads: nat, run: seq<Step>, schedule: Duplex.Schedule,
                        s: Duplex.System, hello: seq<Message>, k: Keys)
    requires s == Duplex.Run(p, schedule) && !Blurred(from, threads, run)
    requires s.b.submitted == hello + Messages(p, k, Run(from, threads, run).queue)
    ensures Hears(p, s.a, hello, k, TextsOf(Run(from, threads, run).queue))
  {
    hide Hears, Duplex.Run, Run, Blurred, Messages, TextsOf, NoncesOf;
    var queue := Run(from, threads, run).queue;
    ClearIffUnblurred(from, threads, run);
    WholeIsSealed(p, k, queue);
    Duplex.DeliveredIsPrefix(p, schedule);
    HearsWhatIsSpoken(p, s.b, s.a, hello, k, NoncesOf(queue), TextsOf(queue));
  }

  // ----- which nonces are used -----

  /** A thread has taken a number and not yet stored the next one. */
  predicate Busy(job: Job) {
    job.Numbered? || job.Headed? || job.Ciphered? || job.Counting?
  }

  function NumberOf(job: Job): uint64
    requires Busy(job)
  {
    if job.Numbered? || job.Headed? then job.seqNum else job.d.seqNum
  }

  predicate AnyBusy(s: State) {
    exists j :: 0 <= j < |s.jobs| && Busy(s.jobs[j])
  }

  /** A step overlaps when it seals while another thread is between its seal and its increment. */
  predicate Overlaps(s: State, step: Step) {
    step.Number? && step.i < |s.jobs| && s.jobs[step.i].Idle? && AnyBusy(s)
  }

  predicate Overlapped(from: uint64, threads: nat, run: seq<Step>) {
    run != [] &&
    var front := run[..|run| - 1];
    Overlapped(from, threads, front) || Overlaps(Run(from, threads, front), run[|run| - 1])
  }

  /** One thread at a time: the numbers count up, and the counter shows the next one. */
  predicate Serial(s: State, from: uint64) {
    && (forall i, j | 0 <= i < j < |s.jobs| :: !Busy(s.jobs[i]) || !Busy(s.jobs[j]))
    && (forall i | 0 <= i < |s.given| :: s.given[i] == Wrap64(from + i))
    && (forall i | 0 <= i < |s.jobs| && Busy(s.jobs[i]) ::
          && s.given != [] && NumberOf(s.jobs[i]) == s.nonce == s.given[|s.given| - 1]
          && (s.jobs[i].Counting? ==> s.jobs[i].value == s.nonce))
    && (!AnyBusy(s) ==> s.nonce == Wrap64(from + |s.given|))
  }

  lemma NextNumber(from: uint64, n: nat)
    ensures Wrap64(Wrap64(from + n) as int + 1) == Wrap64(from + n + 1)
  {
  }

  lemma NumberStaysSerial(s: State, from: uint64, step: Step)
    requires Serial(s, from) && !Overlaps(s, step) && step.Number?
    ensures Serial(Apply(s, step), from)
  {
    hide Wrap64;
    if step.i < |s.jobs| && s.jobs[step.i].Idle? {
      assert Busy(Apply(s, step).jobs[step.i]);
    }
  }

  lemma StoreStaysSerial(s: State, from: uint64, i: nat)
    requires Serial(s, from)
    ensures Serial(Apply(s, Store(i)), from)
  {
    hide Wrap64;
    if i < |s.jobs| && s.jobs[i].Counting? {
      assert Busy(s.jobs[i]);
      NextNumber(from, |s.given| - 1);
    }
  }

  lemma OtherStaysSerial(s: State, from: uint64, step: Step)
    requires Serial(s, from) && !step.Number? && !step.Store?
    ensures Serial(Apply(s, step), from)
  {
    hide Wrap64;
    var r := Apply(s, step);
    assert forall j | 0 <= j < |s.jobs| :: Busy(r.jobs[j]) == Busy(s.jobs[j]);
  }

  lemma StepStaysSerial(s: State, from: uint64, step: Step)
    requires Serial(s, from) && !Overlaps(s, step)
    ensures Serial(Apply(s, step), from)
  {
    hide Serial, Apply;
    match step
    case Number(_, _) => NumberStaysSerial(s, from, step);
    case Store(i) => StoreStaysSerial(s, from, i);
    case _ => OtherStaysSerial(s, from, step);
  }

  predicate Increasing(ns: seq<uint64>) {
    forall i, j | 0 <= i < j < |ns| :: ns[i] < ns[j]
  }

  /** A seal that overlaps gives a number out a second time. */
  lemma OverlapRepeats(s: State, from: uint64, step: Step)
    requires Serial(s, from) && Overlaps(s, step)
    ensures SomeTwice(Apply(s, step).given)
  {
    hide Wrap64;
    var j :| 0 <= j < |s.jobs| && Busy(s.jobs[j]);
    var r, n := Apply(s, step).given, |s.given|;
    assert r[n - 1] == r[n];
  }

  lemma GivenGrows(s: State, step: Step)
    ensures s.given <= Apply(s, step).given
  {
    hide Wrap64;
  }

  /** Without an overlap the numbers count up from the first one; with an overlap one is given out twice. */
  lemma {:induction false} SerialUnlessOverlapped(from: uint64, threads: nat, run: seq<Step>)
    ensures !Overlapped(from, threads, run) ==> Serial(Run(from, threads, run), from)
    ensures Overlapped(from, threads, run) ==> SomeTwice(Run(from, threads, run).given)
  {
    hide Apply, Serial, Overlaps, SomeTwice;
    if run == [] {
      StartIsSerial(from, threads);
    } else {
      var front, step := run[..|run| - 1], run[|run| - 1];
      var s := Run(from, threads, front);
      SerialUnlessOverlapped(from, threads, front);
      if Overlapped(from, threads, front) {
        GivenGrows(s, step);
        TwiceForGood(s.given, Apply(s, step).given);
      } else if Overlaps(s, step) {
        OverlapRepeats(s, from, step);
      } else {
        StepStaysSerial(s, from, step);
      }
    }
  }

  lemma StartIsSerial(from: uint64, threads: nat)
    ensures Serial(Start(from, threads), from)
  {
  }

  lemma CountIncreasesIff(from: uint64, ns: seq<uint64>)
    requires forall i | 0 <= i < |ns| :: ns[i] == Wrap64(from + i)
    ensures Increasing(ns) <==> from + |ns| <= TWO64
  {
    if from + |ns| > TWO64 && |ns| > 1 {
      var i := TWO64 - from;
      if i < |ns| {
        assert ns[i - 1] == TWO64 - 1 && ns[i] == 0;
      }
    }
  }

  lemma CountRepeatsIff(from: uint64, ns: seq<uint64>)
    requires forall i | 0 <= i < |ns| :: ns[i] == Wrap64(from + i)
    ensures SomeTwice(ns) <==> |ns| > TWO64
  {
    if |ns| > TWO64 {
      assert ns[0] == ns[TWO64];
    }
    if i, j :| 0 <= i < j < |ns| && ns[i] == ns[j] {
      SameRemainder(from + i, from + j);
    }
  }

  lemma SameRemainder(a: nat, b: nat)
    requires a < b && Wrap64(a) == Wrap64(b)
    ensures b - a >= TWO64
  {
  }

  /** Over every interleaving, the numbers under which texts are sealed are increasing exactly when no
      thread seals between another's seal and increment and the counter does not wrap. */
  lemma NoncesIncreaseIff(from: uint64, threads: nat, run: seq<Step>)
    ensures var given := Run(from, threads, run).given;
      Increasing(given) <==> !Overlapped(from, threads, run) && from + |given| <= TWO64
  {
    hide Run, Overlapped, Wrap64;
    SerialUnlessOverlapped(from, threads, run);
    if !Overlapped(from, threads, run) {
      CountIncreasesIff(from, Run(from, threads, run).given);
    }
  }

  /** And no number is used twice exactly when no seal overlaps and there are at most 2^64 of them. */
  lemma NoncesRepeatIff(from: uint64, threads: nat, run: seq<Step>)
    ensures var given := Run(from, threads, run).given;
      SomeTwice(given) <==> Overlapped(from, threads, run) || |given| > TWO64
  {
    hide Run, Overlapped, SomeTwice, Wrap64;
    SerialUnlessOverlapped(from, threads, run);
    if !Overlapped(from, threads, run) {
      CountRepeatsIff(from, Run(from, threads, run).given);
    }
  }

  lemma {:induction false} NoTearWithoutOverlap(from: uint64, threads: nat, run: seq<Step>)
    requires !Overlapped(from, threads, run)
    ensures !Torn(from, threads, run)
  {
    hide Run, Serial, Overlaps, Tears;
    if run != [] {
      var front := run[..|run| - 1];
      NoTearWithoutOverlap(from, threads, front);
      SerialUnlessOverlapped(from, threads, front);
      SerialDoesNotTear(Run(from, threads, front), from, run[|run| - 1]);
    }
  }

  lemma SerialDoesNotTear(s: State, from: uint64, step: Step)
    requires Serial(s, from)
    ensures !Tears(s, step)
  {
    hide Wrap64;
    if Apply(s, step).nonce != s.nonce {
      forall j | 0 <= j < |s.jobs|
        ensures !s.jobs[j].Numbered? && !s.jobs[j].Headed?
      {
        assert Busy(s.jobs[step.i]);
      }
    }
  }

  // ----- one thread, and two -----

  /** A keyset that one thread uses never overlaps: the client's net_lock makes all its threads one. */
  lemma {:induction false} OneThreadNeverOverlaps(from: uint64, run: seq<Step>)
    ensures !Overlapped(from, 1, run) && |Run(from, 1, run).jobs| == 1
  {
    hide Apply;
    if run != [] {
      OneThreadNeverOverlaps(from, run[..|run| - 1]);
      SameThreads(Run(from, 1, run[..|run| - 1]), run[|run| - 1]);
    }
  }

  lemma SameThreads(s: State, step: Step)
    ensures |Apply(s, step).jobs| == |s.jobs|
  {
    hide Wrap64;
  }

  lemma RunOneMore(from: uint64, threads: nat, run: seq<Step>, step: Step)
    ensures Run(from, threads, run + [step]) == Apply(Run(from, threads, run), step)
  {
    hide Apply;
    assert (run + [step])[..|run|] == run;
  }

  /** encrypt_message, and what comes after it in send_message. */
  function Sealing(i: nat, text: bytes): seq<Step> {
    [Number(i, text), Head(i), Encrypt(i)]
  }

  function Passing(i: nat): seq<Step> {
    [Fetch(i), Store(i), Add(i)]
  }

  lemma SealingTakes(from: uint64, threads: nat, run: seq<Step>, i: nat, text: bytes)
    requires i < |Run(from, threads, run).jobs| && Run(from, threads, run).jobs[i].Idle?
    ensures var s := Run(from, threads, run); var n := s.nonce;
      Run(from, threads, run + Sealing(i, text)) == WithJob(s.(given := s.given + [n]), i, Ciphered(Draft(text, n, n, n)))
  {
    hide Run, Wrap64;
    RunOneMore(from, threads, run, Number(i, text));
    RunOneMore(from, threads, run + [Number(i, text)], Head(i));
    RunOneMore(from, threads, run + [Number(i, text)] + [Head(i)], Encrypt(i));
    assert run + Sealing(i, text) == run + [Number(i, text)] + [Head(i)] + [Encrypt(i)];
  }

  lemma PassingTakes(from: uint64, threads: nat, run: seq<Step>, i: nat)
    requires i < |Run(from, threads, run).jobs| && Run(from, threads, run).jobs[i].Ciphered?
    ensures var s := Run(from, threads, run);
      Run(from, threads, run + Passing(i)) ==
        WithJob(s.(nonce := Wrap64(s.nonce as int + 1), queue := s.queue + [s.jobs[i].d]), i, Idle)
  {
    hide Run, Wrap64;
    RunOneMore(from, threads, run, Fetch(i));
    RunOneMore(from, threads, run + [Fetch(i)], Store(i));
    RunOneMore(from, threads, run + [Fetch(i)] + [Store(i)], Add(i));
    assert run + Passing(i) == run + [Fetch(i)] + [Store(i)] + [Add(i)];
  }

  lemma MessagesSnoc(p: Primitives, k: Keys, ds: seq<Draft>, text: bytes, n: uint64)
    ensures Messages(p, k, ds + [Draft(text, n, n, n)]) == Messages(p, k, ds) + [Sealed(p, k, n, text)]
  {
    hide Stream, Be64;
  }

  /** Taken without a break the steps queue the text sealed under the counter and count once, as
      Keyset.Send does. */
  lemma SendingIsSend(p: Primitives, k: Keys, from: uint64, threads: nat, run: seq<Step>, i: nat, text: bytes)
    requires i < |Run(from, threads, run).jobs| && Run(from, threads, run).jobs[i].Idle?
    ensures var s, r := Run(from, threads, run), Run(from, threads, run + Sealing(i, text) + Passing(i));
      && r.nonce == Wrap64(s.nonce as int + 1) && r.jobs == s.jobs && r.given == s.given + [s.nonce]
      && Messages(p, k, r.queue) == Messages(p, k, s.queue) + [Sealed(p, k, s.nonce, text)]
  {
    hide Run, Wrap64, Sealed, Messages, Sealing, Passing;
    var s := Run(from, threads, run);
    SealingTakes(from, threads, run, i, text);
    PassingTakes(from, threads, run + Sealing(i, text), i);
    MessagesSnoc(p, k, s.queue, text, s.nonce);
  }

  lemma TwoSealed(from: uint64, a: bytes, b: bytes)
    ensures Run(from, 2, [] + Sealing(0, a) + Sealing(1, b)) ==
      State(from, [Ciphered(Draft(a, from, from, from)), Ciphered(Draft(b, from, from, from))], [from, from], [])
  {
    hide Wrap64, Sealing;
    SealingTakes(from, 2, [], 0, a);
    SealingTakes(from, 2, [] + Sealing(0, a), 1, b);
    assert Start(from, 2).jobs == [Idle, Idle];
  }

  /** Two letters for one user at the same moment: each is sealed as it should be, and both under one nonce. */
  lemma TwoUnderOneNonce(p: Primitives, k: Keys, from: uint64, a: bytes, b: bytes)
    ensures var run := Sealing(0, a) + Sealing(1, b) + Passing(0) + Passing(1);
      Messages(p, k, Run(from, 2, run).queue) == [Sealed(p, k, from, a), Sealed(p, k, from, b)]
  {
    hide Wrap64, Sealed, Messages, Sealing, Passing, Run;
    var run := [] + Sealing(0, a) + Sealing(1, b);
    TwoSealed(from, a, b);
    PassingTakes(from, 2, run, 0);
    PassingTakes(from, 2, run + Passing(0), 1);
    assert run + Passing(0) + Passing(1) == Sealing(0, a) + Sealing(1, b) + Passing(0) + Passing(1);
    NoMessages(p, k);
    MessagesSnoc(p, k, [], a, from);
    MessagesSnoc(p, k, [] + [Draft(a, from, from, from)], b, from);
  }

  lemma NoMessages(p: Primitives, k: Keys)
    ensures Messages(p, k, []) == []
  {
  }

  const PLAIN: Primitives := Primitives((_, _) => ZEROS, _ => ZEROS, (_, n, _) => if n == 0 then 0 else 1)

  const ZEROS: Block := seq(32, _ => 0)

  /** A text whose head and cipher saw different counters: it is queued with a right MAC, and opens as
      another text. */
  lemma TornOpensWrong(k: Keys) returns (run: seq<Step>)
    ensures var queue := Run(0, 2, run).queue;
      |queue| == 1 && queue[0].text == [0] && Open(PLAIN, k, Body(PLAIN, k, queue[0])) == Some([1])
  {
    hide Wrap64, Sealing, Passing;
    run := [];
    RunOneMore(0, 2, run, Number(0, [0]));
    run := run + [Number(0, [0])];
    RunOneMore(0, 2, run, Head(0));
    run := run + [Head(0)];
    hide Run;
    SealingTakes(0, 2, run, 1, [8]);
    run := run + Sealing(1, [8]);
    RunOneMore(0, 2, run, Fetch(1));
    run := run + [Fetch(1)];
    RunOneMore(0, 2, run, Store(1));
    run := run + [Store(1)];
    assert Run(0, 2, run).nonce == 1;
    RunOneMore(0, 2, run, Encrypt(0));
    run := run + [Encrypt(0)];
    PassingTakes(0, 2, run, 0);
    run := run + Passing(0);
    assert Run(0, 2, run).queue == [Draft([0], 0, 0, 1)];
    TornDraft(k);
  }

  lemma TornDraft(k: Keys)
    ensures Open(PLAIN, k, Body(PLAIN, k, Draft([0], 0, 0, 1))) == Some([1])
  {
    hide Open, Body, Xor;
    DraftOpens(PLAIN, k, Draft([0], 0, 0, 1));
    FlipBit();
    assert PLAIN.keystream(k.symm, 1, 0) == 1 && PLAIN.keystream(k.symm, 0, 0) == 0;
    assert Stream(PLAIN, k.symm, 1, 0, [0]) == [1];
    assert Stream(PLAIN, k.symm, 0, 0, [1]) == [1];
  }

  lemma FlipBit()
    ensures Xor(0, 1) == 1 && Xor(1, 0) == 1
  {
    XorNothing(7);
  }

  lemma {:induction false} XorNothing(n: nat)
    ensures XorBits(0, 0, n) == 0
  {
    if n > 0 {
      XorNothing(n - 1);
    }
  }
}
