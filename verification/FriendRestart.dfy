/** The counters of a friend over restarts of the client.  The friend file is written when a friend is
    added and at no other time, so a restart brings back counters that may be old. */
module FriendRestart {
  import opened Bytes
  import opened Crypto
  import opened Options
  import opened Sequences
  import M = FriendMessages

  /** The counters in use, those in the friend file, and for the record: the numbers under which messages
      were sent and the messages that were accepted. */
  datatype Client = Client(
    sNonce: uint64,
    rNonce: uint64,
    savedS: uint64,
    savedR: uint64,
    used: seq<uint64>,
    taken: seq<M.Taken>)

  datatype Step = Send | Receive(payload: bytes) | Save | Restart

  function Apply(p: Primitives, k: Keys, c: Client, step: Step): Client {
    match step
    case Send =>
      var n := Wrap64(c.sNonce as int + 1);
      c.(sNonce := n, used := if n == 0 then c.used else c.used + [n])
    case Receive(payload) =>
      if |payload| >= TWO64 then c else
      c.(rNonce := M.Judged(p, k, c.rNonce, payload).0, taken := c.taken + M.TookOne(p, k, c.rNonce, payload))
    case Save => c.(savedS := c.sNonce, savedR := c.rNonce)
    case Restart => c.(sNonce := c.savedS, rNonce := c.savedR)
  }

  /** From the moment the friend is added. */
  function Run(p: Primitives, k: Keys, run: seq<Step>): Client {
    if run == [] then Client(0, 0, 0, 0, [], []) else
    Apply(p, k, Run(p, k, run[..|run| - 1]), run[|run| - 1])
  }

  // ----- the sender -----

  /** The client was restarted when the file held a smaller sending counter than the one in use. */
  predicate Forgot(p: Primitives, k: Keys, run: seq<Step>) {
    run != [] &&
    var front := run[..|run| - 1];
    Forgot(p, k, front) || (run[|run| - 1] == Restart && Run(p, k, front).savedS < Run(p, k, front).sNonce)
  }

  /** And a message was sent after that. */
  predicate SentAfterForgetting(p: Primitives, k: Keys, run: seq<Step>) {
    run != [] &&
    var front := run[..|run| - 1];
    SentAfterForgetting(p, k, front) || (run[|run| - 1] == Send && Forgot(p, k, front))
  }

  /** The numbers used so far are 1, 2, 3 and so on; the counter is at the last one unless it was forgotten. */
  predicate Counts(c: Client, forgot: bool, n: nat) {
    && (forall i | 0 <= i < |c.used| :: c.used[i] == i + 1)
    && c.savedS <= c.sNonce <= |c.used| <= n
    && (forgot <==> c.sNonce < |c.used|)
  }

  lemma StepCounts(p: Primitives, k: Keys, c: Client, step: Step, forgot: bool, n: nat)
    requires Counts(c, forgot, n) && n + 1 < TWO64 && !(step == Send && forgot)
    ensures Counts(Apply(p, k, c, step), forgot || (step == Restart && c.savedS < c.sNonce), n + 1)
  {
    hide M.Judged, M.TookOne;
  }

  lemma SendRepeats(p: Primitives, k: Keys, c: Client, n: nat)
    requires Counts(c, true, n) && n + 1 < TWO64
    ensures SomeTwice(Apply(p, k, c, Send).used)
  {
    var r := Apply(p, k, c, Send).used;
    assert r[c.sNonce] == r[|c.used|];
  }

  lemma UsedGrows(p: Primitives, k: Keys, c: Client, step: Step)
    ensures c.used <= Apply(p, k, c, step).used
  {
    hide M.Judged, M.TookOne;
  }

  lemma {:induction false} CountsUnlessForgotten(p: Primitives, k: Keys, run: seq<Step>)
    requires |run| < TWO64
    ensures !SentAfterForgetting(p, k, run) ==> Counts(Run(p, k, run), Forgot(p, k, run), |run|)
    ensures SentAfterForgetting(p, k, run) ==> SomeTwice(Run(p, k, run).used)
  {
    hide Apply, Counts, SomeTwice;
    if run == [] {
      NothingCounted(p, k);
    } else {
      var front, step := run[..|run| - 1], run[|run| - 1];
      var c := Run(p, k, front);
      CountsUnlessForgotten(p, k, front);
      if SentAfterForgetting(p, k, front) {
        UsedGrows(p, k, c, step);
        TwiceForGood(c.used, Apply(p, k, c, step).used);
      } else if step == Send && Forgot(p, k, front) {
        SendRepeats(p, k, c, |front|);
      } else {
        StepCounts(p, k, c, step, Forgot(p, k, front), |front|);
      }
    }
  }

  lemma NothingCounted(p: Primitives, k: Keys)
    ensures Counts(Run(p, k, []), false, 0)
  {
  }

  /** Over every course of messages, saves and restarts, two messages are sent under one number and the
      same keys exactly when a message is sent after a restart that found a smaller counter in the file. */
  lemma NumberRepeatsIff(p: Primitives, k: Keys, run: seq<Step>)
    requires |run| < TWO64
    ensures SomeTwice(Run(p, k, run).used) <==> SentAfterForgetting(p, k, run)
  {
    hide Run, Forgot, SentAfterForgetting;
    CountsUnlessForgotten(p, k, run);
  }

  // ----- the same by the schedule alone -----

  lemma RunSnoc(p: Primitives, k: Keys, run: seq<Step>, step: Step)
    ensures Run(p, k, run + [step]) == Apply(p, k, Run(p, k, run), step)
  {
    hide Apply;
    assert (run + [step])[..|run|] == run;
  }

  /** A restart brings back both counters as they were at the last save, whatever came in between. */
  lemma RestartBringsBack(p: Primitives, k: Keys, run: seq<Step>, more: seq<Step>)
    requires Save !in more
    ensures var c, r := Run(p, k, run), Run(p, k, run + [Save] + more + [Restart]);
      r.sNonce == c.sNonce && r.rNonce == c.rNonce && r.used == Run(p, k, run + [Save] + more).used
  {
    hide Run, M.Judged, M.TookOne;
    RunSnoc(p, k, run, Save);
    SavedStays(p, k, run + [Save], more);
    RunSnoc(p, k, run + [Save] + more, Restart);
  }

  /** And when there was none, as they were when the friend was added. */
  lemma RestartForgetsAll(p: Primitives, k: Keys, run: seq<Step>)
    requires Save !in run
    ensures Run(p, k, run + [Restart]).sNonce == 0 && Run(p, k, run + [Restart]).rNonce == 0
  {
    hide M.Judged, M.TookOne;
    SavedStays(p, k, [], run);
    assert [] + run == run;
    RunSnoc(p, k, run, Restart);
  }

  lemma {:induction false} SavedStays(p: Primitives, k: Keys, run: seq<Step>, more: seq<Step>)
    requires Save !in more
    ensures Run(p, k, run + more).savedS == Run(p, k, run).savedS && Run(p, k, run + more).savedR == Run(p, k, run).savedR
    decreases |more|
  {
    hide Run, M.Judged, M.TookOne;
    if more == [] {
      assert run + more == run;
    } else {
      var n := |more| - 1;
      SavedStays(p, k, run, more[..n]);
      assert run + more == (run + more[..n]) + [more[n]] && more[n] in more;
      RunSnoc(p, k, run + more[..n], more[n]);
    }
  }

  /** A message was sent that the file does not know of and that no restart has made forgotten. */
  predicate UnsavedAt(run: seq<Step>, j: nat)
    requires j < |run|
  {
    run[j] == Send && Save !in run[j..] && Restart !in run[j..]
  }

  predicate Unsaved(run: seq<Step>) {
    exists j :: 0 <= j < |run| && UnsavedAt(run, j)
  }

  lemma UnsavedAtSnoc(run: seq<Step>, step: Step, j: nat)
    requires j < |run|
    ensures UnsavedAt(run + [step], j) <==> step != Save && step != Restart && UnsavedAt(run, j)
  {
    assert (run + [step])[j..] == run[j..] + [step];
  }

  lemma UnsavedSnoc(run: seq<Step>, step: Step)
    ensures Unsaved(run + [step]) <==> step == Send || (step != Save && step != Restart && Unsaved(run))
  {
    hide UnsavedAt;
    var all := run + [step];
    forall j | 0 <= j < |run|
      ensures UnsavedAt(all, j) <==> step != Save && step != Restart && UnsavedAt(run, j)
    {
      UnsavedAtSnoc(run, step, j);
    }
    SentLast(run, step);
  }

  lemma SentLast(run: seq<Step>, step: Step)
    ensures UnsavedAt(run + [step], |run|) <==> step == Send
  {
    assert (run + [step])[|run|..] == [step];
  }

  lemma {:induction false} BehindIffUnsaved(p: Primitives, k: Keys, run: seq<Step>)
    requires |run| < TWO64
    ensures var c := Run(p, k, run); c.savedS <= c.sNonce <= |run| && (c.savedS < c.sNonce <==> Unsaved(run))
  {
    hide Unsaved, M.Judged, M.TookOne;
    if run == [] {
      NothingUnsaved();
    } else {
      var n := |run| - 1;
      BehindIffUnsaved(p, k, run[..n]);
      assert run == run[..n] + [run[n]];
      UnsavedSnoc(run[..n], run[n]);
    }
  }

  lemma NothingUnsaved()
    ensures !Unsaved([])
  {
  }

  predicate ForgetsAt(run: seq<Step>, i: nat)
    requires i < |run|
  {
    run[i] == Restart && Unsaved(run[..i])
  }

  predicate Forgets(run: seq<Step>) {
    exists i :: 0 <= i < |run| && ForgetsAt(run, i)
  }

  lemma ForgetsSnoc(run: seq<Step>, step: Step)
    ensures Forgets(run + [step]) <==> Forgets(run) || (step == Restart && Unsaved(run))
  {
    hide Unsaved;
    var all := run + [step];
    forall i | 0 <= i <= |run|
      ensures all[..i] == run[..i]
    {
    }
    assert run[..|run|] == run;
    assert forall i | 0 <= i < |run| :: ForgetsAt(all, i) == ForgetsAt(run, i);
    assert ForgetsAt(all, |run|) == (step == Restart && Unsaved(run));
  }

  lemma {:induction false} ForgotIff(p: Primitives, k: Keys, run: seq<Step>)
    requires |run| < TWO64
    ensures Forgot(p, k, run) <==> Forgets(run)
  {
    hide Run, Unsaved, Forgets;
    if run == [] {
      NeverForgets();
    } else {
      var n := |run| - 1;
      ForgotIff(p, k, run[..n]);
      BehindIffUnsaved(p, k, run[..n]);
      assert run == run[..n] + [run[n]];
      ForgetsSnoc(run[..n], run[n]);
    }
  }

  lemma NeverForgets()
    ensures !Forgets([])
  {
  }

  lemma {:induction false} SentAfterIff(p: Primitives, k: Keys, run: seq<Step>)
    requires |run| < TWO64
    ensures SentAfterForgetting(p, k, run) <==> exists h :: 0 <= h < |run| && run[h] == Send && Forgets(run[..h])
  {
    hide Run, Forgot, Forgets;
    if run != [] {
      var n := |run| - 1;
      SentAfterIff(p, k, run[..n]);
      ForgotIff(p, k, run[..n]);
      forall h | 0 <= h < n
        ensures run[..n][..h] == run[..h]
      {
      }
      assert run[..n] == run[..n][..n];
      if h :| 0 <= h < n && run[..n][h] == Send && Forgets(run[..n][..h]) {
        assert run[h] == Send && Forgets(run[..h]);
      }
      if h :| 0 <= h < |run| && run[h] == Send && Forgets(run[..h]) {
        assert h < n ==> run[..n][h] == Send && Forgets(run[..n][..h]);
      }
    }
  }

  /** A message, a restart with no save or restart in between, and another message. */
  predicate ForgottenBetween(run: seq<Step>, j: nat, i: nat, h: nat) {
    && j < i < h < |run|
    && run[j] == Send && run[i] == Restart && run[h] == Send
    && Save !in run[j..i] && Restart !in run[j..i]
  }

  /** So two messages are sent under one number exactly when the schedule holds these three, in this order. */
  lemma NumberRepeatsBySchedule(p: Primitives, k: Keys, run: seq<Step>)
    requires |run| < TWO64
    ensures SomeTwice(Run(p, k, run).used) <==> exists j: nat, i: nat, h: nat :: ForgottenBetween(run, j, i, h)
  {
    hide Run, SomeTwice, SentAfterForgetting;
    NumberRepeatsIff(p, k, run);
    SentAfterIff(p, k, run);
    if h :| 0 <= h < |run| && run[h] == Send && Forgets(run[..h]) {
      var i :| 0 <= i < |run[..h]| && ForgetsAt(run[..h], i);
      assert run[..h][..i] == run[..i];
      var j :| 0 <= j < |run[..i]| && UnsavedAt(run[..i], j);
      assert run[..i][j..] == run[j..i];
      assert ForgottenBetween(run, j, i, h);
    }
    if j: nat, i: nat, h: nat :| ForgottenBetween(run, j, i, h) {
      assert run[..h][..i] == run[..i] && run[..i][j..] == run[j..i] && UnsavedAt(run[..i], j);
      assert ForgetsAt(run[..h], i);
      assert Forgets(run[..h]);
    }
  }

  lemma RunThree(p: Primitives, k: Keys, a: Step, b: Step, c: Step)
    ensures Run(p, k, [a, b, c]) == Apply(p, k, Apply(p, k, Apply(p, k, Run(p, k, []), a), b), c)
  {
    hide Apply;
    assert [a, b, c][..2] == [a, b] && [a, b][..1] == [a] && [a][..0] == [];
    assert Run(p, k, [a]) == Apply(p, k, Run(p, k, []), a);
    assert Run(p, k, [a, b]) == Apply(p, k, Run(p, k, [a]), b);
  }

  /** The shortest one: send, restart, send. */
  lemma SameNumberAfterRestart(p: Primitives, k: Keys)
    ensures Run(p, k, [Send, Restart, Send]).used == [1, 1] && SentAfterForgetting(p, k, [Send, Restart, Send])
  {
    hide SentAfterForgetting;
    RunThree(p, k, Send, Restart, Send);
    NumberRepeatsIff(p, k, [Send, Restart, Send]);
    assert [1, 1][0] == [1, 1][1];
  }

  // ----- what the friend makes of a restarted sender -----

  lemma SentFits(p: Primitives, k: Keys, from: nat, texts: seq<bytes>)
    requires from + |texts| < TWO64 && forall t | t in texts :: |t| + 0x31 < TWO64
    ensures M.AllFit(M.Sent(p, k, from, texts))
  {
    hide M.Payload;
    forall i | 0 <= i < |texts|
      ensures |M.Sent(p, k, from, texts)[i]| < TWO64
    {
      assert texts[i] in texts;
    }
  }

  /** What a message of the friend adds to what was taken. */
  lemma TookGenuine(p: Primitives, k: Keys, last: uint64, nonce: uint64, text: bytes)
    requires |text| + 0x31 < TWO64
    ensures var payload := M.Payload(p, k, 0, nonce, text);
      && M.Judged(p, k, last, payload).0 == (if nonce > last then nonce else last)
      && M.TookOne(p, k, last, payload) == if nonce > last then [M.Taken(nonce, text)] else []
  {
    hide M.Judged, M.Payload;
    M.PayloadJudged(p, k, last, 0, nonce, text);
  }

  /** The texts from number `skipped` on. */
  function Rest(texts: seq<bytes>, skipped: nat): seq<bytes> {
    texts[Min(|texts|, skipped)..]
  }

  lemma RestSnoc(texts: seq<bytes>, text: bytes, skipped: nat)
    ensures Rest(texts + [text], skipped) == Rest(texts, skipped) + if |texts| >= skipped then [text] else []
  {
  }

  /** Messages are refused until their numbers pass the last one that was seen. */
  lemma {:induction false} StaleAreRefused(p: Primitives, k: Keys, top: uint64, from: nat, texts: seq<bytes>)
    requires from <= top && from + |texts| < TWO64 && forall t | t in texts :: |t| + 0x31 < TWO64
    ensures M.AllFit(M.Sent(p, k, from, texts))
    ensures var (l, taken) := M.Inbox(p, k, top, M.Sent(p, k, from, texts));
      && l == (if from + |texts| > top then from + |texts| else top)
      && M.Texts(taken) == Rest(texts, top - from)
    decreases |texts|
  {
    hide M.Judged, M.Payload, M.TookOne, M.Sent, M.Texts, Rest;
    SentFits(p, k, from, texts);
    if texts == [] {
      NothingSent(p, k, top, from);
    } else {
      var n := |texts| - 1;
      var front, text := texts[..n], texts[n];
      assert texts == front + [text];
      hide M.Inbox;
      StaleAreRefused(p, k, top, from, front);
      var (l, taken) := M.Inbox(p, k, top, M.Sent(p, k, from, front));
      M.SentSnoc(p, k, from, front, text);
      M.InboxSnoc(p, k, top, M.Sent(p, k, from, front), M.Payload(p, k, 0, from + 1 + n, text));
      TookGenuine(p, k, l, from + 1 + n, text);
      RestSnoc(front, text, top - from);
      M.TakeOne(taken, from + 1 + n, text);
    }
  }

  lemma NothingSent(p: Primitives, k: Keys, top: uint64, from: nat)
    requires from <= top
    ensures M.Sent(p, k, from, []) == [] && M.Texts(M.Inbox(p, k, top, []).1) == [] && M.Inbox(p, k, top, []).0 == top
    ensures Rest([], top - from) == []
  {
  }

  /** The friend has everything that was sent before the restart, which brings the counter back from
      from + before to an older value.  Of what is sent after it the first ones are refused, as many as the
      counter went back by, and the rest is accepted. */
  lemma RefusedAfterRestart(p: Primitives, k: Keys, from: uint64, before: seq<bytes>, back: uint64, after: seq<bytes>)
    requires from + |before| < TWO64 && back <= from + |before| && back + |after| < TWO64
    requires forall t | t in before :: |t| + 0x31 < TWO64
    requires forall t | t in after :: |t| + 0x31 < TWO64
    ensures M.AllFit(M.Sent(p, k, from, before) + M.Sent(p, k, back, after))
    ensures M.Texts(M.Inbox(p, k, from, M.Sent(p, k, from, before) + M.Sent(p, k, back, after)).1)
         == before + Rest(after, from + |before| - back)
  {
    hide M.Sent, M.Inbox, M.Texts, Rest;
    SentFits(p, k, from, before);
    SentFits(p, k, back, after);
    M.LosslessIsComplete(p, k, from, before);
    M.InboxAppend(p, k, from, M.Sent(p, k, from, before), M.Sent(p, k, back, after));
    StaleAreRefused(p, k, from + |before|, back, after);
    M.TextsAppend(M.Inbox(p, k, from, M.Sent(p, k, from, before)).1,
      M.Inbox(p, k, from + |before|, M.Sent(p, k, back, after)).1);
  }

  // ----- the receiver -----

  /** The client was restarted when the file held a smaller receiving counter than the one in use. */
  predicate ForgotReceived(p: Primitives, k: Keys, run: seq<Step>) {
    run != [] &&
    var front := run[..|run| - 1];
    ForgotReceived(p, k, front) || (run[|run| - 1] == Restart && Run(p, k, front).savedR < Run(p, k, front).rNonce)
  }

  predicate TakenInOrder(c: Client) {
    && (forall i, j | 0 <= i < j < |c.taken| :: c.taken[i].nonce < c.taken[j].nonce)
    && (forall i | 0 <= i < |c.taken| :: c.taken[i].nonce <= c.rNonce)
    && c.savedR <= c.rNonce
  }

  lemma StepTakesInOrder(p: Primitives, k: Keys, c: Client, step: Step)
    requires TakenInOrder(c) && !(step == Restart && c.savedR < c.rNonce)
    ensures TakenInOrder(Apply(p, k, c, step))
  {
    hide M.Judged, M.Claimed;
    if step.Receive? && |step.payload| < TWO64 {
      M.JudgedGrows(p, k, c.rNonce, step.payload);
    }
  }

  /** As long as no restart forgets, messages are accepted under increasing numbers, whatever arrives. */
  lemma {:induction false} TakenOnceUnlessForgotten(p: Primitives, k: Keys, run: seq<Step>)
    requires !ForgotReceived(p, k, run)
    ensures TakenInOrder(Run(p, k, run))
  {
    hide Apply;
    if run != [] {
      TakenOnceUnlessForgotten(p, k, run[..|run| - 1]);
      StepTakesInOrder(p, k, Run(p, k, run[..|run| - 1]), run[|run| - 1]);
    }
  }

  /** Messages were accepted under increasing numbers. */
  predicate Rising(taken: seq<M.Taken>) {
    forall i, j | 0 <= i < j < |taken| :: taken[i].nonce < taken[j].nonce
  }

  /** A whole payload with a right MAC arrives whose number the counter in use has not seen, but which is not
      greater than the last one accepted. */
  predicate IsOldNews(p: Primitives, k: Keys, c: Client, step: Step) {
    && step.Receive? && 0x31 <= |step.payload| < TWO64 && c.taken != []
    && M.MacHolds(p, k, step.payload) && M.Claimed(step.payload).Some?
    && c.rNonce < M.Claimed(step.payload).value <= c.taken[|c.taken| - 1].nonce
  }

  predicate OldNews(p: Primitives, k: Keys, run: seq<Step>) {
    run != [] &&
    var front := run[..|run| - 1];
    OldNews(p, k, front) || IsOldNews(p, k, Run(p, k, front), run[|run| - 1])
  }

  /** What a step accepts. */
  lemma StepTakes(p: Primitives, k: Keys, c: Client, step: Step)
    ensures var r := Apply(p, k, c, step);
      if step.Receive? && 0x31 <= |step.payload| < TWO64 && M.MacHolds(p, k, step.payload)
        && M.Claimed(step.payload).Some? && c.rNonce < M.Claimed(step.payload).value
      then exists text :: r.taken == c.taken + [M.Taken(M.Claimed(step.payload).value, text)]
      else r.taken == c.taken
  {
    hide M.MacHolds, M.Claimed, Stream;
  }

  lemma RisingSnoc(taken: seq<M.Taken>, t: M.Taken)
    ensures Rising(taken + [t]) <==> Rising(taken) && (taken == [] || taken[|taken| - 1].nonce < t.nonce)
  {
    var all := taken + [t];
    if Rising(all) {
      assert taken != [] ==> all[|taken| - 1].nonce < all[|taken|].nonce;
      assert forall i | 0 <= i < |taken| :: all[i] == taken[i];
    }
  }

  lemma StepRises(p: Primitives, k: Keys, c: Client, step: Step)
    ensures Rising(Apply(p, k, c, step).taken) <==> Rising(c.taken) && !IsOldNews(p, k, c, step)
  {
    hide Apply, M.MacHolds, M.Claimed, Rising;
    StepTakes(p, k, c, step);
    var r := Apply(p, k, c, step);
    if r.taken != c.taken {
      var nonce := M.Claimed(step.payload).value;
      var text :| r.taken == c.taken + [M.Taken(nonce, text)];
      RisingSnoc(c.taken, M.Taken(nonce, text));
    }
  }

  /** Over every course of messages, saves and restarts, and whatever arrives, messages are accepted under
      increasing numbers exactly when no such payload arrives. */
  lemma {:induction false} NumbersRiseIff(p: Primitives, k: Keys, run: seq<Step>)
    ensures Rising(Run(p, k, run).taken) <==> !OldNews(p, k, run)
  {
    hide Apply, Rising, IsOldNews;
    if run == [] {
      NothingTaken(p, k);
    } else {
      NumbersRiseIff(p, k, run[..|run| - 1]);
      StepRises(p, k, Run(p, k, run[..|run| - 1]), run[|run| - 1]);
    }
  }

  lemma NothingTaken(p: Primitives, k: Keys)
    ensures Rising(Run(p, k, []).taken)
  {
  }

  /** One does only after a restart that found a smaller counter in the file. */
  lemma OldNewsNeedsForgetting(p: Primitives, k: Keys, run: seq<Step>)
    requires OldNews(p, k, run)
    ensures ForgotReceived(p, k, run)
  {
    hide Run, ForgotReceived, OldNews;
    if !ForgotReceived(p, k, run) {
      TakenOnceUnlessForgotten(p, k, run);
      NumbersRiseIff(p, k, run);
    }
  }

  /** The shortest course: a message, a restart, and the same message, which is accepted twice. */
  lemma TakenTwice(p: Primitives, k: Keys, tag: byte, nonce: uint64, text: bytes)
    requires nonce > 0 && |text| + 0x31 < TWO64
    ensures var x := Receive(M.Payload(p, k, tag, nonce, text));
      Run(p, k, [x, Restart, x]).taken == [M.Taken(nonce, text), M.Taken(nonce, text)] && OldNews(p, k, [x, Restart, x])
  {
    hide M.Judged, M.Payload, OldNews;
    var payload := M.Payload(p, k, tag, nonce, text);
    var x := Receive(payload);
    RunThree(p, k, x, Restart, x);
    M.PayloadJudged(p, k, 0, tag, nonce, text);
    NumbersRiseIff(p, k, [x, Restart, x]);
    var twice := [M.Taken(nonce, text), M.Taken(nonce, text)];
    assert twice[0].nonce == twice[1].nonce;
  }

  /** After a restart a message that was accepted already is accepted again exactly when its number is
      greater than the one in the file. */
  lemma TakenAgainIff(p: Primitives, k: Keys, c: Client, nonce: uint64, text: bytes)
    requires |text| + 0x31 < TWO64
    ensures var payload := M.Payload(p, k, 0, nonce, text);
      var r := Apply(p, k, Apply(p, k, c, Restart), Receive(payload));
      r.taken == c.taken + (if nonce > c.savedR then [M.Taken(nonce, text)] else [])
  {
    hide M.Judged, M.Payload;
    M.PayloadJudged(p, k, c.savedR, 0, nonce, text);
  }
}
