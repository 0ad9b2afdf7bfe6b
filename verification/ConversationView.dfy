/** The open conversation: the list that is shown, and the newest-first list of messages that arrived
    and are not shown yet. */
module ConversationView {
  import opened Bytes
  import opened ConversationLog
  import opened ConversationFile
  import opened Options

  /** `prev` leads from each message to the next newer one. */
  ghost predicate PrevChained(nodes: seq<CMessage>)
    reads nodes
  {
    && (forall i, j | 0 <= i < j < |nodes| :: nodes[i] != nodes[j])
    && (forall i {:trigger nodes[i].prev} | 0 <= i < |nodes| :: nodes[i].prev == (if i + 1 < |nodes| then nodes[i + 1] else null))
  }

  /** `nodes`, oldest first, as the background thread links them: `next` leads to the older message. */
  ghost predicate LinkedBackwards(nodes: seq<CMessage>)
    reads nodes
  {
    && PrevChained(nodes)
    && (forall i {:trigger nodes[i].next} | 0 <= i < |nodes| :: nodes[i].next == (if i > 0 then nodes[i - 1] else null))
  }

  ghost predicate Disjoint(a: seq<CMessage>, b: seq<CMessage>) {
    forall i, j | 0 <= i < |a| && 0 <= j < |b| :: a[i] != b[j]
  }

  class View {
    /** The newest message that is shown, and the newest one that is not. */
    var head: CMessage?
    var newMessages: CMessage?

    ghost var shown: seq<CMessage>
    ghost var pending: seq<CMessage>

    ghost predicate Valid()
      reads this, shown, pending
    {
      && Linked(shown) && head == (if shown == [] then null else shown[|shown| - 1])
      && LinkedBackwards(pending) && newMessages == (if pending == [] then null else pending[|pending| - 1])
      && Disjoint(shown, pending)
    }

    /** start_conversation clears both ends before the file is loaded. */
    constructor ()
      ensures Valid() && shown == [] && pending == []
    {
      head, newMessages, shown, pending := null, null, [], [];
    }

    /** The loop that finds the newest message of the loaded list; messages may have arrived before. */
    method Show(messages: CMessage?, ghost nodes: seq<CMessage>)
      requires Valid() && shown == [] && Disjoint(nodes, pending)
      requires Linked(nodes) && messages == if nodes == [] then null else nodes[0]
      modifies this`head, this`shown
      ensures Valid() && shown == nodes && pending == old(pending)
    {
      var cur := messages;
      ghost var i := 0;
      while cur != null
        invariant i <= |nodes| && cur == (if i < |nodes| then nodes[i] else null)
        invariant head == if i == 0 then null else nodes[i - 1]
        modifies this`head
        decreases |nodes| - i
      {
        head := cur;
        cur := cur.next;
        i := i + 1;
      }
      shown := nodes;
    }

    /** The end of cmessage_send: the new message is put behind the newest one that is shown. */
    method Append(m: CMessage)
      requires Valid() && m !in shown && m !in pending && m.next == null && m.prev == null
      modifies this`head, this`shown, m`prev, if head == null then {} else {head}`next
      ensures Valid() && shown == old(shown) + [m] && pending == old(pending)
    {
      hide Linked, LinkedBackwards;
      assert forall s | s in pending :: s != m && s != head;
      assert forall i | 0 <= i < |pending| :: pending[i] in pending;
      Link(shown, head, m);
      head := m;
      shown := shown + [m];
    }

    /** The part of parse_conv_message that a background thread runs while the conversation is open. */
    method Arrive(m: CMessage)
      requires Valid() && m !in shown && m !in pending && m.next == null && m.prev == null
      modifies this`newMessages, this`pending, m`next, if newMessages == null then {} else {newMessages}`prev
      ensures Valid() && shown == old(shown) && pending == old(pending) + [m]
    {
      hide Linked;
      assert forall s | s in shown :: s != m && s != newMessages;
      assert forall i | 0 <= i < |pending| :: pending[i] in pending;
      m.next := newMessages;
      if newMessages != null {
        newMessages.prev := m;
      }
      newMessages := m;
      pending := pending + [m];
    }

    /** The walk from the newest pending message to the oldest. */
    method Oldest() returns (cur: CMessage)
      requires Valid() && pending != []
      ensures cur == pending[0]
    {
      cur := newMessages;
      ghost var i := |pending| - 1;
      while cur.next != null
        invariant 0 <= i < |pending| && cur == pending[i]
        decreases i
      {
        cur := cur.next;
        i := i - 1;
      }
    }

    /** One turn of the loop that splices: the oldest pending message goes behind the newest shown one. */
    method ShowOldest(cur: CMessage) returns (next: CMessage?)
      requires Linked(shown) && shown != [] && head == shown[|shown| - 1]
      requires pending != [] && cur == pending[0] && PrevChained(pending) && Disjoint(shown, pending)
      modifies this`head, this`shown, this`pending, cur`prev, cur`next, head`next
      ensures shown == old(shown) + [cur] && Linked(shown) && head == cur
      ensures pending == old(pending)[1..] && PrevChained(pending) && Disjoint(shown, pending)
      ensures next == if pending == [] then null else pending[0]
    {
      next := cur.prev;
      ghost var rest := pending[1..];
      assert forall i {:trigger rest[i].prev} | 0 <= i < |rest| :: rest[i] == pending[i + 1] && rest[i] != cur && rest[i] != head;
      cur.next := null;
      assert forall i {:trigger shown[i].next} | 0 <= i < |shown| :: shown[i] != cur;
      Link(shown, head, cur);
      head := cur;
      shown, pending := shown + [cur], rest;
    }

    /** The splice in start_conversation: pending messages are shown, oldest first, behind what is shown
        already.  With nothing shown there is no head to link to, and the program crashes. */
    method Splice() returns (crashed: bool)
      requires Valid()
      modifies this, shown, pending
      ensures crashed <==> old(shown) == [] && old(pending) != []
      ensures !crashed ==> Valid() && shown == old(shown) + old(pending) && pending == []
    {
      hide Linked, LinkedBackwards, PrevChained;
      if newMessages == null {
        assert shown + pending == shown;
        return false;
      }
      if head == null {
        return true;
      }
      var cur: CMessage? := Oldest();
      ghost var all := shown + pending;
      Backwards(pending);
      while cur != null
        invariant shown + pending == all && old(shown) <= shown
        invariant cur == if pending == [] then null else pending[0]
        invariant Linked(shown) && shown != [] && head == shown[|shown| - 1]
        invariant PrevChained(pending) && Disjoint(shown, pending)
        decreases |pending|
      {
        assert cur == all[|shown|] && head == all[|shown| - 1];
        cur := ShowOldest(cur);
      }
      newMessages := null;
      Backwards([]);
      assert shown + [] == shown;
      crashed := false;
    }
  }

  lemma Backwards(nodes: seq<CMessage>)
    ensures LinkedBackwards(nodes) ==> PrevChained(nodes)
    ensures LinkedBackwards([])
  {
  }

  // ----- the view and the file -----

  /** A message that the background thread has written to the file and not put into the view yet. */
  datatype Hand = Hand(e: Entry, sinceLoad: bool)

  /** The conversation's file, and what the view holds of it once the file is loaded.  `twice` is what was
      put into the view although the loaded file held it already. */
  datatype Desk = Desk(file: seq<Entry>, loaded: bool, shown: seq<Entry>, pending: seq<Entry>, hand: Option<Hand>,
                       twice: seq<Entry>, crashed: bool)

  /** The user's thread loads, sends and merges; the background thread logs a message and then puts it
      into the view. */
  datatype Step = Load | Send(text: bytes) | Merge | Log(text: bytes) | Put

  function Opened(file: seq<Entry>): Desk {
    Desk(file, false, [], [], None, [], false)
  }

  function Apply(d: Desk, step: Step): Desk {
    if d.crashed then d else
    match step
    case Load => if d.loaded then d else d.(loaded := true, shown := d.file)
    case Send(text) =>
      if d.loaded then d.(file := d.file + [Entry(0, text)], shown := d.shown + [Entry(0, text)]) else d
    case Merge =>
      if !d.loaded then d
      else if d.shown == [] && d.pending != [] then d.(crashed := true)
      else d.(shown := d.shown + d.pending, pending := [])
    case Log(text) =>
      if d.hand.None? then d.(file := d.file + [Entry(1, text)], hand := Some(Hand(Entry(1, text), d.loaded))) else d
    case Put =>
      if d.hand.None? then d else
      var Hand(e, sinceLoad) := d.hand.value;
      d.(pending := d.pending + [e], hand := None, twice := if sinceLoad then d.twice else d.twice + [e])
  }

  function Run(file: seq<Entry>, steps: seq<Step>): Desk {
    if steps == [] then Opened(file) else Apply(Run(file, steps[..|steps| - 1]), steps[|steps| - 1])
  }

  /** One party's messages, in order. */
  function Of(sender: uint64, es: seq<Entry>): seq<Entry> {
    if es == [] then [] else
    Of(sender, es[..|es| - 1]) + if es[|es| - 1].sender == sender then [es[|es| - 1]] else []
  }

  lemma {:induction false} OfAppend(sender: uint64, a: seq<Entry>, b: seq<Entry>)
    ensures Of(sender, a + b) == Of(sender, a) + Of(sender, b)
    decreases |b|
  {
    if b == [] {
      assert a + b == a;
    } else {
      OfAppend(sender, a, b[..|b| - 1]);
      assert (a + b)[..|a + b| - 1] == a + b[..|b| - 1];
    }
  }

  lemma OfOne(sender: uint64, e: Entry)
    ensures Of(sender, [e]) == if e.sender == sender then [e] else []
  {
    assert [e][..0] == [];
  }

  lemma {:induction false} OfOthers(sender: uint64, es: seq<Entry>)
    requires forall e | e in es :: e.sender != sender
    ensures Of(sender, es) == []
  {
    if es != [] {
      OfOthers(sender, es[..|es| - 1]);
    }
  }

  lemma {:induction false} OfSelf(sender: uint64, es: seq<Entry>)
    requires forall e | e in es :: e.sender == sender
    ensures Of(sender, es) == es
  {
    if es != [] {
      OfSelf(sender, es[..|es| - 1]);
    }
  }

  /** What is in the file since it was loaded and not in the view yet. */
  function Missing(d: Desk): seq<Entry> {
    if d.hand.Some? && d.hand.value.sinceLoad then [d.hand.value.e] else []
  }

  /** How the view and the file hang together. */
  predicate Tracks(d: Desk) {
    && (forall e | e in d.pending :: e.sender == 1)
    && (d.hand.Some? ==> d.hand.value.e.sender == 1)
    && (!d.loaded ==> d.shown == [] && d.pending == d.twice && Missing(d) == [])
    && (d.loaded ==> Of(0, d.shown) == Of(0, d.file))
    && (d.loaded ==> |Of(1, d.shown)| + |d.pending| + |Missing(d)| == |Of(1, d.file)| + |d.twice|)
    && (d.loaded && d.twice == [] ==> Of(1, d.shown) + d.pending + Missing(d) == Of(1, d.file))
  }

  lemma LogTracks(d: Desk, text: bytes)
    requires Tracks(d)
    ensures Tracks(Apply(d, Log(text)))
  {
    hide Of;
    var e := Entry(1, text);
    OfAppend(0, d.file, [e]);
    OfAppend(1, d.file, [e]);
    OfOne(0, e);
    OfOne(1, e);
    assert Of(0, d.file) + [] == Of(0, d.file);
    assert Of(1, d.shown) + d.pending + [] == Of(1, d.shown) + d.pending;
  }

  lemma PutTracks(d: Desk)
    requires Tracks(d)
    ensures Tracks(Apply(d, Put))
  {
    hide Of;
    if d.hand.Some? {
      var e := d.hand.value.e;
      assert Of(1, d.shown) + (d.pending + [e]) == Of(1, d.shown) + d.pending + [e];
      assert Of(1, d.shown) + (d.pending + [e]) + [] == Of(1, d.shown) + (d.pending + [e]);
    }
  }

  lemma SendTracks(d: Desk, text: bytes)
    requires Tracks(d)
    ensures Tracks(Apply(d, Send(text)))
  {
    hide Of;
    var e := Entry(0, text);
    OfSnoc(0, d.file, e);
    OfSnoc(0, d.shown, e);
    OfSnoc(1, d.file, e);
    OfSnoc(1, d.shown, e);
  }

  lemma OfSnoc(sender: uint64, es: seq<Entry>, e: Entry)
    ensures Of(sender, es + [e]) == if e.sender == sender then Of(sender, es) + [e] else Of(sender, es)
  {
    hide Of;
    OfAppend(sender, es, [e]);
    OfOne(sender, e);
    assert Of(sender, es) + [] == Of(sender, es);
  }

  lemma MergeTracks(d: Desk)
    requires Tracks(d)
    ensures Tracks(Apply(d, Merge))
  {
    hide Of;
    OfAppend(0, d.shown, d.pending);
    OfAppend(1, d.shown, d.pending);
    OfOthers(0, d.pending);
    OfSelf(1, d.pending);
    assert Of(0, d.shown) + [] == Of(0, d.shown);
    assert (Of(1, d.shown) + d.pending) + [] == Of(1, d.shown) + d.pending;
  }

  lemma {:induction false} RunTracks(file: seq<Entry>, steps: seq<Step>)
    ensures Tracks(Run(file, steps))
  {
    hide Tracks;
    if steps == [] {
      StartTracks(file);
    } else {
      var d := Run(file, steps[..|steps| - 1]);
      RunTracks(file, steps[..|steps| - 1]);
      match steps[|steps| - 1]
      case Load => LoadTracks(d);
      case Send(text) => SendTracks(d, text);
      case Merge => MergeTracks(d);
      case Log(text) => LogTracks(d, text);
      case Put => PutTracks(d);
    }
  }

  lemma StartTracks(file: seq<Entry>)
    ensures Tracks(Opened(file))
  {
  }

  lemma LoadTracks(d: Desk)
    requires Tracks(d)
    ensures Tracks(Apply(d, Load))
  {
  }

  /** The background thread logs a message before the user's thread loads the file. */
  predicate LogsFirst(steps: seq<Step>) {
    exists i :: 0 <= i < |steps| && steps[i].Log? && Load !in steps[..i]
  }

  lemma LogsFirstSnoc(steps: seq<Step>, step: Step)
    ensures LogsFirst(steps + [step]) <==> LogsFirst(steps) || (step.Log? && Load !in steps)
  {
    var all := steps + [step];
    forall i | 0 <= i <= |steps|
      ensures all[..i] == steps[..i]
    {
    }
    if LogsFirst(steps) {
      var i :| 0 <= i < |steps| && steps[i].Log? && Load !in steps[..i];
      assert all[i].Log? && Load !in all[..i];
    }
    if step.Log? && Load !in steps {
      assert all[|steps|].Log? && all[..|steps|] == steps;
    }
  }

  /** Such a message is in the background thread's hand, or has been put into the view. */
  lemma {:induction false} EarlyLogIsKept(file: seq<Entry>, steps: seq<Step>)
    ensures var d := Run(file, steps);
      && (d.loaded <==> Load in steps) && (!d.loaded && d.hand.Some? ==> !d.hand.value.sinceLoad)
      && (LogsFirst(steps) <==> d.twice != [] || (d.hand.Some? && !d.hand.value.sinceLoad))
  {
    hide LogsFirst;
    if steps == [] {
      NothingLogged();
    } else {
      var n := |steps| - 1;
      assert steps == steps[..n] + [steps[n]];
      EarlyLogIsKept(file, steps[..n]);
      LogsFirstSnoc(steps[..n], steps[n]);
      OnlyTheLoadedCrash(file, steps[..n]);
      hide Run;
      EarlyLogStep(Run(file, steps[..n]), steps[..n], steps[n]);
      RunSnoc(file, steps[..n], steps[n]);
    }
  }

  lemma EarlyLogStep(d: Desk, steps: seq<Step>, step: Step)
    requires (d.crashed ==> d.loaded) && (d.loaded <==> Load in steps)
    requires !d.loaded && d.hand.Some? ==> !d.hand.value.sinceLoad
    requires LogsFirst(steps) <==> d.twice != [] || (d.hand.Some? && !d.hand.value.sinceLoad)
    requires LogsFirst(steps + [step]) <==> LogsFirst(steps) || (step.Log? && Load !in steps)
    ensures var r := Apply(d, step);
      && (r.loaded <==> Load in steps + [step]) && (!r.loaded && r.hand.Some? ==> !r.hand.value.sinceLoad)
      && (LogsFirst(steps + [step]) <==> r.twice != [] || (r.hand.Some? && !r.hand.value.sinceLoad))
  {
    hide LogsFirst;
  }

  lemma NothingLogged()
    ensures !LogsFirst([])
  {
  }

  lemma {:induction false} OnlyTheLoadedCrash(file: seq<Entry>, steps: seq<Step>)
    ensures Run(file, steps).crashed ==> Run(file, steps).loaded
  {
    if steps != [] {
      OnlyTheLoadedCrash(file, steps[..|steps| - 1]);
    }
  }

  /** Once the file is loaded, and whenever the background thread is not in the middle of a message: for
      each party, the view and the messages about to be merged into it list exactly that party's messages
      of the file, in the file's order, precisely when no message was logged before the file was loaded. */
  lemma ViewMatchesFileIff(file: seq<Entry>, steps: seq<Step>)
    requires Load in steps && Run(file, steps).hand.None?
    ensures var d := Run(file, steps);
      (forall who | who in {0, 1} :: Of(who, d.shown + d.pending) == Of(who, d.file)) <==> !LogsFirst(steps)
  {
    hide Run, Of, LogsFirst;
    var d := Run(file, steps);
    RunTracks(file, steps);
    EarlyLogIsKept(file, steps);
    OfAppend(0, d.shown, d.pending);
    OfAppend(1, d.shown, d.pending);
    OfOthers(0, d.pending);
    OfSelf(1, d.pending);
    assert Of(0, d.shown) + [] == Of(0, d.shown) && Of(1, d.shown) + d.pending + [] == Of(1, d.shown) + d.pending;
  }

  lemma RunSnoc(file: seq<Entry>, steps: seq<Step>, step: Step)
    ensures Run(file, steps + [step]) == Apply(Run(file, steps), step)
  {
    assert (steps + [step])[..|steps|] == steps;
  }

  /** A message that is logged, loaded with the file and then put into the view is there twice. */
  lemma EarlyLogIsShownTwice(file: seq<Entry>, text: bytes)
    ensures var d := Run(file, [Log(text), Load, Put]);
      d.hand.None? && d.file == file + [Entry(1, text)] && d.shown + d.pending == d.file + [Entry(1, text)]
  {
    RunSnoc(file, [], Log(text));
    RunSnoc(file, [Log(text)], Load);
    RunSnoc(file, [Log(text), Load], Put);
    assert [] + [Log(text)] == [Log(text)] && [Log(text)] + [Load] == [Log(text), Load];
    assert [Log(text), Load] + [Put] == [Log(text), Load, Put];
  }

  lemma {:induction false} HistoryPreventsCrash(file: seq<Entry>, steps: seq<Step>)
    requires file != []
    ensures var d := Run(file, steps); !d.crashed && d.file != [] && (d.loaded ==> d.shown != [])
  {
    if steps != [] {
      HistoryPreventsCrash(file, steps[..|steps| - 1]);
    }
  }

  predicate Crashes(file: seq<Entry>, steps: seq<Step>) {
    Run(file, steps).crashed
  }

  lemma EmptyHistoryCrashes()
    ensures Crashes([], [Load, Log([]), Put, Merge])
  {
    var e := Log([]);
    RunSnoc([], [], Load);
    RunSnoc([], [Load], e);
    RunSnoc([], [Load, e], Put);
    RunSnoc([], [Load, e, Put], Merge);
    assert [] + [Load] == [Load] && [Load] + [e] == [Load, e] && [Load, e] + [Put] == [Load, e, Put];
    assert [Load, e, Put] + [Merge] == [Load, e, Put, Merge];
  }

  /** Some course of events crashes the program precisely when the conversation has no history. */
  lemma CrashIsPossibleIff(file: seq<Entry>)
    ensures (exists steps :: Crashes(file, steps)) <==> file == []
  {
    if file == [] {
      EmptyHistoryCrashes();
    } else {
      forall steps
        ensures !Crashes(file, steps)
      {
        HistoryPreventsCrash(file, steps);
      }
    }
  }
}
