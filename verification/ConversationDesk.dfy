/** The open conversation and its file together: what start_conversation, cmessage_send and parse_conv_message do
    to them is what the steps of ConversationView say. */
module ConversationDesk {
  import opened Bytes
  import opened Crypto
  import opened Files
  import opened ConversationFile
  import opened ConversationView
  import opened Options
  import C = ConversationLog

  /** What is printed of these messages: each text up to its first NUL. */
  function Printed(nodes: seq<CMessage>): (r: seq<C.Entry>)
    ensures |r| == |nodes|
  {
    C.AllAsWritten(Texts(nodes))
  }

  lemma PrintedAppend(a: seq<CMessage>, b: seq<CMessage>)
    ensures Printed(a + b) == Printed(a) + Printed(b)
  {
  }

  lemma PrintedOne(m: CMessage)
    ensures Printed([m]) == [C.AsWritten(C.Entry(m.sender, m.text))]
  {
  }

  /** The file loads as what the desk says it holds, in which no text has a NUL, and the view shows and keeps
      back what the desk says. */
  ghost predicate Mirrors(p: Primitives, k: Keys, v: View, f: File, d: Desk)
    reads v, v.shown, v.pending, f
  {
    && v.Valid() && !d.crashed
    && C.Load(p, k, f.data) == Some(d.file) && C.AllAsWritten(d.file) == d.file
    && Printed(v.shown) == d.shown && Printed(v.pending) == d.pending
  }

  /** The message that the background thread is about to put into the view. */
  ghost predicate InHand(v: View, m: CMessage, d: Desk)
    reads v, m
  {
    && d.hand.Some? && d.hand.value.e == C.AsWritten(C.Entry(m.sender, m.text))
    && m !in v.shown && m !in v.pending && m.next == null && m.prev == null
  }

  lemma WrittenTwice(es: seq<C.Entry>, e: C.Entry)
    requires C.AllAsWritten(es) == es
    ensures C.AllAsWritten(es + [C.AsWritten(e)]) == es + [C.AsWritten(e)]
  {
    var all := es + [C.AsWritten(e)];
    forall i | 0 <= i < |all|
      ensures C.AsWritten(all[i]) == all[i]
    {
      assert i < |es| ==> C.AllAsWritten(es)[i] == es[i];
    }
  }

  /** start_conversation up to the point where the background thread can put messages into the view. */
  method Begin(p: Primitives, k: Keys, f: File, ghost es: seq<C.Entry>) returns (v: View)
    requires C.Load(p, k, f.data) == Some(es) && C.AllAsWritten(es) == es
    ensures Mirrors(p, k, v, f, Opened(es)) && fresh(v)
  {
    hide C.Load, C.AllAsWritten;
    v := new View();
  }

  /** From there to the loop. */
  method OpenFile(p: Primitives, k: Keys, v: View, f: File, ghost d: Desk) returns (ok: bool)
    requires Mirrors(p, k, v, f, d) && !d.loaded && d.shown == []
    modifies f`pos, v`head, v`shown
    ensures ok && Mirrors(p, k, v, f, Apply(d, Step.Load)) && fresh(v.shown) && v.pending == old(v.pending)
  {
    hide C.Load, Linked, LinkedBackwards, C.AllAsWritten, Texts;
    var head: CMessage?;
    ghost var nodes: seq<CMessage>;
    ok, head, nodes := LoadList(p, k, f);
    assert Disjoint(nodes, v.pending);
    v.Show(head, nodes);
  }

  /** The file after the writes of an append that all succeed. */
  lemma AddedToFile(p: Primitives, k: Keys, data: bytes, es: seq<C.Entry>, e: C.Entry)
    requires C.Load(p, k, data) == Some(es) && 0x10 + C.Length(es) < TWO63 && C.Loadable(e) && C.AllAsWritten(es) == es
    ensures var st := C.AddStages(p, k, data, C.AsWritten(e));
      && |st| == 6 && C.Load(p, k, st[5]) == Some(es + [C.AsWritten(e)])
      && C.AllAsWritten(es + [C.AsWritten(e)]) == es + [C.AsWritten(e)]
  {
    hide C.Load, C.AddStages, C.Length, CStr, C.AllAsWritten;
    C.AddThenLoad(p, k, data, es, C.AsWritten(e));
    WrittenTwice(es, e);
  }

  /** cmessage_send once the server has the letter: the message goes to the file and then to the view; when
      not all of its writes succeed it is not shown. */
  method SendMessage(p: Primitives, k: Keys, v: View, f: File, text: bytes, ghost d: Desk) returns (ok: bool)
    requires Mirrors(p, k, v, f, d) && d.loaded && |text| < TWO64 && 0x10 + C.Length(d.file) < TWO63
    modifies f, v`head, v`shown, if v.head == null then {} else {v.head}`next
    ensures ok <==> old(f.budget) >= 5
    ensures ok ==> Mirrors(p, k, v, f, Apply(d, Send(CStr(text))))
    ensures v.pending == old(v.pending)
    ensures ok ==> v.head != null && fresh(v.head) && v.shown == old(v.shown) + [v.head]
    ensures !ok ==> v.shown == old(v.shown)
  {
    hide C.Load, C.AddStages, C.Length, CStr, Linked, LinkedBackwards, C.AllAsWritten, Texts;
    AddedToFile(p, k, f.data, d.file, C.Entry(0, text));
    var m := new CMessage(0, text);
    ok := Add(p, k, f, 0, text);
    if ok {
      PrintedAppend(v.shown, [m]);
      PrintedOne(m);
      v.Append(m);
    }
  }

  /** parse_conv_message up to the lock: the message that arrived goes to the file. */
  method LogMessage(p: Primitives, k: Keys, v: View, f: File, text: bytes, ghost d: Desk) returns (ok: bool, m: CMessage)
    requires Mirrors(p, k, v, f, d) && d.hand.None? && |text| < TWO64 && 0x10 + C.Length(d.file) < TWO63
    modifies f
    ensures ok <==> old(f.budget) >= 5
    ensures ok ==> Mirrors(p, k, v, f, Apply(d, Log(CStr(text)))) && InHand(v, m, Apply(d, Log(CStr(text)))) && fresh(m)
  {
    hide C.Load, C.AddStages, C.Length, CStr, Linked, LinkedBackwards, C.AllAsWritten, Texts;
    AddedToFile(p, k, f.data, d.file, C.Entry(1, text));
    m := new CMessage(1, text);
    ok := Add(p, k, f, 1, text);
  }

  /** And under the lock to the messages that are not shown yet. */
  method PutMessage(p: Primitives, k: Keys, v: View, f: File, m: CMessage, ghost d: Desk)
    requires Mirrors(p, k, v, f, d) && InHand(v, m, d)
    modifies v`newMessages, v`pending, m`next, if v.newMessages == null then {} else {v.newMessages}`prev
    ensures Mirrors(p, k, v, f, Apply(d, Put)) && v.shown == old(v.shown) && v.pending == old(v.pending) + [m]
  {
    hide C.Load, CStr, Linked, LinkedBackwards, C.AllAsWritten, Texts;
    PrintedAppend(v.pending, [m]);
    PrintedOne(m);
    v.Arrive(m);
  }

  /** The end of a turn of start_conversation's loop: the program crashes exactly when the machine says so. */
  method MergeMessages(p: Primitives, k: Keys, v: View, f: File, ghost d: Desk) returns (crashed: bool)
    requires Mirrors(p, k, v, f, d) && d.loaded
    modifies v, v.shown, v.pending
    ensures crashed <==> Apply(d, Merge).crashed
    ensures !crashed ==> Mirrors(p, k, v, f, Apply(d, Merge)) && v.shown == old(v.shown) + old(v.pending)
  {
    hide C.Load, CStr, Linked, LinkedBackwards, C.AllAsWritten, Texts;
    PrintedAppend(v.shown, v.pending);
    crashed := v.Splice();
  }
}
