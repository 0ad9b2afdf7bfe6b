/** A conversation file over any run of attempts to append, of which some are cut short: a full disk, or
    the process stopping, lets only some of the writes of cfile_add happen. */
module ConversationAttempts {
  import opened Bytes
  import opened Crypto
  import opened Files
  import opened LogHeader
  import opened Options
  import opened ConversationLog

  /** A message to append, and how many writes are possible. */
  datatype Attempt = Attempt(e: Entry, budget: nat)

  /** The file that ConversationFile.Add leaves. */
  function Attempted(p: Primitives, k: Keys, data: bytes, a: Attempt): bytes {
    var st := AddStages(p, k, data, AsWritten(a.e));
    st[Min(|st| - 1, a.budget)]
  }

  /** And when it reports success. */
  predicate Succeeds(p: Primitives, k: Keys, data: bytes, a: Attempt) {
    |AddStages(p, k, data, AsWritten(a.e))| == 6 && a.budget >= 5
  }

  function AfterAll(p: Primitives, k: Keys, tries: seq<Attempt>): bytes {
    if tries == [] then Canonical(p, k, []) else
    Attempted(p, k, AfterAll(p, k, tries[..|tries| - 1]), tries[|tries| - 1])
  }

  function Completed(tries: seq<Attempt>): seq<Entry> {
    if tries == [] then [] else
    var a := tries[|tries| - 1];
    Completed(tries[..|tries| - 1]) + if a.budget >= 5 then [AsWritten(a.e)] else []
  }

  predicate IsCut(a: Attempt) {
    1 <= a.budget <= 4
  }

  predicate SomeCut(tries: seq<Attempt>) {
    exists i :: 0 <= i < |tries| && IsCut(tries[i])
  }

  /** The length of a file that holds everything. */
  function Size(tries: seq<Attempt>): nat {
    if tries == [] then 0x30 else Size(tries[..|tries| - 1]) + 0x50 + |AsWritten(tries[|tries| - 1].e).text|
  }

  lemma SomeCutSnoc(tries: seq<Attempt>, a: Attempt)
    ensures SomeCut(tries + [a]) <==> SomeCut(tries) || IsCut(a)
  {
    var all := tries + [a];
    if SomeCut(tries) {
      var i :| 0 <= i < |tries| && IsCut(tries[i]);
      assert IsCut(all[i]);
    }
    assert all[|tries|] == a;
  }

  /** The header claims more than there is. */
  predicate Broken(p: Primitives, k: Keys, data: bytes, size: nat) {
    Authentic(p, k.hmac, data) && |data| < FileLength(data) <= size
  }

  /** A broken file stays broken: its last record is looked for behind its end. */
  lemma BrokenStays(p: Primitives, k: Keys, data: bytes, a: Attempt, size: nat)
    requires Broken(p, k, data, size) && size + 0x50 + |AsWritten(a.e).text| < TWO63
    ensures Broken(p, k, Attempted(p, k, data, a), size + 0x50 + |AsWritten(a.e).text|)
    ensures !Succeeds(p, k, data, a)
  {
    hide Header, RecordStages, AsWritten, Authentic, FileLength, RecordCount, Overwrite;
    var e := AsWritten(a.e);
    var flen: nat, mnum: nat := FileLength(data), RecordCount(data);
    var h := Header(p, k.hmac, Wrap64(flen + 0x50 + |e.text|), Wrap64(mnum + 1));
    OverwriteFront(data, h);
    HeaderFields(p, k.hmac, Wrap64(flen + 0x50 + |e.text|), Wrap64(mnum + 1), h + data[0x30..]);
  }

  /** One attempt on an intact file. */
  lemma AttemptOnCanonical(p: Primitives, k: Keys, es: seq<Entry>, a: Attempt)
    requires var e := AsWritten(a.e); 0x30 + Length(es) + 0x50 + |e.text| < TWO63
    ensures var data, e := Canonical(p, k, es), AsWritten(a.e);
      && |AddStages(p, k, data, e)| == 6
      && (a.budget == 0 ==> Attempted(p, k, data, a) == data)
      && (IsCut(a) ==> Broken(p, k, Attempted(p, k, data, a), 0x30 + Length(es) + 0x50 + |e.text|))
      && (a.budget >= 5 ==> Attempted(p, k, data, a) == Canonical(p, k, es + [e]))
  {
    hide AddStages, Canonical, Length, AsWritten, FileLength, Authentic;
    var data, e := Canonical(p, k, es), AsWritten(a.e);
    InterruptedAddIsShort(p, k, es, e, if IsCut(a) then a.budget else 1);
    AddExtendsCanonical(p, k, data, es, e);
    LengthMonotone(es, e);
    assert |Canonical(p, k, es + [e])| == |data| + 0x50 + |e.text|;
  }

  lemma TriesSnoc(p: Primitives, k: Keys, tries: seq<Attempt>, a: Attempt)
    ensures AfterAll(p, k, tries + [a]) == Attempted(p, k, AfterAll(p, k, tries), a)
    ensures Completed(tries + [a]) == Completed(tries) + if a.budget >= 5 then [AsWritten(a.e)] else []
    ensures Size(tries + [a]) == Size(tries) + 0x50 + |AsWritten(a.e).text|
    ensures SomeCut(tries + [a]) <==> SomeCut(tries) || IsCut(a)
  {
    hide Attempted, AsWritten, SomeCut;
    assert (tries + [a])[..|tries|] == tries;
    SomeCutSnoc(tries, a);
  }

  predicate Intact(p: Primitives, k: Keys, tries: seq<Attempt>) {
    && 0x30 + Length(Completed(tries)) <= Size(tries)
    && (!SomeCut(tries) ==> AfterAll(p, k, tries) == Canonical(p, k, Completed(tries)))
    && (SomeCut(tries) ==> Broken(p, k, AfterAll(p, k, tries), Size(tries)))
  }

  lemma IntactSnoc(p: Primitives, k: Keys, tries: seq<Attempt>, a: Attempt)
    requires Intact(p, k, tries) && Size(tries + [a]) < TWO63
    ensures Intact(p, k, tries + [a])
  {
    hide Broken, Attempted, Canonical, Length, AsWritten, SomeCut, Completed, AfterAll, Size, AddStages;
    var es := Completed(tries);
    TriesSnoc(p, k, tries, a);
    LengthMonotone(es, AsWritten(a.e));
    assert es + [] == es;
    if SomeCut(tries) {
      BrokenStays(p, k, AfterAll(p, k, tries), a, Size(tries));
    } else {
      AttemptOnCanonical(p, k, es, a);
      BrokenForMore(p, k, AfterAll(p, k, tries + [a]), 0x30 + Length(es) + 0x50 + |AsWritten(a.e).text|, Size(tries + [a]));
    }
  }

  /** While no attempt is cut short the file is the image of the completed ones; from the first one that
      is, its header claims more than there is. */
  lemma {:induction false} IntactUnlessCut(p: Primitives, k: Keys, tries: seq<Attempt>)
    requires Size(tries) < TWO63
    ensures Intact(p, k, tries)
  {
    hide Intact;
    if tries == [] {
      NothingTried(p, k);
    } else {
      var front, a := tries[..|tries| - 1], tries[|tries| - 1];
      assert tries == front + [a];
      IntactUnlessCut(p, k, front);
      IntactSnoc(p, k, front, a);
    }
  }

  lemma BrokenForMore(p: Primitives, k: Keys, data: bytes, size: nat, more: nat)
    requires size <= more
    ensures Broken(p, k, data, size) ==> Broken(p, k, data, more)
  {
  }

  lemma NothingTried(p: Primitives, k: Keys)
    ensures Intact(p, k, [])
  {
    hide Canonical;
  }

  /** After any run of attempts the file loads as the completed ones, in order, exactly when no attempt
      was cut short; otherwise it is refused for good. */
  lemma LoadsUnlessCut(p: Primitives, k: Keys, tries: seq<Attempt>)
    requires Size(tries) < TWO63 && AllLoadable(Completed(tries))
    ensures Load(p, k, AfterAll(p, k, tries)) == if SomeCut(tries) then None else Some(Completed(tries))
  {
    hide AfterAll, Completed, SomeCut, Size, Canonical, Load, Length, FileLength;
    IntactUnlessCut(p, k, tries);
    if SomeCut(tries) {
      TruncatedIsRefused(p, k, AfterAll(p, k, tries));
    } else {
      LengthBoundsCount(Completed(tries));
      LoadIffCanonical(p, k, AfterAll(p, k, tries), Completed(tries));
    }
  }

  /** And an attempt succeeds exactly when none before it was cut short and it is not either. */
  lemma SucceedsIffNoneCut(p: Primitives, k: Keys, tries: seq<Attempt>, a: Attempt)
    requires Size(tries) + 0x50 + |AsWritten(a.e).text| < TWO63
    ensures Succeeds(p, k, AfterAll(p, k, tries), a) <==> !SomeCut(tries) && a.budget >= 5
  {
    hide AfterAll, Completed, SomeCut, Size, Canonical, AsWritten, Length, AddStages;
    IntactUnlessCut(p, k, tries);
    if SomeCut(tries) {
      BrokenStays(p, k, AfterAll(p, k, tries), a, Size(tries));
    } else {
      AttemptOnCanonical(p, k, Completed(tries), a);
    }
  }
}
