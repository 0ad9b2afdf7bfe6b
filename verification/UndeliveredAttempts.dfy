/** An undelivered file over any run of attempts to append, of which some are cut short: a full disk, or
    the process stopping, lets only some of the writes of undel_add_message happen. */
module UndeliveredAttempts {
  import opened Bytes
  import opened Crypto
  import opened Files
  import opened LogHeader
  import opened Options
  import opened UndeliveredLog

  /** A message to append, and how many writes are possible. */
  datatype Attempt = Attempt(m: bytes, budget: nat)

  /** The file that UndeliveredFile.AddMessage leaves. */
  function Attempted(p: Primitives, auth: Block, data: bytes, a: Attempt): bytes {
    var st := AddStages(p, auth, data, a.m);
    st[Min(|st| - 1, a.budget)]
  }

  /** And when it reports success. */
  predicate Succeeds(p: Primitives, auth: Block, data: bytes, a: Attempt) {
    |AddStages(p, auth, data, a.m)| == 5 && a.budget >= 4
  }

  function AfterAll(p: Primitives, auth: Block, tries: seq<Attempt>): bytes {
    if tries == [] then Canonical(p, auth, []) else
    Attempted(p, auth, AfterAll(p, auth, tries[..|tries| - 1]), tries[|tries| - 1])
  }

  predicate IsWhole(a: Attempt) {
    a.m != [] && a.budget >= 4
  }

  /** An attempt that begins and does not end: an empty message never ends. */
  predicate IsCut(a: Attempt) {
    a.budget >= 1 && !IsWhole(a)
  }

  predicate SomeCut(tries: seq<Attempt>) {
    exists i :: 0 <= i < |tries| && IsCut(tries[i])
  }

  function Completed(tries: seq<Attempt>): Messages {
    if tries == [] then [] else
    var a := tries[|tries| - 1];
    Completed(tries[..|tries| - 1]) + if IsWhole(a) then [a.m] else []
  }

  /** The length of a file that holds everything. */
  function Size(tries: seq<Attempt>): nat {
    if tries == [] then 0x30 else Size(tries[..|tries| - 1]) + 40 + |tries[|tries| - 1].m|
  }

  lemma TriesSnoc(p: Primitives, auth: Block, tries: seq<Attempt>, a: Attempt)
    ensures AfterAll(p, auth, tries + [a]) == Attempted(p, auth, AfterAll(p, auth, tries), a)
    ensures Completed(tries + [a]) == Completed(tries) + if IsWhole(a) then [a.m] else []
    ensures Size(tries + [a]) == Size(tries) + 40 + |a.m|
    ensures SomeCut(tries + [a]) <==> SomeCut(tries) || IsCut(a)
  {
    hide Attempted, IsCut, IsWhole, SomeCut;
    assert (tries + [a])[..|tries|] == tries;
    SomeCutSnoc(tries, a);
  }

  lemma SomeCutSnoc(tries: seq<Attempt>, a: Attempt)
    ensures SomeCut(tries + [a]) <==> SomeCut(tries) || IsCut(a)
  {
    var all := tries + [a];
    if SomeCut(tries) {
      var i :| 0 <= i < |tries| && IsCut(tries[i]);
      assert IsCut(all[i]);
    }
    assert all[|tries|] == a;
  }

  /** The header claims more bytes and more records than there are. */
  predicate Broken(p: Primitives, auth: Block, data: bytes, size: nat) {
    && Authentic(p, auth, data) && |data| < FileLength(data) <= size && RecordCount(data) < FileLength(data)
    && ParseRecords(p, auth, INITIAL_MAC, RecordCount(data), data[0x30..]) == None
  }

  /** What has not so many records does not have one more. */
  lemma {:induction false} OneMoreIsMissing(p: Primitives, auth: Block, prev: Block, n: nat, rest: bytes)
    requires ParseRecords(p, auth, prev, n, rest) == None
    ensures ParseRecords(p, auth, prev, n + 1, rest) == None
    decreases n
  {
    hide ParseRecord;
    var r := ParseRecord(p, auth, prev, rest);
    if n > 0 && r.Some? {
      var m := r.value;
      OneMoreIsMissing(p, auth, rest[8 + |m|..40 + |m|], n - 1, rest[40 + |m|..]);
    }
  }

  /** On a broken file an attempt counts its message in the header, and then finds no end to go on from. */
  lemma AttemptOnBroken(p: Primitives, auth: Block, data: bytes, a: Attempt, size: nat)
    requires Broken(p, auth, data, size) && size + 40 + |a.m| < TWO63
    ensures var h := Header(p, auth, FileLength(data) as nat + 40 + |a.m|, RecordCount(data) as nat + 1);
      AddStages(p, auth, data, a.m) == [data, h + data[0x30..]]
  {
    hide Header, RecordStages, Authentic, FileLength, RecordCount, Overwrite, ParseRecords;
    var h := Header(p, auth, FileLength(data) as nat + 40 + |a.m|, RecordCount(data) as nat + 1);
    OverwriteFront(data, h);
  }

  /** So a broken file stays broken. */
  lemma BrokenStays(p: Primitives, auth: Block, data: bytes, a: Attempt, size: nat)
    requires Broken(p, auth, data, size) && size + 40 + |a.m| < TWO63
    ensures Broken(p, auth, Attempted(p, auth, data, a), size + 40 + |a.m|)
    ensures !Succeeds(p, auth, data, a)
  {
    hide Header, AddStages, Authentic, FileLength, RecordCount, ParseRecords;
    var flen, mnum := FileLength(data) as nat + 40 + |a.m|, RecordCount(data) as nat + 1;
    var h := Header(p, auth, flen, mnum);
    AttemptOnBroken(p, auth, data, a, size);
    HeaderFields(p, auth, flen, mnum, h + data[0x30..]);
    assert (h + data[0x30..])[0x30..] == data[0x30..];
    OneMoreIsMissing(p, auth, INITIAL_MAC, RecordCount(data), data[0x30..]);
  }

  /** An attempt on an intact file that is cut short breaks it. */
  lemma CutBreaks(p: Primitives, auth: Block, ms: Messages, a: Attempt)
    requires AllStorable(ms) && 0x30 + Length(ms) + 40 + |a.m| < TWO63 && IsCut(a)
    ensures Broken(p, auth, Attempted(p, auth, Canonical(p, auth, ms), a), 0x30 + Length(ms) + 40 + |a.m|)
  {
    hide AddStages, Canonical, Length, FileLength, RecordCount, Authentic, ParseRecords;
    StagesOfAttempt(p, auth, ms, a.m);
    LengthBounds(ms);
    var st := AddStages(p, auth, Canonical(p, auth, ms), a.m);
    InterruptedAddIsShort(p, auth, ms, a.m, Min(|st| - 1, a.budget));
  }

  lemma StagesOfAttempt(p: Primitives, auth: Block, ms: Messages, m: bytes)
    requires 0x30 + Length(ms) + 40 + |m| < TWO63
    ensures |AddStages(p, auth, Canonical(p, auth, ms), m)| == if m == [] then 3 else 5
  {
    hide AddStages, Canonical, Length, Header, LastMac, Overwrite, Wrap64, Mac;
    var h := Header(p, auth, Wrap64(0x30 + Length(ms) + 8 + |m| + 32), Wrap64(|ms| + 1));
    StagesOnCanonical(p, auth, ms, m, h + Canonical(p, auth, ms)[0x30..], LastMac(p, auth, INITIAL_MAC, ms));
  }

  predicate Intact(p: Primitives, auth: Block, tries: seq<Attempt>) {
    && 0x30 + Length(Completed(tries)) <= Size(tries) && AllStorable(Completed(tries))
    && (!SomeCut(tries) ==> AfterAll(p, auth, tries) == Canonical(p, auth, Completed(tries)))
    && (SomeCut(tries) ==> Broken(p, auth, AfterAll(p, auth, tries), Size(tries)))
  }

  lemma IntactSnoc(p: Primitives, auth: Block, tries: seq<Attempt>, a: Attempt)
    requires Intact(p, auth, tries) && Size(tries + [a]) < TWO63
    ensures Intact(p, auth, tries + [a])
  {
    hide Intact, SomeCut, Size;
    if SomeCut(tries) {
      BrokenSnoc(p, auth, tries, a);
    } else if IsCut(a) {
      CutSnoc(p, auth, tries, a);
    } else {
      WholeSnoc(p, auth, tries, a);
    }
  }

  /** The lengths add up, and what is completed can be stored. */
  lemma CompletedSnoc(p: Primitives, auth: Block, tries: seq<Attempt>, a: Attempt)
    requires 0x30 + Length(Completed(tries)) <= Size(tries) && AllStorable(Completed(tries)) && |a.m| < TWO64
    ensures 0x30 + Length(Completed(tries + [a])) <= Size(tries + [a]) && AllStorable(Completed(tries + [a]))
  {
    hide Length, Completed, Size, AfterAll, SomeCut, Attempted;
    var ms := Completed(tries);
    TriesSnoc(p, auth, tries, a);
    Snoc(p, auth, INITIAL_MAC, ms, a.m);
    assert ms + [] == ms;
  }

  lemma BrokenSnoc(p: Primitives, auth: Block, tries: seq<Attempt>, a: Attempt)
    requires Intact(p, auth, tries) && Size(tries + [a]) < TWO63 && SomeCut(tries)
    ensures Intact(p, auth, tries + [a])
  {
    hide Broken, Canonical, Length, SomeCut, Completed, AfterAll, Size, Attempted, AllStorable, IsCut, IsWhole;
    TriesSnoc(p, auth, tries, a);
    CompletedSnoc(p, auth, tries, a);
    BrokenStays(p, auth, AfterAll(p, auth, tries), a, Size(tries));
  }

  lemma CutSnoc(p: Primitives, auth: Block, tries: seq<Attempt>, a: Attempt)
    requires Intact(p, auth, tries) && Size(tries + [a]) < TWO63 && !SomeCut(tries) && IsCut(a)
    ensures Intact(p, auth, tries + [a])
  {
    hide Broken, Canonical, Length, SomeCut, Completed, AfterAll, Size, Attempted, AllStorable, IsCut, IsWhole;
    var ms := Completed(tries);
    TriesSnoc(p, auth, tries, a);
    CompletedSnoc(p, auth, tries, a);
    CutBreaks(p, auth, ms, a);
    BrokenForMore(p, auth, AfterAll(p, auth, tries + [a]), 0x30 + Length(ms) + 40 + |a.m|, Size(tries + [a]));
  }

  /** An attempt that does all or nothing. */
  lemma WholeSnoc(p: Primitives, auth: Block, tries: seq<Attempt>, a: Attempt)
    requires Intact(p, auth, tries) && Size(tries + [a]) < TWO63 && !SomeCut(tries) && !IsCut(a)
    ensures Intact(p, auth, tries + [a])
  {
    hide Broken, Canonical, Length, SomeCut, Completed, AfterAll, Size, AddStages, AllStorable;
    var ms := Completed(tries);
    TriesSnoc(p, auth, tries, a);
    CompletedSnoc(p, auth, tries, a);
    assert ms + [] == ms;
    if IsWhole(a) {
      AddExtendsCanonical(p, auth, ms, a.m);
    }
  }

  lemma BrokenForMore(p: Primitives, auth: Block, data: bytes, size: nat, more: nat)
    requires size <= more
    ensures Broken(p, auth, data, size) ==> Broken(p, auth, data, more)
  {
  }

  lemma NothingTried(p: Primitives, auth: Block)
    ensures Intact(p, auth, [])
  {
    hide Canonical;
  }

  /** While no attempt is cut short the file is the image of the completed ones; from the first one that
      is, its header claims more than there is. */
  lemma {:induction false} IntactUnlessCut(p: Primitives, auth: Block, tries: seq<Attempt>)
    requires Size(tries) < TWO63
    ensures Intact(p, auth, tries)
  {
    hide Intact;
    if tries == [] {
      NothingTried(p, auth);
    } else {
      var front, a := tries[..|tries| - 1], tries[|tries| - 1];
      assert tries == front + [a];
      IntactUnlessCut(p, auth, front);
      IntactSnoc(p, auth, front, a);
    }
  }

  /** After any run of attempts the file loads as the completed ones, in order, exactly when no attempt
      was cut short; otherwise it is refused for good. */
  lemma LoadsUnlessCut(p: Primitives, auth: Block, tries: seq<Attempt>)
    requires Size(tries) < TWO63
    ensures Load(p, auth, AfterAll(p, auth, tries)) == if SomeCut(tries) then None else Some(Completed(tries))
  {
    hide AfterAll, Completed, SomeCut, Size, Image, Length, FileLength, RecordCount, ParseRecords, Authentic;
    IntactUnlessCut(p, auth, tries);
    if !SomeCut(tries) {
      var ms := Completed(tries);
      LengthBounds(ms);
      ImageIsLoaded(p, auth, Wrap64(0x30 + Length(ms)), AfterAll(p, auth, tries), ms);
    }
  }

  /** And an attempt succeeds exactly when none before it was cut short and it is not either. */
  lemma SucceedsIffNoneCut(p: Primitives, auth: Block, tries: seq<Attempt>, a: Attempt)
    requires Size(tries) + 40 + |a.m| < TWO63
    ensures Succeeds(p, auth, AfterAll(p, auth, tries), a) <==> !SomeCut(tries) && IsWhole(a)
  {
    hide AfterAll, Completed, SomeCut, Size, Canonical, Length, AddStages, Broken;
    IntactUnlessCut(p, auth, tries);
    if SomeCut(tries) {
      BrokenStays(p, auth, AfterAll(p, auth, tries), a, Size(tries));
    } else {
      StagesOfAttempt(p, auth, Completed(tries), a.m);
    }
  }
}
