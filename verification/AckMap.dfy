/** The messages that were sent and not acknowledged yet, in sixteen lists selected by the low bits of
    the sequence number.  Sequence numbers repeat, so the map is a multiset. */
module AckMap {
  import opened Bytes
  import opened LinkedLists
  import opened Multisets

  const BUCKETS: nat := 16

  datatype Pending = Pending(seqNum: uint64, time: uint64)

  type Lists = seq<seq<Pending>>

  function BucketOf(s: uint64): (i: nat)
    ensures i < BUCKETS
  {
    s % BUCKETS
  }

  predicate WellFormed(ls: Lists) {
    |ls| == BUCKETS && forall i | 0 <= i < BUCKETS :: forall e | e in ls[i] :: BucketOf(e.seqNum) == i
  }

  const EMPTY: Lists := [[], [], [], [], [], [], [], [], [], [], [], [], [], [], [], []]

  function Numbers(l: seq<Pending>): (m: multiset<uint64>) {
    multiset(seq(|l|, i requires 0 <= i < |l| => l[i].seqNum))
  }

  /** The sequence numbers that still have to be acknowledged, with repetitions. */
  function Outstanding(ls: Lists): (m: multiset<uint64>) {
    if ls == [] then multiset{} else Outstanding(ls[..|ls| - 1]) + Numbers(ls[|ls| - 1])
  }

  /** Everything the map holds, with repetitions: which number was sent when. */
  function Entries(ls: Lists): (m: multiset<Pending>) {
    if ls == [] then multiset{} else Entries(ls[..|ls| - 1]) + multiset(ls[|ls| - 1])
  }

  /** When the messages with this number in one list were sent. */
  function TimesIn(l: seq<Pending>, s: uint64): (ts: seq<uint64>) {
    if l == [] then [] else
    var n := |l| - 1;
    TimesIn(l[..n], s) + if l[n].seqNum == s then [l[n].time] else []
  }

  /** And in the whole map. */
  function Times(ls: Lists, s: uint64): (ts: seq<uint64>) {
    if ls == [] then [] else Times(ls[..|ls| - 1], s) + TimesIn(ls[|ls| - 1], s)
  }

  /** Something was sent before `earliest` and still waits. */
  ghost predicate Older(ls: Lists, earliest: uint64) {
    exists e :: e in Entries(ls) && e.time < earliest
  }

  /** The first entry of the list with this sequence number, or the end of the list. */
  function IndexOf(l: seq<Pending>, s: uint64): (i: nat)
    ensures i <= |l|
    ensures i < |l| ==> l[i].seqNum == s
    ensures forall j | 0 <= j < i :: l[j].seqNum != s
  {
    if l == [] || l[0].seqNum == s then 0 else 1 + IndexOf(l[1..], s)
  }

  function Added(ls: Lists, s: uint64, time: uint64): (r: Lists)
    requires |ls| == BUCKETS
    ensures |r| == BUCKETS
  {
    ls[BucketOf(s) := ls[BucketOf(s)] + [Pending(s, time)]]
  }

  /** Whether the number was there, and the map without one occurrence of it. */
  function Removed(ls: Lists, s: uint64): (r: (bool, Lists))
    requires |ls| == BUCKETS
    ensures |r.1| == BUCKETS
  {
    var l := ls[BucketOf(s)];
    var i := IndexOf(l, s);
    if i == |l| then (false, ls) else (true, ls[BucketOf(s) := Without(l, i)])
  }

  lemma RemovedNothing(ls: Lists, s: uint64)
    requires |ls| == BUCKETS && !Removed(ls, s).0
    ensures Removed(ls, s).1 == ls
  {
  }

  lemma NumbersAppend(a: seq<Pending>, b: seq<Pending>)
    ensures Numbers(a + b) == Numbers(a) + Numbers(b)
  {
    var x := seq(|a|, i requires 0 <= i < |a| => a[i].seqNum);
    var y := seq(|b|, i requires 0 <= i < |b| => b[i].seqNum);
    assert seq(|a + b|, i requires 0 <= i < |a + b| => (a + b)[i].seqNum) == x + y;
  }

  lemma NumbersOne(e: Pending)
    ensures Numbers([e]) == multiset{e.seqNum}
  {
    assert seq(1, i requires 0 <= i < 1 => [e][i].seqNum) == [e.seqNum];
  }

  lemma NumbersMember(l: seq<Pending>, s: uint64)
    ensures s in Numbers(l) <==> exists i :: 0 <= i < |l| && l[i].seqNum == s
  {
    var x := seq(|l|, i requires 0 <= i < |l| => l[i].seqNum);
    assert forall i | 0 <= i < |l| :: x[i] == l[i].seqNum;
    if s in Numbers(l) {
      var i :| 0 <= i < |x| && x[i] == s;
      assert l[i].seqNum == s;
    }
    if i :| 0 <= i < |l| && l[i].seqNum == s {
      assert x[i] == s;
    }
  }

  lemma {:induction false} OutstandingUpdate(ls: Lists, i: nat, l: seq<Pending>)
    requires i < |ls|
    ensures Outstanding(ls[i := l]) + Numbers(ls[i]) == Outstanding(ls) + Numbers(l)
    decreases |ls|
  {
    hide Numbers;
    var n := |ls| - 1;
    var c := ls[i := l];
    if i == n {
      assert c[..n] == ls[..n];
    } else {
      OutstandingUpdate(ls[..n], i, l);
      assert c[..n] == ls[..n][i := l];
      var x, y, z := Outstanding(ls[..n]), Outstanding(c[..n]), Numbers(ls[n]);
      assert Outstanding(c) == y + z && Outstanding(ls) == x + z;
      assert (y + z) + Numbers(ls[i]) == (y + Numbers(ls[i])) + z;
      assert (x + z) + Numbers(l) == (x + Numbers(l)) + z;
    }
  }

  lemma {:induction false} OutstandingMember(ls: Lists, s: uint64)
    ensures s in Outstanding(ls) <==> exists i :: 0 <= i < |ls| && s in Numbers(ls[i])
    decreases |ls|
  {
    hide Numbers;
    if ls != [] {
      var n := |ls| - 1;
      OutstandingMember(ls[..n], s);
      assert forall i | 0 <= i < n :: ls[..n][i] == ls[i];
    }
  }

  lemma EmptyMap()
    ensures WellFormed(EMPTY) && Outstanding(EMPTY) == multiset{}
  {
    NothingOutstanding(EMPTY);
  }

  lemma {:induction false} NothingOutstanding(ls: Lists)
    requires forall i | 0 <= i < |ls| :: ls[i] == []
    ensures Outstanding(ls) == multiset{}
    decreases |ls|
  {
    if ls != [] {
      NothingOutstanding(ls[..|ls| - 1]);
    }
  }

  /** Adding a number adds one occurrence of it. */
  lemma AddedOutstanding(ls: Lists, s: uint64, time: uint64)
    requires WellFormed(ls)
    ensures WellFormed(Added(ls, s, time)) && Outstanding(Added(ls, s, time)) == Outstanding(ls) + multiset{s}
  {
    hide BucketOf, Numbers, Outstanding;
    var i := BucketOf(s);
    var l := ls[i] + [Pending(s, time)];
    NumbersAppend(ls[i], [Pending(s, time)]);
    NumbersOne(Pending(s, time));
    OutstandingUpdate(ls, i, l);
    Cancel(Outstanding(ls[i := l]), Outstanding(ls), Numbers(ls[i]), multiset{s});
  }

  /** Removal succeeds exactly when the number is outstanding, and takes away one occurrence of it. */
  lemma RemovedOutstanding(ls: Lists, s: uint64)
    requires WellFormed(ls)
    ensures var (found, rest) := Removed(ls, s);
      && WellFormed(rest)
      && (found <==> s in Outstanding(ls))
      && Outstanding(ls) == Outstanding(rest) + (if found then multiset{s} else multiset{})
  {
    hide BucketOf, Numbers, Outstanding;
    var b := BucketOf(s);
    var l := ls[b];
    var i := IndexOf(l, s);
    OutstandingMember(ls, s);
    if i == |l| {
      forall k | 0 <= k < BUCKETS
        ensures s !in Numbers(ls[k])
      {
        NumbersMember(ls[k], s);
      }
    } else {
      var rest := Without(l, i);
      NumbersWithout(l, i);
      NumbersMember(l, s);
      OutstandingUpdate(ls, b, rest);
      Cancel(Outstanding(ls), Outstanding(ls[b := rest]), Numbers(rest), multiset{s});
    }
  }

  lemma NumbersWithout(l: seq<Pending>, i: nat)
    requires i < |l|
    ensures Numbers(l) == Numbers(Without(l, i)) + multiset{l[i].seqNum}
  {
    hide Numbers;
    assert l == l[..i] + ([l[i]] + l[i + 1..]);
    NumbersAppend(l[..i], [l[i]] + l[i + 1..]);
    NumbersAppend([l[i]], l[i + 1..]);
    NumbersAppend(l[..i], l[i + 1..]);
    NumbersOne(l[i]);
  }

  /** The map after adding each number with its time. */
  function AddedAll(ls: Lists, numbers: seq<uint64>, times: seq<uint64>): (r: Lists)
    requires |ls| == BUCKETS && |numbers| == |times|
    ensures |r| == BUCKETS
  {
    if numbers == [] then ls else
    var n := |numbers| - 1;
    Added(AddedAll(ls, numbers[..n], times[..n]), numbers[n], times[n])
  }

  lemma {:induction false} AddedAllOutstanding(ls: Lists, numbers: seq<uint64>, times: seq<uint64>)
    requires WellFormed(ls) && |numbers| == |times|
    ensures var r := AddedAll(ls, numbers, times);
      WellFormed(r) && Outstanding(r) == Outstanding(ls) + multiset(numbers)
    decreases |numbers|
  {
    hide Outstanding, Added, BucketOf;
    if numbers != [] {
      var n := |numbers| - 1;
      AddedAllOutstanding(ls, numbers[..n], times[..n]);
      AddedOutstanding(AddedAll(ls, numbers[..n], times[..n]), numbers[n], times[n]);
      assert numbers == numbers[..n] + [numbers[n]];
    }
  }

  lemma {:induction false} IndexIs(l: seq<Pending>, s: uint64, i: nat)
    requires i <= |l| && (forall j | 0 <= j < i :: l[j].seqNum != s) && (i < |l| ==> l[i].seqNum == s)
    ensures IndexOf(l, s) == i
    decreases i
  {
    if i > 0 {
      IndexIs(l[1..], s, i - 1);
    }
  }

  // ----- which message waits since when -----

  lemma {:induction false} EntriesUpdate(ls: Lists, i: nat, l: seq<Pending>)
    requires i < |ls|
    ensures Entries(ls[i := l]) + multiset(ls[i]) == Entries(ls) + multiset(l)
    decreases |ls|
  {
    var n := |ls| - 1;
    var c := ls[i := l];
    if i == n {
      assert c[..n] == ls[..n];
    } else {
      EntriesUpdate(ls[..n], i, l);
      assert c[..n] == ls[..n][i := l];
      var x, y, z := Entries(ls[..n]), Entries(c[..n]), multiset(ls[n]);
      assert Entries(c) == y + z && Entries(ls) == x + z;
      assert (y + z) + multiset(ls[i]) == (y + multiset(ls[i])) + z;
      assert (x + z) + multiset(l) == (x + multiset(l)) + z;
    }
  }

  lemma {:induction false} EntriesMember(ls: Lists, e: Pending)
    ensures e in Entries(ls) <==> exists i :: 0 <= i < |ls| && e in ls[i]
    decreases |ls|
  {
    if ls != [] {
      var n := |ls| - 1;
      EntriesMember(ls[..n], e);
      assert forall i | 0 <= i < n :: ls[..n][i] == ls[i];
    }
  }

  /** A message that was sent waits from the time at which it was sent; everything else waits as before. */
  lemma AddedEntries(ls: Lists, s: uint64, time: uint64)
    requires |ls| == BUCKETS
    ensures Entries(Added(ls, s, time)) == Entries(ls) + multiset{Pending(s, time)}
  {
    hide BucketOf, Entries;
    var i, e := BucketOf(s), Pending(s, time);
    EntriesUpdate(ls, i, ls[i] + [e]);
    assert multiset(ls[i] + [e]) == multiset(ls[i]) + multiset{e};
    Cancel(Entries(ls[i := ls[i] + [e]]), Entries(ls), multiset(ls[i]), multiset{e});
  }

  /** The entries that a run of messages adds. */
  function Sent(numbers: seq<uint64>, times: seq<uint64>): (es: seq<Pending>)
    requires |numbers| == |times|
    ensures |es| == |numbers| && forall i | 0 <= i < |es| :: es[i] == Pending(numbers[i], times[i])
  {
    seq(|numbers|, i requires 0 <= i < |numbers| => Pending(numbers[i], times[i]))
  }

  lemma {:induction false} AddedAllEntries(ls: Lists, numbers: seq<uint64>, times: seq<uint64>)
    requires |ls| == BUCKETS && |numbers| == |times|
    ensures Entries(AddedAll(ls, numbers, times)) == Entries(ls) + multiset(Sent(numbers, times))
    decreases |numbers|
  {
    hide Entries, Added;
    if numbers != [] {
      var n := |numbers| - 1;
      AddedAllEntries(ls, numbers[..n], times[..n]);
      AddedEntries(AddedAll(ls, numbers[..n], times[..n]), numbers[n], times[n]);
      assert Sent(numbers, times) == Sent(numbers[..n], times[..n]) + [Pending(numbers[n], times[n])];
    }
  }

  predicate AllSince(l: seq<Pending>, earliest: uint64) {
    forall j | 0 <= j < |l| :: l[j].time >= earliest
  }

  lemma OneOlder(ls: Lists, i: nat, at: nat, earliest: uint64)
    requires i < |ls| && at < |ls[i]| && ls[i][at].time < earliest
    ensures Older(ls, earliest)
  {
    hide Entries;
    EntriesMember(ls, ls[i][at]);
  }

  lemma NoneOlder(ls: Lists, earliest: uint64)
    requires forall k | 0 <= k < |ls| :: AllSince(ls[k], earliest)
    ensures !Older(ls, earliest)
  {
    hide Entries;
    forall e | e in Entries(ls)
      ensures e.time >= earliest
    {
      EntriesMember(ls, e);
      var i :| 0 <= i < |ls| && e in ls[i];
      assert AllSince(ls[i], earliest);
    }
  }

  /** After a run of messages something is too old exactly when something was, or one of them was sent too early. */
  lemma AddedAllOlder(ls: Lists, numbers: seq<uint64>, times: seq<uint64>, earliest: uint64)
    requires |ls| == BUCKETS && |numbers| == |times|
    ensures Older(AddedAll(ls, numbers, times), earliest) <==>
      Older(ls, earliest) || exists i :: 0 <= i < |times| && times[i] < earliest
  {
    hide Entries, AddedAll;
    AddedAllEntries(ls, numbers, times);
    var all, now := Entries(AddedAll(ls, numbers, times)), Sent(numbers, times);
    assert forall e :: e in all <==> e in Entries(ls) || e in now;
    if i :| 0 <= i < |times| && times[i] < earliest {
      assert now[i] in now;
    }
    if e :| e in now && e.time < earliest {
      var i :| 0 <= i < |now| && now[i] == e;
    }
  }

  lemma {:induction false} TimesInAppend(a: seq<Pending>, b: seq<Pending>, s: uint64)
    ensures TimesIn(a + b, s) == TimesIn(a, s) + TimesIn(b, s)
    decreases |b|
  {
    if b == [] {
      assert a + b == a;
    } else {
      TimesInAppend(a, b[..|b| - 1], s);
      assert (a + b)[..|a + b| - 1] == a + b[..|b| - 1];
    }
  }

  lemma TimesInOne(e: Pending, s: uint64)
    ensures TimesIn([e], s) == if e.seqNum == s then [e.time] else []
  {
    assert [e][..0] == [];
  }

  lemma {:induction false} NoTimes(l: seq<Pending>, s: uint64)
    requires forall e | e in l :: e.seqNum != s
    ensures TimesIn(l, s) == []
    decreases |l|
  {
    if l != [] {
      NoTimes(l[..|l| - 1], s);
    }
  }

  lemma {:induction false} TimesInList(ls: Lists, i: nat, s: uint64)
    requires i < BUCKETS && forall k | 0 <= k < |ls| && k != i :: TimesIn(ls[k], s) == []
    ensures Times(ls, s) == if i < |ls| then TimesIn(ls[i], s) else []
    decreases |ls|
  {
    hide TimesIn;
    if ls != [] {
      TimesInList(ls[..|ls| - 1], i, s);
    }
  }

  /** Every message waits in the list of its number. */
  lemma TimesInBucket(ls: Lists, s: uint64)
    requires WellFormed(ls)
    ensures Times(ls, s) == TimesIn(ls[BucketOf(s)], s)
  {
    hide BucketOf, Times, TimesIn;
    forall k | 0 <= k < BUCKETS && k != BucketOf(s)
      ensures TimesIn(ls[k], s) == []
    {
      NoTimes(ls[k], s);
    }
    TimesInList(ls, BucketOf(s), s);
  }

  lemma {:induction false} TimesInFrom(l: seq<Pending>, s: uint64, i: nat)
    requires i < |TimesIn(l, s)|
    ensures Pending(s, TimesIn(l, s)[i]) in l
    decreases |l|
  {
    if i < |TimesIn(l[..|l| - 1], s)| {
      TimesInFrom(l[..|l| - 1], s, i);
    }
  }

  lemma {:induction false} TimesInMember(l: seq<Pending>, e: Pending)
    ensures e in l <==> e.time in TimesIn(l, e.seqNum)
    decreases |l|
  {
    if l != [] {
      TimesInMember(l[..|l| - 1], e);
    }
  }

  /** The entries and the times of each number tell the same. */
  lemma {:induction false} EntriesTimes(ls: Lists, e: Pending)
    ensures e in Entries(ls) <==> e.time in Times(ls, e.seqNum)
    decreases |ls|
  {
    hide TimesIn;
    if ls != [] {
      EntriesTimes(ls[..|ls| - 1], e);
      TimesInMember(ls[|ls| - 1], e);
    }
  }

  lemma NumbersNone()
    ensures Numbers([]) == multiset{}
  {
  }

  lemma {:induction false} TimesInCount(l: seq<Pending>, s: uint64)
    ensures |TimesIn(l, s)| == Numbers(l)[s]
    decreases |l|
  {
    hide Numbers;
    if l == [] {
      NumbersNone();
    } else {
      var front, e := l[..|l| - 1], l[|l| - 1];
      TimesInCount(front, s);
      NumbersAppend(front, [e]);
      NumbersOne(e);
      assert l == front + [e];
    }
  }

  /** A number waits as many times as it is outstanding. */
  lemma {:induction false} TimesCount(ls: Lists, s: uint64)
    ensures |Times(ls, s)| == Outstanding(ls)[s]
    decreases |ls|
  {
    hide TimesIn, Numbers;
    if ls != [] {
      TimesCount(ls[..|ls| - 1], s);
      TimesInCount(ls[|ls| - 1], s);
    }
  }

  /** Among messages with one number the newest one comes last. */
  lemma AddedTimes(ls: Lists, s: uint64, time: uint64, n: uint64)
    requires WellFormed(ls)
    ensures Times(Added(ls, s, time), n) == Times(ls, n) + if n == s then [time] else []
  {
    hide BucketOf, Times, TimesIn, Outstanding;
    AddedOutstanding(ls, s, time);
    TimesInBucket(ls, n);
    TimesInBucket(Added(ls, s, time), n);
    TimesInAppend(ls[BucketOf(s)], [Pending(s, time)], n);
    TimesInOne(Pending(s, time), n);
  }

  /** A number is found exactly when a message with it waits, and then the one that waits longest is done with. */
  lemma RemovedTimes(ls: Lists, s: uint64, n: uint64)
    requires WellFormed(ls)
    ensures var (found, rest) := Removed(ls, s);
      && (found <==> Times(ls, s) != [])
      && Times(rest, n) == if n == s && found then Times(ls, n)[1..] else Times(ls, n)
  {
    hide BucketOf, Times, TimesIn, Outstanding;
    RemovedOutstanding(ls, s);
    var l := ls[BucketOf(s)];
    var i := IndexOf(l, s);
    TimesInBucket(ls, n);
    TimesInBucket(ls, s);
    if i == |l| {
      NoTimes(l, s);
    } else {
      var a, b := l[..i], l[i + 1..];
      TimesInBucket(Removed(ls, s).1, n);
      NoTimes(a, s);
      assert l == a + ([l[i]] + b);
      TimesInSplit(a, l[i], b, n);
      TimesInSplit(a, l[i], b, s);
      TimesInAppend(a, b, n);
    }
  }

  lemma TimesInSplit(a: seq<Pending>, e: Pending, b: seq<Pending>, n: uint64)
    ensures TimesIn(a + ([e] + b), n) == TimesIn(a, n) + ((if e.seqNum == n then [e.time] else []) + TimesIn(b, n))
  {
    hide TimesIn;
    TimesInAppend(a, [e] + b, n);
    TimesInAppend([e], b, n);
    TimesInOne(e, n);
  }

  /** And the map loses that entry. */
  lemma RemovedEntries(ls: Lists, s: uint64)
    requires WellFormed(ls) && Removed(ls, s).0
    ensures Times(ls, s) != []
    ensures Entries(ls) == Entries(Removed(ls, s).1) + multiset{Pending(s, Times(ls, s)[0])}
  {
    hide BucketOf, Entries, Times, TimesIn;
    var b := BucketOf(s);
    var l := ls[b];
    var i := IndexOf(l, s);
    var rest := Without(l, i);
    TimesInBucket(ls, s);
    NoTimes(l[..i], s);
    assert l == l[..i] + ([l[i]] + l[i + 1..]);
    TimesInSplit(l[..i], l[i], l[i + 1..], s);
    EntriesUpdate(ls, b, rest);
    assert multiset(l) == multiset(rest) + multiset{l[i]};
    Cancel(Entries(ls), Entries(ls[b := rest]), multiset(rest), multiset{l[i]});
  }

  /** All that a removal does. */
  lemma RemovedWaiting(ls: Lists, s: uint64)
    requires WellFormed(ls)
    ensures var (found, rest) := Removed(ls, s);
      && (found <==> Times(ls, s) != [])
      && (if found then Entries(ls) == Entries(rest) + multiset{Pending(s, Times(ls, s)[0])} else rest == ls)
      && forall n :: Times(rest, n) == (if n == s && found then Times(ls, n)[1..] else Times(ls, n))
  {
    hide BucketOf, Entries, Times, Outstanding, Removed;
    RemovedTimes(ls, s, s);
    forall n
      ensures Times(Removed(ls, s).1, n) == if n == s && Removed(ls, s).0 then Times(ls, n)[1..] else Times(ls, n)
    {
      RemovedTimes(ls, s, n);
    }
    if Removed(ls, s).0 {
      RemovedEntries(ls, s);
    } else {
      RemovedNothing(ls, s);
    }
  }

  /** The map as the handler keeps it. */
  class Map {
    const lists: Buckets<Pending>

    ghost predicate Valid()
      reads lists, lists.heads, lists.items
      ensures Valid() ==> |Contents()| == BUCKETS
    {
      lists.Valid() && WellFormed(lists.Lists())
    }

    ghost function Contents(): Lists
      reads lists
    {
      lists.Lists()
    }

    constructor ()
      ensures Valid() && fresh(lists) && fresh(lists.heads) && fresh(lists.items) && Outstanding(Contents()) == multiset{}
    {
      lists := new Buckets(BUCKETS);
      new;
      NothingOutstanding(lists.Lists());
    }

    /** ack_map_add: the number goes to the end of its list. */
    method Add(s: uint64, time: uint64)
      requires Valid()
      modifies lists, lists.heads, lists.items
      ensures Valid() && fresh(lists.items - old(lists.items)) && Contents() == Added(old(Contents()), s, time)
      ensures Entries(Contents()) == old(Entries(Contents())) + multiset{Pending(s, time)}
      ensures forall n :: Times(Contents(), n) == old(Times(Contents(), n)) + if n == s then [time] else []
    {
      hide WellFormed, Outstanding, Buckets.Valid, BucketOf, Entries, Times;
      AddedOutstanding(Contents(), s, time);
      AddedEntries(Contents(), s, time);
      forall n
        ensures Times(Added(Contents(), s, time), n) == Times(Contents(), n) + if n == s then [time] else []
      {
        AddedTimes(Contents(), s, time, n);
      }
      var loc := BucketOf(s);
      var item := new Item(Pending(s, time));
      var last, _, at := lists.Seek(loc, _ => false);
      if last != null {
        lists.Member(loc, at - 1);
      }
      lists.LinkLast(loc, last, item);
    }

    /** ack_map_rm: the first entry with the number is unlinked, or the caller is told there is none. */
    method Remove(s: uint64) returns (found: bool)
      requires Valid()
      modifies lists, lists.heads, lists.items
      ensures Valid() && fresh(lists.items - old(lists.items)) && (found, Contents()) == Removed(old(Contents()), s)
      ensures found <==> old(Times(Contents(), s)) != []
      ensures if found then old(Entries(Contents())) == Entries(Contents()) + multiset{Pending(s, old(Times(Contents(), s))[0])}
              else Contents() == old(Contents())
      ensures forall n ::
        Times(Contents(), n) == (if n == s && found then old(Times(Contents(), n))[1..] else old(Times(Contents(), n)))
    {
      hide WellFormed, Outstanding, Buckets.Valid, BucketOf, Without, Entries, Times;
      RemovedOutstanding(Contents(), s);
      RemovedWaiting(Contents(), s);
      var loc := BucketOf(s);
      var prev, el: Item?<Pending>;
      ghost var at: nat;
      prev, el, at := lists.Seek(loc, (e: Pending) => e.seqNum == s);
      IndexIs(lists.Lists()[loc], s, at);
      found := el != null;
      if found {
        if prev != null {
          lists.Member(loc, at - 1);
        }
        lists.Unlink(loc, prev, el, at);
      }
    }

    /** The overdue check of the handler's loop: something that was sent before `earliest` still waits. */
    method Overdue(earliest: uint64) returns (late: bool)
      requires Valid()
      ensures late <==> Older(Contents(), earliest)
    {
      hide Entries, WellFormed, Older;
      ghost var ls := Contents();
      var i := 0;
      while i < BUCKETS
        invariant i <= BUCKETS
        invariant forall k | 0 <= k < i :: AllSince(ls[k], earliest)
      {
        var _, el, at := lists.Seek(i, (e: Pending) => e.time < earliest);
        if el != null {
          OneOlder(ls, i, at, earliest);
          return true;
        }
        i := i + 1;
      }
      NoneOlder(ls, earliest);
      late := false;
    }
  }
}
