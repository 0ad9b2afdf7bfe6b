/** The server's table of logged-in users: a chained hash table that doubles when it is more than
    three quarters full and halves when it is less than a quarter full. */
module HandlerTable {
  import opened Bytes
  import opened Crypto
  import opened LinkedLists
  import opened Multisets
  import opened Options

  const MIN_SIZE: nat := 16
  const MAX_SIZE: nat := 0x10_0000

  /** The thread that serves a user, with the id it was authorised for. */
  datatype Handler = Handler(id: Block, fd: int)

  type Chains = seq<seq<Handler>>

  /** hash_id: the exclusive or of the four words of the id's hash, read as a number. */
  function HashId(p: Primitives, id: Block): uint64 {
    var s := p.sha(id);
    De64(seq(8, i requires 0 <= i < 8 => Xor(Xor(Xor(s[i], s[8 + i]), s[16 + i]), s[24 + i])))
  }

  /** The hash is the exclusive or of the four words of the hash of the id. */
  lemma HashIsXor(p: Primitives, id: Block)
    ensures var s := p.sha(id);
      HashId(p, id) ==
        XorBits(XorBits(XorBits(De64(s[..8]), De64(s[8..16]), 64), De64(s[16..24]), 64), De64(s[24..]), 64)
  {
    hide Xor;
    var s := p.sha(id);
    var a, b, c, d := s[..8], s[8..16], s[16..24], s[24..];
    assert XorBytes(XorBytes(XorBytes(a, b), c), d) ==
      seq(8, i requires 0 <= i < 8 => Xor(Xor(Xor(s[i], s[8 + i]), s[16 + i]), s[24 + i]));
    XorWords(a, b);
    XorWords(XorBytes(a, b), c);
    XorWords(XorBytes(XorBytes(a, b), c), d);
  }

  lemma XorWords(s: bytes, t: bytes)
    requires |s| == 8 && |t| == 8
    ensures De64(XorBytes(s, t)) == XorBits(De64(s), De64(t), 64)
  {
    hide Xor, XorBits;
    XorBytesIsXor(s, t);
  }

  function BucketOf(p: Primitives, id: Block, size: nat): (i: nat)
    requires size > 0
    ensures i < size
  {
    HashId(p, id) % size
  }

  // ----- sizes -----

  predicate LegalSize(s: nat) {
    exists k: nat :: k <= 16 && s == 16 * Pow2(k)
  }

  lemma {:induction false} Pow2Monotone(a: nat, b: nat)
    requires a <= b
    ensures Pow2(a) <= Pow2(b)
    decreases b
  {
    if a < b {
      Pow2Monotone(a, b - 1);
    }
  }

  lemma Pow2Of16()
    ensures Pow2(16) == 0x1_0000
  {
    assert Pow2(16) == 0x10 * Pow2(12) && Pow2(12) == 0x10 * Pow2(8) && Pow2(8) == 0x10 * Pow2(4);
  }

  lemma LegalRange(s: nat) returns (k: nat)
    requires LegalSize(s)
    ensures k <= 16 && s == 16 * Pow2(k)
    ensures MIN_SIZE <= s <= MAX_SIZE
    ensures k == 16 <==> s == MAX_SIZE
    ensures k == 0 <==> s == MIN_SIZE
  {
    k :| k <= 16 && s == 16 * Pow2(k);
    Pow2Of16();
    Pow2Monotone(k, 16);
    if k < 16 {
      Pow2Monotone(k + 1, 16);
    }
  }

  lemma Sixteens(n: nat)
    ensures (16 * n) % 16 == 0
  {
  }

  lemma ThirtyTwos(n: nat)
    ensures (32 * n) % 32 == 0 && 32 * n / 2 == 16 * n
  {
  }

  lemma LegalDouble(s: nat)
    requires LegalSize(s) && s != MAX_SIZE
    ensures LegalSize(2 * s)
  {
    var k := LegalRange(s);
    assert Pow2(k + 1) == 2 * Pow2(k);
  }

  lemma LegalHalf(s: nat)
    requires LegalSize(s) && s != MIN_SIZE
    ensures s % 32 == 0 && LegalSize(s / 2)
  {
    var k := LegalRange(s);
    var h := Pow2(k - 1);
    assert Pow2(k) == 2 * h;
    ThirtyTwos(h);
  }

  lemma LegalSizes(s: nat)
    requires LegalSize(s)
    ensures MIN_SIZE <= s <= MAX_SIZE && s % 16 == 0
    ensures s != MAX_SIZE ==> LegalSize(2 * s)
    ensures s != MIN_SIZE ==> s % 32 == 0 && LegalSize(s / 2)
  {
    hide LegalSize, Pow2;
    var k := LegalRange(s);
    Sixteens(Pow2(k));
    if s != MAX_SIZE {
      LegalDouble(s);
    }
    if s != MIN_SIZE {
      LegalHalf(s);
    }
  }

  /** The fractions of a size that the thresholds use. */
  lemma Fractions(s: nat, n: nat)
    requires s == 16 * n
    ensures s / 4 == 4 * n && s / 2 == 8 * n && s * 3 / 4 == 12 * n && s * 3 / 8 == 6 * n
  {
  }

  /** Elements and size after a successful add. */
  function Grown(elements: nat, size: nat): (nat, nat) {
    (elements + 1, if elements + 1 > size * 3 / 4 && 2 * size <= MAX_SIZE then 2 * size else size)
  }

  /** Elements and size after a successful removal. */
  function Shrunk(elements: nat, size: nat): (nat, nat)
    requires elements > 0
  {
    (elements - 1, if elements - 1 < size / 4 && size / 2 >= MIN_SIZE then size / 2 else size)
  }

  /** What holds of every table between operations. */
  predicate Balanced(elements: nat, size: nat) {
    && LegalSize(size)
    && (size == MIN_SIZE || elements >= size / 4)
    && (size == MAX_SIZE || elements <= size * 3 / 4)
  }

  /** The entries that a change of size from `from` to `to` moves to another chain. */
  function Moved(elements: nat, from: nat, to: nat): nat {
    if from == to then 0 else elements
  }

  /** Work saved up for the next change of size. */
  function Credit(elements: nat, size: nat): nat {
    var high := 3 * (elements - size / 2);
    var low := if size == MIN_SIZE then 0 else 2 * (size * 3 / 8 + 1 - elements);
    if high >= 0 && high >= low then high else if low >= 0 then low else 0
  }

  /** An add pays at most three relinked entries, counting what it saves up. */
  lemma AddIsPaid(elements: nat, size: nat)
    requires Balanced(elements, size)
    ensures var (e, s) := Grown(elements, size);
      Balanced(e, s) && Moved(e, size, s) + Credit(e, s) <= Credit(elements, size) + 3
  {
    hide LegalSize;
    LegalSizes(size);
    var n := size / 16;
    Fractions(size, n);
    Fractions(2 * size, 2 * n);
    if size != MAX_SIZE {
      LegalSizes(2 * size);
    }
  }

  lemma RemovalIsPaid(elements: nat, size: nat)
    requires Balanced(elements, size) && elements > 0
    ensures var (e, s) := Shrunk(elements, size);
      Balanced(e, s) && Moved(e, size, s) + Credit(e, s) <= Credit(elements, size) + 3
  {
    hide LegalSize;
    LegalSizes(size);
    var n := size / 16;
    Fractions(size, n);
    if size != MIN_SIZE {
      Fractions(size / 2, n / 2);
      LegalSizes(size / 2);
    }
  }

  /** A history of successful operations: true is an add, false a removal. */
  function Sizes(history: seq<bool>): (nat, nat) {
    if history == [] then (0, MIN_SIZE) else
    var (e, s) := Sizes(history[..|history| - 1]);
    if history[|history| - 1] then Grown(e, s) else if e > 0 then Shrunk(e, s) else (e, s)
  }

  function Relinked(history: seq<bool>): nat {
    if history == [] then 0 else
    var (_, s) := Sizes(history[..|history| - 1]);
    var (e', s') := Sizes(history);
    Relinked(history[..|history| - 1]) + Moved(e', s, s')
  }

  /** Over every run from the empty table the size stays within its bounds, and all resizes together
      relink at most three entries for each operation. */
  lemma {:induction false} ResizesAreCheap(history: seq<bool>)
    ensures var (e, s) := Sizes(history);
      Balanced(e, s) && Relinked(history) + Credit(e, s) <= 3 * |history|
    ensures var (e, s) := Sizes(history);
      && (exists k: nat :: k <= 16 && s == 16 * Pow2(k))
      && (s == 16 || 4 * e >= s) && (s == 0x10_0000 || 4 * e <= 3 * s)
  {
    if history == [] {
      assert MIN_SIZE == 16 * Pow2(0);
    } else {
      var front := history[..|history| - 1];
      ResizesAreCheap(front);
      var (e, s) := Sizes(front);
      if history[|history| - 1] {
        AddIsPaid(e, s);
      } else if e > 0 {
        RemovalIsPaid(e, s);
      }
    }
    BalancedBounds(Sizes(history).0, Sizes(history).1);
  }

  lemma BalancedBounds(e: nat, s: nat)
    requires Balanced(e, s)
    ensures (s == 16 || 4 * e >= s) && (s == 0x10_0000 || 4 * e <= 3 * s)
  {
    hide LegalSize;
    LegalSizes(s);
    Fractions(s, s / 16);
  }

  // ----- chains -----

  /** All the entries of the table. */
  function All(bs: Chains): (m: multiset<Handler>) {
    if bs == [] then multiset{} else All(bs[..|bs| - 1]) + multiset(bs[|bs| - 1])
  }

  predicate WellPlaced(p: Primitives, bs: Chains) {
    forall i | 0 <= i < |bs| :: forall h | h in bs[i] :: BucketOf(p, h.id, |bs|) == i
  }

  /** Every user of `users` has one entry, and nobody else has any. */
  ghost predicate Holds(entries: multiset<Handler>, users: map<Block, Handler>) {
    && (forall id | id in users :: users[id].id == id)
    && (forall h :: entries[h] == if h.id in users && users[h.id] == h then 1 else 0)
  }

  lemma {:induction false} AllUpdate(bs: Chains, i: nat, b: seq<Handler>)
    requires i < |bs|
    ensures All(bs[i := b]) + multiset(bs[i]) == All(bs) + multiset(b)
    decreases |bs|
  {
    var n := |bs| - 1;
    var c := bs[i := b];
    if i == n {
      assert c[..n] == bs[..n];
    } else {
      AllUpdate(bs[..n], i, b);
      assert c[..n] == bs[..n][i := b];
      var x, y, z := All(bs[..n]), All(c[..n]), multiset(bs[n]);
      assert All(c) == y + z && All(bs) == x + z;
      assert (y + z) + multiset(bs[i]) == (y + multiset(bs[i])) + z;
      assert (x + z) + multiset(b) == (x + multiset(b)) + z;
    }
  }

  lemma {:induction false} AllMember(bs: Chains, h: Handler)
    ensures h in All(bs) <==> exists i :: 0 <= i < |bs| && h in bs[i]
    decreases |bs|
  {
    if bs != [] {
      var n := |bs| - 1;
      AllMember(bs[..n], h);
      assert forall i | 0 <= i < n :: bs[..n][i] == bs[i];
    }
  }

  lemma {:induction false} AllOfEmpty(bs: Chains)
    requires forall i | 0 <= i < |bs| :: bs[i] == []
    ensures All(bs) == multiset{}
    decreases |bs|
  {
    if bs != [] {
      AllOfEmpty(bs[..|bs| - 1]);
    }
  }

  /** The table has as many entries as there are users. */
  lemma {:induction false} HoldsCounts(entries: multiset<Handler>, users: map<Block, Handler>)
    requires Holds(entries, users)
    ensures |entries| == |users|
    decreases |users|
  {
    if users == map[] {
      if h :| h in entries {
        assert entries[h] == 0;
      }
    } else {
      var id :| id in users;
      var h, rest := users[id], users - {id};
      assert entries[h] == 1;
      HoldsCounts(entries - multiset{h}, rest);
      assert users.Keys == rest.Keys + {id};
      assert |entries - multiset{h}| == |entries| - 1;
    }
  }

  /** A user's entry is found in the chain that the user's hash selects, and only there. */
  lemma FoundInBucket(p: Primitives, bs: Chains, users: map<Block, Handler>, id: Block)
    requires bs != [] && WellPlaced(p, bs) && Holds(All(bs), users)
    ensures id in users ==> users[id] in bs[BucketOf(p, id, |bs|)]
    ensures forall h | h in bs[BucketOf(p, id, |bs|)] :: h.id in users && users[h.id] == h
  {
    if id in users {
      AllMember(bs, users[id]);
      assert All(bs)[users[id]] == 1;
    }
    forall h | h in bs[BucketOf(p, id, |bs|)]
      ensures h.id in users && users[h.id] == h
    {
      AllMember(bs, h);
      assert All(bs)[h] > 0;
    }
  }

  lemma ChainReplaced(p: Primitives, bs: Chains, i: nat, b: seq<Handler>)
    requires i < |bs| && WellPlaced(p, bs)
    requires forall x | x in b :: BucketOf(p, x.id, |bs|) == i
    ensures WellPlaced(p, bs[i := b])
  {
    hide BucketOf;
  }

  /** Putting an entry anywhere in its own chain adds just that entry. */
  lemma PutInChain(p: Primitives, bs: Chains, i: nat, h: Handler, b: seq<Handler>)
    requires bs != [] && WellPlaced(p, bs) && i == BucketOf(p, h.id, |bs|)
    requires multiset(b) == multiset(bs[i]) + multiset{h}
    ensures WellPlaced(p, bs[i := b]) && All(bs[i := b]) == All(bs) + multiset{h}
  {
    hide BucketOf, All;
    AllUpdate(bs, i, b);
    forall x | x in b
      ensures BucketOf(p, x.id, |bs|) == i
    {
      assert x in multiset(b);
      assert x == h || x in multiset(bs[i]);
    }
    ChainReplaced(p, bs, i, b);
    Cancel(All(bs[i := b]), All(bs), multiset(bs[i]), multiset{h});
  }

  lemma TakeFromChain(p: Primitives, bs: Chains, i: nat, h: Handler, b: seq<Handler>)
    requires i < |bs| && WellPlaced(p, bs)
    requires multiset(bs[i]) == multiset(b) + multiset{h}
    ensures WellPlaced(p, bs[i := b]) && All(bs) == All(bs[i := b]) + multiset{h}
  {
    hide BucketOf, All;
    AllUpdate(bs, i, b);
    forall x | x in b
      ensures BucketOf(p, x.id, |bs|) == i
    {
      assert x in multiset(b);
      assert x in multiset(bs[i]);
    }
    ChainReplaced(p, bs, i, b);
    Cancel(All(bs), All(bs[i := b]), multiset(b), multiset{h});
  }

  lemma HoldsMore(entries: multiset<Handler>, users: map<Block, Handler>, h: Handler)
    requires Holds(entries, users) && h.id !in users
    ensures Holds(entries + multiset{h}, users[h.id := h])
  {
  }

  lemma HoldsLess(entries: multiset<Handler>, users: map<Block, Handler>, h: Handler)
    requires Holds(entries + multiset{h}, users)
    ensures h.id in users && users[h.id] == h && Holds(entries, users - {h.id}) && |users - {h.id}| == |users| - 1
  {
    assert (entries + multiset{h})[h] > 0;
    var rest := users - {h.id};
    assert users.Keys == rest.Keys + {h.id};
    forall x
      ensures entries[x] == if x.id in rest && rest[x.id] == x then 1 else 0
    {
      assert (entries + multiset{h})[x] == if x.id in users && users[x.id] == x then 1 else 0;
    }
  }

  // ----- the table itself -----

  class Table {
    var buckets: Buckets<Handler>
    var elements: nat

    /** The users that are logged in, and how many entries resizes have moved in how many operations. */
    ghost var users: map<Block, Handler>
    ghost var relinked: nat
    ghost var operations: nat

    function Size(): nat
      reads this
    {
      buckets.heads.Length
    }

    /** The chains hold the users, each where its hash says. */
    ghost predicate Stored(p: Primitives)
      reads this, buckets, buckets.heads, buckets.items
    {
      && buckets.Valid()
      && Size() > 0
      && elements == |users|
      && WellPlaced(p, buckets.Lists())
      && Holds(All(buckets.Lists()), users)
    }

    ghost predicate Valid(p: Primitives)
      reads this, buckets, buckets.heads, buckets.items
    {
      && Stored(p)
      && Balanced(elements, Size())
      && relinked + Credit(elements, Size()) <= 3 * operations
    }

    /** init_handler_table. */
    constructor (p: Primitives)
      ensures Valid(p) && fresh(buckets) && fresh(buckets.heads) && fresh(buckets.items)
      ensures users == map[] && operations == 0 && relinked == 0 && Size() == 16
    {
      buckets := new Buckets(MIN_SIZE);
      elements, users, relinked, operations := 0, map[], 0, 0;
      new;
      AllOfEmpty(buckets.Lists());
      assert MIN_SIZE == 16 * Pow2(0);
    }

    /** The walk along a user's chain: the user's entry and the one before it, or the last one. */
    method Find(p: Primitives, id: Block) returns (index: nat, before: Item?<Handler>, found: Item?<Handler>, ghost at: nat)
      requires Stored(p)
      ensures index == BucketOf(p, id, Size()) && index < |buckets.chains| && at <= |buckets.chains[index]|
      ensures found == (if at < |buckets.chains[index]| then buckets.chains[index][at] else null)
      ensures before == (if at > 0 then buckets.chains[index][at - 1] else null)
      ensures id in users <==> found != null
      ensures found != null ==> found.data == users[id]
    {
      hide BucketOf, WellPlaced, All;
      index := BucketOf(p, id, Size());
      before, found, at := buckets.Seek(index, (h: Handler) => h.id == id);
      FoundInBucket(p, buckets.Lists(), users, id);
      assert found != null ==> buckets.Lists()[index][at] == found.data;
    }

    /** get_handler: the handler of a user, or NULL. */
    method Get(p: Primitives, id: Block) returns (r: Option<Handler>)
      requires Valid(p)
      ensures r == if id in users then Some(users[id]) else None
    {
      hide BucketOf;
      var _, _, found, _ := Find(p, id);
      r := if found == null then None else Some(found.data);
    }

    /** resize_handler_table: every entry is relinked into a new set of chains.  A size that is out of
        range is ignored. */
    method Resize(p: Primitives, nsize: nat)
      requires Stored(p)
      modifies this`buckets, this`relinked, buckets.items
      ensures Stored(p) && buckets.items <= old(buckets.items)
      ensures !(MIN_SIZE <= nsize <= MAX_SIZE) ==> buckets == old(buckets) && relinked == old(relinked)
      ensures MIN_SIZE <= nsize <= MAX_SIZE ==>
        fresh(buckets) && fresh(buckets.heads) && Size() == nsize && relinked == old(relinked) + elements
    {
      hide BucketOf, WellPlaced, Holds, All, Buckets.Valid, Pending, Buckets.Lists;
      if nsize > MAX_SIZE || nsize < MIN_SIZE {
        return;
      }
      var nbuckets := new Buckets<Handler>(nsize);
      EmptyChains(p, nbuckets.Lists());
      AllPending(nbuckets);
      ghost var bs := buckets.Lists();
      AllOfEmpty(bs[..0]);
      var i := 0;
      while i < buckets.heads.Length
        invariant i <= buckets.heads.Length && Pending(i, nbuckets)
        invariant buckets.Lists() == bs
        invariant nbuckets.Valid() && nbuckets.heads.Length == nsize && nbuckets.items <= buckets.items
        invariant WellPlaced(p, nbuckets.Lists())
        invariant All(nbuckets.Lists()) == All(bs[..i])
        invariant relinked == old(relinked) + |All(nbuckets.Lists())|
        modifies this`relinked, nbuckets, nbuckets.heads, buckets.items
      {
        MoveChain(p, nbuckets, i);
        AllSnoc(bs, i);
        i := i + 1;
      }
      assert bs[..i] == bs;
      HoldsCounts(All(bs), users);
      buckets := nbuckets;
    }

    /** The chains from number `i` on are still linked, and apart from each other and from the new ones. */
    ghost predicate Pending(i: nat, nbuckets: Buckets<Handler>)
      reads this, buckets, buckets.heads, buckets.items, nbuckets
    {
      && |buckets.chains| == buckets.heads.Length
      && (forall k | 0 <= k < |buckets.chains| :: forall x | x in buckets.chains[k] :: x in buckets.items)
      && (forall k | i <= k < |buckets.chains| :: Chained(buckets.heads[k], buckets.chains[k]))
      && (forall j, k | 0 <= j < k < |buckets.chains| :: Apart(buckets.chains[j], buckets.chains[k]))
      && (forall k | i <= k < |buckets.chains| :: forall x | x in buckets.chains[k] :: x !in nbuckets.items)
    }

    lemma AllPending(nbuckets: Buckets<Handler>)
      requires buckets.Valid() && nbuckets.items == {}
      ensures Pending(0, nbuckets)
    {
    }

    /** One turn of the outer loop of resize_handler_table. */
    method MoveChain(p: Primitives, nbuckets: Buckets<Handler>, i: nat)
      requires Pending(i, nbuckets) && i < buckets.heads.Length
      requires nbuckets != buckets && nbuckets.heads != buckets.heads && nbuckets.items <= buckets.items
      requires nbuckets.Valid() && nbuckets.heads.Length > 0 && WellPlaced(p, nbuckets.Lists())
      modifies this`relinked, nbuckets, nbuckets.heads, buckets.items
      ensures Pending(i + 1, nbuckets)
      ensures nbuckets.Valid() && nbuckets.items <= buckets.items && WellPlaced(p, nbuckets.Lists())
      ensures i < |buckets.Lists()| && buckets.Lists() == old(buckets.Lists())
      ensures All(nbuckets.Lists()) == old(All(nbuckets.Lists())) + multiset(buckets.Lists()[i])
      ensures relinked == old(relinked) + |buckets.Lists()[i]|
    {
      hide BucketOf, WellPlaced, Holds, All, Data, Buckets.Valid;
      ghost var chain := buckets.chains[i];
      assert Chained(buckets.heads[i], chain);
      forall k, x | i < k < |buckets.chains| && x in buckets.chains[k]
        ensures x !in chain
      {
        assert Apart(chain, buckets.chains[k]);
      }
      label before:
      Relink(p, nbuckets, buckets.heads[i], chain);
      forall k | i < k < |buckets.chains|
        ensures Chained(buckets.heads[k], buckets.chains[k])
      {
        ghost var other := buckets.chains[k];
        assert old@before(Chained(buckets.heads[k], buckets.chains[k]));
        assert forall j | 0 <= j < |other| :: other[j] in other;
        assert forall j {:trigger other[j].next} | 0 <= j < |other| :: other[j].next == old@before(other[j].next);
      }
      relinked := relinked + |chain|;
    }

    /** add_handler: refused when the user is there already. */
    method Add(p: Primitives, handler: Handler) returns (ok: bool)
      requires Valid(p)
      modifies this, buckets, buckets.heads, buckets.items
      ensures Valid(p) && SameOrNew(old(buckets), old(buckets.items))
      ensures ok == (handler.id !in old(users))
      ensures !ok ==> users == old(users) && operations == old(operations) && relinked == old(relinked)
      ensures ok ==> users == old(users)[handler.id := handler] && operations == old(operations) + 1
      ensures ok ==> (elements, Size()) == Grown(old(elements), old(Size()))
      ensures ok ==>
        && elements == old(elements) + 1
        && Size() == (if 4 * elements > 3 * old(Size()) && 2 * old(Size()) <= 0x10_0000 then 2 * old(Size()) else old(Size()))
    {
      hide Stored, LegalSize, BucketOf, Credit;
      SizeIsPositive(p);
      LegalSizes(Size());
      Fractions(Size(), Size() / 16);
      AddIsPaid(elements, Size());
      var index: nat, last, found: Item?<Handler>;
      ghost var at: nat;
      index, last, found, at := Find(p, handler.id);
      ok := found == null;
      if ok {
        Append(p, handler, index, last);
        if elements > Size() * 3 / 4 {
          Resize(p, 2 * Size());
        }
      }
    }

    /** The chains are the same objects as before, or new ones; entries are old, or new. */
    twostate predicate SameOrNew(were: Buckets<Handler>, items: set<Item<Handler>>)
      reads this, buckets
    {
      && (buckets == were || (fresh(buckets) && fresh(buckets.heads)))
      && fresh(buckets.items - items)
    }

    /** rem_handler: the user's entry, and no other, is taken out. */
    method Remove(p: Primitives, id: Block) returns (ok: bool)
      requires Valid(p)
      modifies this, buckets, buckets.heads, buckets.items
      ensures Valid(p) && SameOrNew(old(buckets), old(buckets.items))
      ensures ok == (id in old(users))
      ensures !ok ==> users == old(users) && operations == old(operations) && relinked == old(relinked)
      ensures ok ==> users == old(users) - {id} && operations == old(operations) + 1
      ensures ok ==> old(elements) > 0 && (elements, Size()) == Shrunk(old(elements), old(Size()))
      ensures ok ==>
        && elements == old(elements) - 1
        && 2 * Size() == (if 4 * elements < old(Size()) && old(Size()) >= 32 then old(Size()) else 2 * old(Size()))
    {
      hide Stored, LegalSize, BucketOf, Credit;
      SizeIsPositive(p);
      LegalSizes(Size());
      Fractions(Size(), Size() / 16);
      var index: nat, before, found: Item?<Handler>;
      ghost var at: nat;
      index, before, found, at := Find(p, id);
      ok := found != null;
      if ok {
        UsedTableIsNotEmpty(p, id);
        RemovalIsPaid(elements, Size());
        Unlink(p, id, index, before, found, at);
        if elements < Size() / 4 {
          Resize(p, Size() / 2);
        }
      }
    }

    lemma SizeIsPositive(p: Primitives)
      requires Stored(p)
      ensures Size() > 0
    {
    }

    lemma UsedTableIsNotEmpty(p: Primitives, id: Block)
      requires Stored(p) && id in users
      ensures elements > 0
    {
      assert users.Keys == (users - {id}).Keys + {id};
    }

    /** The end of the walk in add_handler: a new user is put at the end of the chain. */
    method Append(p: Primitives, handler: Handler, index: nat, last: Item?<Handler>)
      requires Stored(p) && handler.id !in users && index == BucketOf(p, handler.id, Size())
      requires index < |buckets.chains|
      requires last == if buckets.chains[index] == [] then null else buckets.chains[index][|buckets.chains[index]| - 1]
      modifies this`elements, this`users, this`operations, buckets, buckets.heads, buckets.items
      ensures Stored(p) && elements == old(elements) + 1 && fresh(buckets.items - old(buckets.items))
      ensures users == old(users)[handler.id := handler] && operations == old(operations) + 1
    {
      hide BucketOf, WellPlaced, Holds, All, Buckets.Valid;
      ghost var bs := buckets.Lists();
      if last != null {
        buckets.Member(index, |buckets.chains[index]| - 1);
      }
      AppendedHolds(p, bs, users, index, handler);
      var item := new Item(handler);
      buckets.LinkLast(index, last, item);
      elements, users, operations := elements + 1, users[handler.id := handler], operations + 1;
    }

    /** The end of the walk in rem_handler: the entry that was found is unlinked. */
    method Unlink(p: Primitives, id: Block, index: nat, before: Item?<Handler>, found: Item<Handler>, ghost at: nat)
      requires Stored(p) && id in users && elements > 0 && index == BucketOf(p, id, Size())
      requires index < |buckets.chains| && at < |buckets.chains[index]| && found == buckets.chains[index][at]
      requires before == if at > 0 then buckets.chains[index][at - 1] else null
      requires found.data == users[id]
      modifies this`elements, this`users, this`operations, buckets, buckets.heads, buckets.items
      ensures Stored(p) && elements == old(elements) - 1 && buckets.items == old(buckets.items)
      ensures users == old(users) - {id} && operations == old(operations) + 1
    {
      hide BucketOf, WellPlaced, All, Holds, Buckets.Valid, Without;
      ghost var bs := buckets.Lists();
      ghost var rest := Without(bs[index], at);
      WithoutCounts(bs[index], at);
      HoldsKeys(All(bs), users, id);
      if at > 0 {
        buckets.Member(index, at - 1);
      }
      TakeFromChain(p, bs, index, found.data, rest);
      HoldsLess(All(bs[index := rest]), users, found.data);
      buckets.Unlink(index, before, found, at);
      assert buckets.Lists() == bs[index := rest];
      elements, users, operations := elements - 1, users - {id}, operations + 1;
    }
  }

  /** One more user, at the end of the user's own chain. */
  lemma AppendedHolds(p: Primitives, bs: Chains, users: map<Block, Handler>, index: nat, h: Handler)
    requires bs != [] && WellPlaced(p, bs) && Holds(All(bs), users) && h.id !in users
    requires index == BucketOf(p, h.id, |bs|)
    ensures var more := bs[index := bs[index] + [h]];
      && WellPlaced(p, more) && Holds(All(more), users[h.id := h]) && |users[h.id := h]| == |users| + 1
  {
    hide BucketOf, WellPlaced, Holds, All;
    PutInChain(p, bs, index, h, bs[index] + [h]);
    HoldsMore(All(bs), users, h);
    HoldsCounts(All(bs), users);
    HoldsCounts(All(bs[index := bs[index] + [h]]), users[h.id := h]);
  }

  lemma HoldsKeys(entries: multiset<Handler>, users: map<Block, Handler>, id: Block)
    requires Holds(entries, users) && id in users
    ensures users[id].id == id
  {
  }

  lemma WithoutCounts(chain: seq<Handler>, i: nat)
    requires i < |chain|
    ensures multiset(chain) == multiset(Without(chain, i)) + multiset{chain[i]}
  {
    assert chain == chain[..i] + [chain[i]] + chain[i + 1..];
  }

  lemma EmptyChains(p: Primitives, bs: Chains)
    requires forall i | 0 <= i < |bs| :: bs[i] == []
    ensures WellPlaced(p, bs) && All(bs) == multiset{}
  {
    AllOfEmpty(bs);
  }

  lemma AllSnoc(bs: Chains, i: nat)
    requires i < |bs|
    ensures All(bs[..i + 1]) == All(bs[..i]) + multiset(bs[i])
  {
    assert bs[..i + 1][..i] == bs[..i];
  }

  /** One entry is put in front of its new chain. */
  method RelinkOne(p: Primitives, nbuckets: Buckets<Handler>, cur: Item<Handler>)
    requires nbuckets.Valid() && nbuckets.heads.Length > 0 && WellPlaced(p, nbuckets.Lists()) && cur !in nbuckets.items
    modifies nbuckets, nbuckets.heads, cur
    ensures nbuckets.Valid() && WellPlaced(p, nbuckets.Lists()) && nbuckets.items == old(nbuckets.items) + {cur}
    ensures All(nbuckets.Lists()) == old(All(nbuckets.Lists())) + multiset{cur.data}
  {
    hide BucketOf, WellPlaced, All, Buckets.Valid, Data, AllData;
    var index := BucketOf(p, cur.data.id, nbuckets.heads.Length);
    ghost var nb := nbuckets.Lists();
    PutInChain(p, nb, index, cur.data, [cur.data] + nb[index]);
    nbuckets.LinkFirst(index, cur);
  }

  lemma MoreData(items: seq<Item<Handler>>, j: nat)
    requires j < |items|
    ensures items[..j + 1] == items[..j] + [items[j]]
    ensures multiset(Data(items)[..j + 1]) == multiset(Data(items)[..j]) + multiset{items[j].data}
  {
    assert Data(items)[..j + 1] == Data(items)[..j] + [items[j].data];
  }

  /** The inner loop of resize_handler_table: the entries of one old chain are put in front of their new
      chains, each after the link to the next one was read. */
  method Relink(p: Primitives, nbuckets: Buckets<Handler>, head: Item?<Handler>, ghost items: seq<Item<Handler>>)
    requires nbuckets.Valid() && nbuckets.heads.Length > 0 && WellPlaced(p, nbuckets.Lists())
    requires Chained(head, items) && forall x | x in items :: x !in nbuckets.items
    modifies nbuckets, nbuckets.heads, items
    ensures nbuckets.Valid() && WellPlaced(p, nbuckets.Lists())
    ensures forall x | x in nbuckets.items :: x in old(nbuckets.items) || x in items
    ensures All(nbuckets.Lists()) == old(All(nbuckets.Lists())) + multiset(Data(items))
  {
    hide BucketOf, WellPlaced, All, Buckets.Valid, Data, AllData;
    var cur := head;
    ghost var j := 0;
    assert Data(items)[..0] == [];
    while cur != null
      invariant j <= |items| && cur == (if j < |items| then items[j] else null)
      invariant forall k {:trigger items[k].next} | j <= k < |items| ::
        items[k].next == (if k + 1 < |items| then items[k + 1] else null)
      invariant nbuckets.Valid() && WellPlaced(p, nbuckets.Lists())
      invariant forall x | x in nbuckets.items :: x in old(nbuckets.items) || x in items[..j]
      invariant All(nbuckets.Lists()) == old(All(nbuckets.Lists())) + multiset(Data(items)[..j])
      decreases |items| - j
    {
      var next := cur.next;
      MoreData(items, j);
      RelinkOne(p, nbuckets, cur);
      cur := next;
      j := j + 1;
    }
    assert Data(items)[..j] == Data(items) && items[..j] == items;
  }
}
