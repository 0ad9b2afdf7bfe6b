/** Singly linked lists, and arrays of them: what the chained hash tables and the lists in files are made of. */
module LinkedLists {

  class Item<T> {
    const data: T
    var next: Item?<T>

    constructor (data: T)
      ensures this.data == data && next == null
    {
      this.data, next := data, null;
    }
  }

  /** `items` is a singly linked list that starts at `head` and ends in NULL. */
  ghost predicate Chained<T>(head: Item?<T>, items: seq<Item<T>>)
    reads items
  {
    && head == (if items == [] then null else items[0])
    && (forall i, j | 0 <= i < j < |items| :: items[i] != items[j])
    && (forall i {:trigger items[i].next} | 0 <= i < |items| ::
          items[i].next == (if i + 1 < |items| then items[i + 1] else null))
  }

  function Data<T>(items: seq<Item<T>>): (xs: seq<T>)
    ensures |xs| == |items| && forall i | 0 <= i < |items| :: xs[i] == items[i].data
  {
    seq(|items|, i requires 0 <= i < |items| => items[i].data)
  }

  lemma DataAppend<T>(a: seq<Item<T>>, b: seq<Item<T>>)
    ensures Data(a + b) == Data(a) + Data(b)
  {
  }

  lemma DataOne<T>(item: Item<T>)
    ensures Data([item]) == [item.data]
  {
  }

  function Without<T>(xs: seq<T>, at: nat): (r: seq<T>)
    requires at < |xs|
  {
    xs[..at] + xs[at + 1..]
  }

  /** A list with one more item at its end. */
  lemma Extended<T>(items: seq<Item<T>>, item: Item<T>)
    requires item !in items && item.next == null && forall i, j | 0 <= i < j < |items| :: items[i] != items[j]
    requires forall i {:trigger items[i].next} | 0 <= i < |items| ::
      items[i].next == (if i + 1 < |items| then items[i + 1] else item)
    ensures var all := items + [item]; Chained(all[0], all)
    ensures forall x | x in items + [item] :: x in items || x == item
  {
  }

  /** A list in which one item is bypassed is the list without it. */
  lemma Bypassed<T>(items: seq<Item<T>>, at: nat)
    requires at < |items| && forall i, j | 0 <= i < j < |items| :: items[i] != items[j]
    requires forall i {:trigger items[i].next} | 0 <= i < |items| && i + 1 != at ::
      items[i].next == (if i + 1 < |items| then items[i + 1] else null)
    requires at > 0 ==> items[at - 1].next == (if at + 1 < |items| then items[at + 1] else null)
    ensures var rest := Without(items, at); Chained(if rest == [] then null else rest[0], rest)
  {
    var rest := Without(items, at);
    forall i | 0 <= i < |rest|
      ensures rest[i].next == (if i + 1 < |rest| then rest[i + 1] else null)
    {
      assert rest[i] == items[if i < at then i else i + 1];
    }
  }

  lemma ItemsWithout<T>(items: seq<Item<T>>, at: nat)
    requires at < |items|
    ensures forall x | x in Without(items, at) :: x in items
    ensures var rest := Without(items, at);
      (if rest == [] then null else rest[0]) == (if at > 0 then items[0] else if |items| > 1 then items[1] else null)
  {
  }

  lemma DataWithout<T>(items: seq<Item<T>>, at: nat)
    requires at < |items|
    ensures Data(Without(items, at)) == Without(Data(items), at)
  {
  }

  /** What the items of many lists hold. */
  function AllData<T>(chains: seq<seq<Item<T>>>): (r: seq<seq<T>>)
    ensures |r| == |chains| && forall i | 0 <= i < |r| :: r[i] == Data(chains[i])
  {
    seq(|chains|, i requires 0 <= i < |chains| => Data(chains[i]))
  }

  lemma AllDataUpdate<T>(chains: seq<seq<Item<T>>>, i: nat, chain: seq<Item<T>>)
    requires i < |chains|
    ensures AllData(chains[i := chain]) == AllData(chains)[i := Data(chain)]
  {
    hide Data;
  }

  /** A new item behind the last one of a list. */
  method LinkBehind<T>(head: Item?<T>, ghost items: seq<Item<T>>, last: Item?<T>, item: Item<T>) returns (head': Item<T>)
    requires Chained(head, items) && item !in items && item.next == null
    requires last == if items == [] then null else items[|items| - 1]
    modifies if last == null then {} else {last}`next
    ensures Chained(head', items + [item])
  {
    if last == null {
      head' := item;
    } else {
      last.next := item;
      head' := head;
    }
    Extended(items, item);
  }

  lemma AllDataWithout<T>(chains: seq<seq<Item<T>>>, i: nat, at: nat)
    requires i < |chains| && at < |chains[i]|
    ensures AllData(chains[i := Without(chains[i], at)]) == AllData(chains)[i := Without(AllData(chains)[i], at)]
  {
    hide Data;
    AllDataUpdate(chains, i, Without(chains[i], at));
    DataWithout(chains[i], at);
  }

  ghost predicate Apart<T>(a: seq<Item<T>>, b: seq<Item<T>>) {
    forall x | x in a :: x !in b
  }

  /** A list that keeps some of its items stays apart from the others. */
  lemma OthersLinked<T>(chains: seq<seq<Item<T>>>, i: nat, rest: seq<Item<T>>)
    requires i < |chains| && forall x | x in rest :: x in chains[i]
    requires forall j, k | 0 <= j < k < |chains| :: Apart(chains[j], chains[k])
    ensures var r := chains[i := rest]; forall j, k | 0 <= j < k < |r| :: Apart(r[j], r[k])
  {
    var r := chains[i := rest];
    forall j, k | 0 <= j < k < |r|
      ensures Apart(r[j], r[k])
    {
      assert Apart(chains[j], chains[k]);
    }
  }

  /** An array of linked lists. */
  class Buckets<T> {
    const heads: array<Item?<T>>

    ghost var chains: seq<seq<Item<T>>>
    ghost var items: set<Item<T>>

    ghost predicate Valid()
      reads this, heads, items
      ensures Valid() ==> |Lists()| == |chains| == heads.Length
    {
      && |chains| == heads.Length
      && (forall i | 0 <= i < |chains| :: (forall x | x in chains[i] :: x in items) && Chained(heads[i], chains[i]))
      && (forall i, k | 0 <= i < k < |chains| :: Apart(chains[i], chains[k]))
    }

    /** What the lists hold. */
    ghost function Lists(): (r: seq<seq<T>>)
      reads this
    {
      AllData(chains)
    }

    constructor (size: nat)
      ensures Valid() && fresh(heads) && heads.Length == size && items == {}
      ensures |Lists()| == size && forall i | 0 <= i < size :: Lists()[i] == []
    {
      heads := new Item?<T>[size](_ => null);
      chains, items := seq(size, _ => []), {};
    }

    lemma Member(i: nat, j: nat)
      requires Valid() && i < |chains| && j < |chains[i]|
      ensures chains[i][j] in items
    {
      assert chains[i][j] in chains[i];
    }

    /** The walk along a list: its first item that is wanted and the item before that, or its last item. */
    method Seek(i: nat, wanted: T -> bool) returns (before: Item?<T>, found: Item?<T>, ghost at: nat)
      requires Valid() && i < heads.Length
      ensures at <= |chains[i]|
      ensures found == (if at < |chains[i]| then chains[i][at] else null)
      ensures before == (if at > 0 then chains[i][at - 1] else null)
      ensures forall j | 0 <= j < at :: !wanted(chains[i][j].data)
      ensures found != null ==> wanted(found.data)
    {
      ghost var chain := chains[i];
      assert Chained(heads[i], chain);
      before, found, at := null, heads[i], 0;
      while found != null && !wanted(found.data)
        invariant at <= |chain|
        invariant found == (if at < |chain| then chain[at] else null)
        invariant before == (if at > 0 then chain[at - 1] else null)
        invariant forall j | 0 <= j < at :: !wanted(chain[j].data)
        decreases |chain| - at
      {
        before, found, at := found, found.next, at + 1;
      }
    }

    /** The end of a walk that found nothing: a new item is put there. */
    method LinkLast(i: nat, last: Item?<T>, item: Item<T>)
      requires Valid() && i < heads.Length && item !in items && item.next == null
      requires last == if chains[i] == [] then null else chains[i][|chains[i]| - 1]
      modifies this, heads, if last == null then {} else {last}
      ensures Valid() && items == old(items) + {item}
      ensures Lists() == old(Lists())[i := old(Lists())[i] + [item.data]]
    {
      hide AllData, Data;
      ghost var chain := chains[i];
      assert Chained(heads[i], chain);
      if last == null {
        heads[i] := item;
      } else {
        assert last in chain;
        last.next := item;
      }
      Extended(chain, item);
      DataAppend(chain, [item]);
      DataOne(item);
      AllDataUpdate(chains, i, chain + [item]);
      chains, items := chains[i := chain + [item]], items + {item};
    }

    /** The end of a walk that found something: the item is bypassed. */
    method Unlink(i: nat, before: Item?<T>, found: Item<T>, ghost at: nat)
      requires Valid() && i < heads.Length && at < |chains[i]| && found == chains[i][at]
      requires before == if at > 0 then chains[i][at - 1] else null
      modifies this, heads, if before == null then {} else {before}
      ensures Valid() && items == old(items)
      ensures Lists() == old(Lists())[i := Without(old(Lists())[i], at)]
    {
      hide Without, AllData, Data;
      ghost var chain := chains[i];
      assert Chained(heads[i], chain);
      if before == null {
        heads[i] := found.next;
      } else {
        assert before in chain;
        before.next := found.next;
      }
      Bypassed(chain, at);
      ItemsWithout(chain, at);
      AllDataWithout(chains, i, at);
      OthersLinked(chains, i, Without(chain, at));
      chains := chains[i := Without(chain, at)];
    }

    /** An item from elsewhere is put in front of a list. */
    method LinkFirst(i: nat, item: Item<T>)
      requires Valid() && i < heads.Length && item !in items
      modifies this, heads, item
      ensures Valid() && items == old(items) + {item}
      ensures Lists() == old(Lists())[i := [item.data] + old(Lists())[i]]
    {
      hide AllData, Data;
      ghost var chain := chains[i];
      assert Chained(heads[i], chain);
      item.next := heads[i];
      heads[i] := item;
      DataAppend([item], chain);
      DataOne(item);
      AllDataUpdate(chains, i, [item] + chain);
      chains, items := chains[i := [item] + chain], items + {item};
    }
  }
}
