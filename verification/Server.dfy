/** The server's message handling as it runs: on the hash table of handlers and the open undelivered files. */
module Server {
  import opened Bytes
  import opened Crypto
  import opened Options
  import opened Files
  import opened HandlerTable
  import opened LinkedLists
  import opened Routing
  import F = UndeliveredFile
  import L = UndeliveredLog

  class Server {
    const reg: Registry
    const table: Table
    const files: map<Block, File>
    /** What was passed to send_message: for the handlers of targets, and for the asker's own handler. */
    var handed: seq<Parcel>
    var answers: seq<Parcel>
    ghost var accepted: seq<Parcel>

    ghost predicate Valid(p: Primitives)
      reads this, table, table.buckets, table.buckets.heads, table.buckets.items, files.Values
      ensures Valid(p) ==> files.Keys == reg.Keys
    {
      && table.Valid(p)
      && reg.Keys == files.Keys
      && (forall u, v | u in files && v in files && u != v :: files[u] != files[v])
      && (forall u | u in files :: Room(files[u].data))
    }

    /** The server's state as Routing describes it. */
    ghost function View(): World
      reads this, table, files.Values
    {
      World(table.users, Contents(), accepted, handed, answers)
    }

    ghost function Contents(): (r: map<Block, bytes>)
      reads files.Values
      ensures r.Keys == files.Keys && forall u | u in files :: r[u] == files[u].data
    {
      map u | u in files :: files[u].data
    }

    constructor (p: Primitives, reg: Registry, files: map<Block, File>)
      requires reg.Keys == files.Keys
      requires forall u, v | u in files && v in files && u != v :: files[u] != files[v]
      requires forall u | u in reg :: files[u].data == L.Canonical(p, reg[u].auth, []) && Room(files[u].data)
      ensures this.reg == reg && this.files == files && fresh(table) && fresh(table.buckets) && fresh(table.buckets.heads) && fresh(table.buckets.items)
      ensures Valid(p) && View() == Fresh(p, reg)
    {
      hide Table.Valid, L.Canonical, HandlerTable.LegalSize;
      this.reg, this.files := reg, files;
      table := new Table(p);
      handed, answers, accepted := [], [], [];
      new;
      assert Contents() == Fresh(p, reg).files;
    }

    /** Answers go back to the handler that the request came from. */
    method Reply(p: Primitives, from: Block, m: bytes)
      requires Valid(p)
      modifies this`answers
      ensures Valid(p) && View() == Answer(old(View()), Parcel(from, m))
    {
      answers := answers + [Parcel(from, m)];
    }

    /** handle_message.  When a letter cannot be stored, its target's file is all that changes: it is left as
        far as its writes went. */
    method HandleMessage(p: Primitives, from: Block, m: bytes) returns (ok: bool)
      requires Valid(p) && |m| < TWO64
      modifies this, files.Values
      ensures ok ==> FilesPresent(reg, old(View())) && View() == Handled(p, reg, old(View()), from, m)
      ensures !ok && !Parse(reg, m).Deliver? ==> View() == old(View()) && (Parse(reg, m).Invalid? || Parse(reg, m).Overread?)
      ensures !ok && Parse(reg, m).Deliver? ==>
        && Parse(reg, m).to !in old(View()).online
        && View().(files := old(View()).files) == old(View())
        && Parse(reg, m).to in files
        && View().files == old(View()).files[Parse(reg, m).to :=
             LeftOver(p, Parse(reg, m).to, old(files[Parse(reg, m).to].data), old(files[Parse(reg, m).to].budget),
                      Letter(from, Parse(reg, m).payload))]
      ensures (forall u | u in files :: Room(files[u].data)) ==> Valid(p)
      ensures |m| >= 33 && m[0] in {0, 1} && m[1..33] !in reg ==> ok && answers == old(answers) + [Parcel(from, [0xff] + m[1..33])]
      ensures |m| >= 33 && m[0] == 1 && m[1..33] in reg ==>
        ok && answers == old(answers) + [Parcel(from, [1] + m[1..33] + reg[m[1..33]].key)]
      ensures |m| < 33 || m[0] > 1 || (m[0] == 0 && m[1..33] in reg) ==> answers == old(answers)
      ensures if ok && |m| >= 0x29 && m[0] == 0 && m[1..33] in reg
        then accepted == old(accepted) + [Parcel(m[1..33], [0] + from + m[0x21..])]
        else accepted == old(accepted)
    {
      hide De64, Be64, L.AfterAdd, Letter, Wrap64, Table.Valid, Room, Forwarded;
      if |m| < 33 { return false; }
      var uid := m[1..33];
      if m[0] == 0 {
        if uid !in reg {
          Reply(p, from, [0xff] + uid);
          return true;
        }
        if |m| < 0x29 { return false; }
        var payloadLen: int := De64(m[33..0x29]);
        if Wrap64(0x29 + payloadLen) != |m| { return false; }
        NoWrap(payloadLen, |m|);
        assert Parse(reg, m) == Deliver(uid, m[0x29..0x29 + payloadLen]);
        PassedOn(from, m, payloadLen);
        ok := HandleLetter(p, from, uid, m[0x29..0x29 + payloadLen]);
      } else if m[0] == 1 {
        if uid !in reg {
          Reply(p, from, [0xff] + uid);
        } else {
          Reply(p, from, [1] + uid + reg[uid].key);
        }
        return true;
      } else {
        return true;
      }
    }

    /** The case of a whole letter to a registered user. */
    method HandleLetter(p: Primitives, from: Block, to: Block, payload: bytes) returns (ok: bool)
      requires Valid(p) && to in reg && |payload| + 0x29 < TWO64
      modifies this, files.Values
      ensures ok ==> View() == Forwarded(p, reg, old(View()), Parcel(to, Letter(from, payload)))
      ensures answers == old(answers)
      ensures accepted == old(accepted) + if ok then [Parcel(to, Letter(from, payload))] else []
      ensures !ok ==> to !in old(View()).online && View().(files := old(View()).files) == old(View())
      ensures !ok ==> View().files == old(View()).files[to :=
        LeftOver(p, to, old(files[to].data), old(files[to].budget), Letter(from, payload))]
      ensures (forall u | u in files :: Room(files[u].data)) ==> Valid(p)
    {
      hide L.AfterAdd, Letter, Valid, Table.Valid, Room, Forwarded, LeftOver;
      var x := Parcel(to, Letter(from, payload));
      ghost var w := View();
      ForwardedCases(p, reg, w, x);
      Parts(p);
      ok := Forward(p, to, x.m);
      OneFileChanged(w.files, Contents(), to);
      ghost var files' := w.files[to := files[to].data];
      assert View() == w.(files := files', handed := handed, accepted := accepted);
      if forall u | u in files :: Room(files[u].data) {
        Again(p);
      }
    }

    /** A file after the writes of undel_add_message that were possible. */
    function LeftOver(p: Primitives, to: Block, data: bytes, budget: nat, m: bytes): bytes
      requires to in reg
    {
      var st := L.AddStages(p, reg[to].auth, data, m);
      st[Min(|st| - 1, budget)]
    }

    /** The end of handle_message: to the target's handler, or into the target's file. */
    method Forward(p: Primitives, to: Block, resp: bytes) returns (ok: bool)
      requires Valid(p) && to in reg && |resp| < TWO64
      modifies this`handed, this`accepted, files[to]
      ensures to in table.users ==> ok && files[to].data == old(files[to].data)
      ensures ok ==> accepted == old(accepted) + [Parcel(to, resp)]
      ensures ok && to in table.users ==> handed == old(handed) + [Parcel(to, resp)]
      ensures ok && to !in table.users ==>
        handed == old(handed) && files[to].data == L.AfterAdd(p, reg[to].auth, old(files[to].data), resp)
      ensures !ok ==>
        && handed == old(handed) && accepted == old(accepted)
        && files[to].data == LeftOver(p, to, old(files[to].data), old(files[to].budget), resp)
    {
      hide L.AddStages, Table.Valid;
      var target := table.Get(p, to);
      if target.None? {
        ok := F.AddMessage(p, reg[to].auth, files[to], resp);
      } else {
        handed := handed + [Parcel(to, resp)];
        ok := true;
      }
      if ok {
        accepted := accepted + [Parcel(to, resp)];
      }
    }

    /** add_handler and then send_undelivered.  When the header of the emptied file cannot be written, the
        letters that were loaded are dropped: the user is there, the file is empty, and nothing is handed
        over. */
    method Login(p: Primitives, h: Handler) returns (ok: bool)
      requires Valid(p)
      modifies this`handed, table, table.buckets, table.buckets.heads, table.buckets.items, FileOf(h.id)
      ensures ok == (h.id !in old(View()).online)
      ensures FilesPresent(reg, old(View()))
      ensures table.users == if ok then old(table.users)[h.id := h] else old(table.users)
      ensures ok && h.id in reg && L.Load(p, reg[h.id].auth, old(files[h.id].data)).Some? && old(files[h.id].budget) > 0 ==>
        handed == old(handed) + ParcelsTo(h.id, L.Load(p, reg[h.id].auth, old(files[h.id].data)).value)
      ensures View() == if ok && Drops(p, old(View()), h.id, old(BudgetOf(h.id)))
        then Joined(old(View()), h).(files := old(View()).files[h.id := []])
        else LoggedIn(p, reg, old(View()), h)
      ensures Valid(p)
    {
      hide L.Load, L.Canonical, ParcelsTo, Drained, Valid;
      ghost var w := View();
      LoginIsDrained(p, reg, w, h);
      ok := Enter(p, h);
      if ok && h.id in reg {
        SendUndelivered(p, h.id);
        DrainedCases(p, reg, Joined(w, h), h.id, old(BudgetOf(h.id)));
        DrainedCases(p, reg, Joined(w, h), h.id, 1);
      }
    }

    /** add_handler, and what it means for the whole server. */
    method Enter(p: Primitives, h: Handler) returns (ok: bool)
      requires Valid(p)
      modifies table, table.buckets, table.buckets.heads, table.buckets.items
      ensures Valid(p) && View() == Joined(old(View()), h) && ok == (h.id !in old(View()).online)
    {
      hide Table.Valid, Grown, HandlerTable.Balanced, Table.Stored, Room;
      ok := table.Add(p, h);
      assert Contents() == old(Contents());
    }

    /** send_undelivered, and what it means for the whole server. */
    method SendUndelivered(p: Primitives, id: Block)
      requires Valid(p) && id in reg
      modifies this`handed, files[id]
      ensures Valid(p) && View() == Drained(p, reg, old(View()), id, old(files[id].budget))
    {
      hide L.Load, L.Canonical, Valid, Table.Valid, ParcelsTo, Room, Drained;
      ghost var w := View();
      CanonicalFits(p, reg[id].auth);
      DrainedCases(p, reg, w, id, files[id].budget);
      Parts(p);
      Drain(p, id);
      Again(p);
      OneFileChanged(w.files, Contents(), id);
      assert View() == w.(files := w.files[id := files[id].data], handed := handed);
    }

    lemma Parts(p: Primitives)
      requires Valid(p)
      ensures table.Valid(p) && (forall u, v | u in files && v in files && u != v :: files[u] != files[v])
      ensures forall u | u in files :: Room(files[u].data)
    {
      hide Table.Valid, Room;
    }

    lemma Again(p: Primitives)
      requires table.Valid(p) && reg.Keys == files.Keys
      requires forall u, v | u in files && v in files && u != v :: files[u] != files[v]
      requires forall u | u in files :: Room(files[u].data)
      ensures Valid(p)
    {
      hide Table.Valid, Room;
    }

    function FileOf(id: Block): set<File> {
      if id in files then {files[id]} else {}
    }

    ghost function BudgetOf(id: Block): nat
      reads FileOf(id)
    {
      if id in files then files[id].budget else 0
    }

    /** The file loads, and then no write is possible. */
    ghost predicate Drops(p: Primitives, w: World, id: Block, budget: nat)
      requires FilesPresent(reg, w)
    {
      id in reg && L.Load(p, reg[id].auth, w.files[id]).Some? && budget == 0
    }

    /** send_undelivered for a registered user. */
    method Drain(p: Primitives, id: Block)
      requires id in files && id in reg
      modifies this`handed, files[id]
      ensures L.Load(p, reg[id].auth, old(files[id].data)).None? ==>
        handed == old(handed) && files[id].data == old(files[id].data)
      ensures L.Load(p, reg[id].auth, old(files[id].data)).Some? && old(files[id].budget) > 0 ==>
        && handed == old(handed) + ParcelsTo(id, L.Load(p, reg[id].auth, old(files[id].data)).value)
        && files[id].data == L.Canonical(p, reg[id].auth, [])
      ensures L.Load(p, reg[id].auth, old(files[id].data)).Some? && old(files[id].budget) == 0 ==>
        handed == old(handed) && files[id].data == []
    {
      hide L.Load, L.Canonical;
      var ok, cur, nodes := F.LoadAndClear(p, reg[id].auth, files[id]);
      ghost var i := 0;
      if ok {
        while cur != null
          invariant i <= |nodes| && cur == (if i < |nodes| then nodes[i] else null)
          invariant handed == old(handed) + ParcelsTo(id, Data(nodes)[..i])
          modifies this`handed
          decreases |nodes| - i
        {
          handed := handed + [Parcel(id, cur.data)];
          cur := cur.next;
          i := i + 1;
        }
        assert Data(nodes)[..i] == Data(nodes);
      }
    }

    /** rem_handler. */
    method Logout(p: Primitives, id: Block)
      requires Valid(p)
      modifies table, table.buckets, table.buckets.heads, table.buckets.items
      ensures Valid(p) && View() == Left(old(View()), id)
      ensures table.users == old(table.users) - {id}
    {
      hide Valid, Table.Valid;
      Parts(p);
      ghost var w := View();
      var _ := table.Remove(p, id);
      assert w.online - {id} == table.users;
      assert Contents() == w.files;
      Again(p);
    }
  }

  lemma NoWrap(n: uint64, len: uint64)
    requires Wrap64(0x29 + n) == len && len >= 0x29
    ensures 0x29 + n == len
  {
  }

  /** A letter is passed on with the sender's id in place of the target's. */
  lemma PassedOn(from: Block, m: bytes, n: uint64)
    requires |m| == 0x29 + n < TWO64 && n == De64(m[33..0x29])
    ensures Letter(from, m[0x29..0x29 + n]) == [0] + from + m[0x21..]
  {
    hide De64, Be64;
    assert m[0x21..] == m[33..0x29] + m[0x29..0x29 + n];
  }

  lemma CanonicalFits(p: Primitives, auth: Block)
    ensures Room(L.Canonical(p, auth, [])) && Room([])
  {
    LengthOfNone();
  }

  lemma ForwardedCases(p: Primitives, reg: Registry, w: World, x: Parcel)
    requires x.to in reg && x.to in w.files
    ensures Forwarded(p, reg, w, x) ==
      if x.to in w.online then w.(accepted := w.accepted + [x], handed := w.handed + [x])
      else w.(accepted := w.accepted + [x], files := w.files[x.to := L.AfterAdd(p, reg[x.to].auth, w.files[x.to], x.m)])
  {
    hide L.AfterAdd;
  }

  /** send_undelivered with room for so many writes. */
  function Drained(p: Primitives, reg: Registry, w: World, id: Block, budget: nat): World
    requires id in reg && id in w.files
  {
    match L.Load(p, reg[id].auth, w.files[id])
    case None => w
    case Some(ms) =>
      if budget == 0 then w.(files := w.files[id := []])
      else Fetched(p, reg, w, id).(handed := w.handed + ParcelsTo(id, ms))
  }

  lemma LoginIsDrained(p: Primitives, reg: Registry, w: World, h: Handler)
    requires FilesPresent(reg, w)
    ensures LoggedIn(p, reg, w, h) ==
      if h.id in w.online || h.id !in reg then Joined(w, h) else Drained(p, reg, Joined(w, h), h.id, 1)
  {
    hide L.Load, L.Canonical, ParcelsTo;
  }

  lemma DrainedCases(p: Primitives, reg: Registry, w: World, id: Block, budget: nat)
    requires id in reg && id in w.files
    ensures var r, loaded := Drained(p, reg, w, id, budget), L.Load(p, reg[id].auth, w.files[id]);
      && (loaded.None? ==> r == w)
      && (loaded.Some? && budget == 0 ==> r == w.(files := w.files[id := []]))
      && (loaded.Some? && budget > 0 ==>
            r == w.(files := w.files[id := L.Canonical(p, reg[id].auth, [])], handed := w.handed + ParcelsTo(id, loaded.value)))
  {
    hide L.Load, L.Canonical, ParcelsTo;
  }

  /** A file that was emptied and got no header again takes no letter and is never loaded: from then on
      nothing can be stored for its user. */
  lemma EmptiedForGood(p: Primitives, auth: Block, m: bytes)
    ensures L.Load(p, auth, []) == None && L.AddStages(p, auth, [], m) == [[]]
  {
  }

  lemma OneFileChanged(before: map<Block, bytes>, after: map<Block, bytes>, id: Block)
    requires before.Keys == after.Keys && id in after && forall u | u in after && u != id :: after[u] == before[u]
    ensures after == before[id := after[id]]
  {
  }
}
