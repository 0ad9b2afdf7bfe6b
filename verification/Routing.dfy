/** The server's routing of messages between users: to the target's handler when the target is logged
    in, and otherwise into the target's undelivered file, which is drained at the next login. */
module Routing {
  import opened Bytes
  import opened Crypto
  import opened Options
  import opened HandlerTable
  import L = UndeliveredLog

  /** A user's entry in the user database: the key of the undelivered file, and the public key in wire form. */
  datatype User = User(auth: Block, key: bytes)

  type Registry = map<Block, User>

  datatype Parcel = Parcel(to: Block, m: bytes)

  // ----- requests -----

  datatype Request =
    | Deliver(to: Block, payload: bytes)
    | NotFound(id: Block)
    | KeyOf(id: Block)
    | Unknown
    | Invalid
    | Overread

  /** The layout of a message to a user and, with the sender's id in place of the target's, from a user. */
  function Letter(id: Block, payload: bytes): (r: bytes)
    ensures |r| == 0x29 + |payload|
  {
    [0] + id + Be64(Wrap64(|payload|)) + payload
  }

  /** The switch of handle_message.  The target is looked up before the length field is; that field is
      read even when the message ends before it. */
  function Parse(reg: Registry, m: bytes): Request
    requires |m| < TWO64
  {
    if |m| < 33 then Invalid else
    var uid := m[1..33];
    if m[0] == 0 then
      if uid !in reg then NotFound(uid)
      else if |m| < 0x29 then Overread
      else
        var n := De64(m[33..0x29]);
        if Wrap64(0x29 + n) != |m| then Invalid else Deliver(uid, m[0x29..0x29 + n])
    else if m[0] == 1 then
      if uid !in reg then NotFound(uid) else KeyOf(uid)
    else Unknown
  }

  /** A message is routed precisely when it is a whole letter to a registered user. */
  lemma DeliverIffLetter(reg: Registry, m: bytes, to: Block, payload: bytes)
    requires |m| < TWO64
    ensures Parse(reg, m) == Deliver(to, payload) <==> to in reg && m == Letter(to, payload)
  {
    hide De64, Be64;
    if Parse(reg, m) == Deliver(to, payload) {
      assert m == m[..1] + m[1..33] + m[33..0x29] + m[0x29..];
    }
    if to in reg && m == Letter(to, payload) {
      assert m[1..33] == to && m[33..0x29] == Be64(|payload|) && m[0x29..] == payload;
      DeBe64(|payload|);
    }
  }

  /** Every outcome, by the bytes of the message and by who is registered.  The first byte is the kind, the next 32 name
      a user, and for a letter there follow the length of the payload and the payload. */
  lemma OutcomeIff(reg: Registry, m: bytes)
    requires |m| < TWO64
    ensures forall to, payload :: Parse(reg, m) == Deliver(to, payload) <==>
      |m| >= 0x29 && m[0] == 0 && m[1..33] == to && to in reg && m[33..0x29] == Be64(|m| - 0x29) && m[0x29..] == payload
    ensures forall id :: Parse(reg, m) == NotFound(id) <==> |m| >= 33 && m[0] in {0, 1} && m[1..33] == id && id !in reg
    ensures forall id :: Parse(reg, m) == KeyOf(id) <==> |m| >= 33 && m[0] == 1 && m[1..33] == id && id in reg
    ensures Parse(reg, m) == Unknown <==> |m| >= 33 && m[0] > 1
    ensures Parse(reg, m) == Overread <==> 33 <= |m| < 0x29 && m[0] == 0 && m[1..33] in reg
    ensures Parse(reg, m) == Invalid <==>
      |m| < 33 || (|m| >= 0x29 && m[0] == 0 && m[1..33] in reg && m[33..0x29] != Be64(|m| - 0x29))
  {
    hide Be64, De64;
    if |m| >= 0x29 {
      DeBe64(|m| - 0x29);
      LengthAgrees(De64(m[33..0x29]), |m|);
    }
  }

  lemma LengthAgrees(n: uint64, len: uint64)
    requires len >= 0x29
    ensures Wrap64(0x29 + n) == len <==> n == len - 0x29
  {
  }

  // ----- the server's state -----

  /** Who is logged in, the undelivered files, and for the record: the letters that were accepted for a
      user, those given to a handler of that user, and the answers given to the asker's own handler. */
  datatype World = World(
    online: map<Block, Handler>,
    files: map<Block, bytes>,
    accepted: seq<Parcel>,
    handed: seq<Parcel>,
    answers: seq<Parcel>)

  /** What was meant for one user, in order. */
  function For(u: Block, ps: seq<Parcel>): (r: seq<bytes>) {
    if ps == [] then [] else
    For(u, ps[..|ps| - 1]) + if ps[|ps| - 1].to == u then [ps[|ps| - 1].m] else []
  }

  function ParcelsTo(u: Block, ms: seq<bytes>): (r: seq<Parcel>)
    ensures |r| == |ms| && forall i | 0 <= i < |ms| :: r[i] == Parcel(u, ms[i])
  {
    seq(|ms|, i requires 0 <= i < |ms| => Parcel(u, ms[i]))
  }

  lemma ForSnoc(u: Block, ps: seq<Parcel>, x: Parcel)
    ensures For(u, ps + [x]) == For(u, ps) + if x.to == u then [x.m] else []
  {
    assert (ps + [x])[..|ps|] == ps;
  }

  lemma {:induction false} ForParcels(u: Block, ps: seq<Parcel>, v: Block, ms: seq<bytes>)
    ensures For(u, ps + ParcelsTo(v, ms)) == For(u, ps) + if u == v then ms else []
    decreases |ms|
  {
    if ms == [] {
      assert ps + ParcelsTo(v, ms) == ps;
    } else {
      var n := |ms| - 1;
      assert ps + ParcelsTo(v, ms) == (ps + ParcelsTo(v, ms[..n])) + [Parcel(v, ms[n])];
      ForSnoc(u, ps + ParcelsTo(v, ms[..n]), Parcel(v, ms[n]));
      ForParcels(u, ps, v, ms[..n]);
      assert ms == ms[..n] + [ms[n]];
    }
  }

  /** What waits in a user's undelivered file. */
  function Logged(p: Primitives, auth: Block, file: bytes): (ms: seq<bytes>) {
    match L.Load(p, auth, file)
    case None => []
    case Some(ms) => ms
  }

  predicate Sound(p: Primitives, auth: Block, file: bytes) {
    && L.Load(p, auth, file).Some?
    && L.AllStorable(Logged(p, auth, file))
    && file == L.Canonical(p, auth, Logged(p, auth, file))
  }

  predicate FilesSound(p: Primitives, reg: Registry, files: map<Block, bytes>) {
    forall u | u in reg :: u in files && Sound(p, reg[u].auth, files[u])
  }

  lemma EmptyFile(p: Primitives, auth: Block)
    ensures var file := L.Canonical(p, auth, []); Sound(p, auth, file) && Logged(p, auth, file) == []
  {
    hide L.Load, L.Image;
    LengthOfNone();
    L.ImageIsLoaded(p, auth, 0x30, L.Canonical(p, auth, []), []);
  }

  lemma LengthOfNone()
    ensures L.Length([]) == 0
  {
  }

  /** Offsets are signed: nothing is stored behind the first 2^63 bytes of a file. */
  predicate Room(file: bytes) {
    |file| < TWO63
  }

  lemma StoredInFile(p: Primitives, auth: Block, file: bytes, m: bytes)
    requires Sound(p, auth, file) && Room(file) && 0 < |m| < TWO64
    ensures var next := L.AfterAdd(p, auth, file, m);
      Sound(p, auth, next) && Logged(p, auth, next) == Logged(p, auth, file) + [m]
  {
    hide L.Load, L.Image, L.AfterAdd, L.Length;
    var ms := Logged(p, auth, file);
    L.AddThenLoad(p, auth, ms, m);
    L.AddExtendsCanonical(p, auth, ms, m);
  }

  // ----- the moves -----

  function Accept(w: World, x: Parcel): World {
    w.(accepted := w.accepted + [x])
  }

  function Hand(w: World, x: Parcel): World {
    w.(handed := w.handed + [x])
  }

  function Answer(w: World, x: Parcel): World {
    w.(answers := w.answers + [x])
  }

  /** undel_add_message, the file operations succeeding. */
  function Store(p: Primitives, reg: Registry, w: World, x: Parcel): World
    requires x.to in reg && x.to in w.files
  {
    w.(files := w.files[x.to := L.AfterAdd(p, reg[x.to].auth, w.files[x.to], x.m)])
  }

  /** A letter is accepted, and goes to the target's handler or into the target's file. */
  function Forwarded(p: Primitives, reg: Registry, w: World, x: Parcel): World
    requires x.to in reg && x.to in w.files
  {
    if x.to in w.online then Hand(Accept(w, x), x) else Store(p, reg, Accept(w, x), x)
  }

  /** undel_load, which starts the file afresh. */
  function Fetched(p: Primitives, reg: Registry, w: World, u: Block): World
    requires u in reg
  {
    w.(files := w.files[u := L.Canonical(p, reg[u].auth, [])])
  }

  /** add_handler, which refuses a user who is there already. */
  function Joined(w: World, h: Handler): World {
    if h.id in w.online then w else w.(online := w.online[h.id := h])
  }

  /** rem_handler. */
  function Left(w: World, u: Block): World {
    w.(online := w.online - {u})
  }

  // ----- each operation at once: first in, first out -----

  datatype Operation =
    | Message(from: Block, m: bytes)
    | Login(h: Handler)
    | Logout(u: Block)

  predicate FilesPresent(reg: Registry, w: World) {
    forall u | u in reg :: u in w.files
  }

  /** handle_message. */
  function Handled(p: Primitives, reg: Registry, w: World, from: Block, m: bytes): (r: World)
    requires FilesPresent(reg, w) && |m| < TWO64
    ensures FilesPresent(reg, r)
  {
    match Parse(reg, m)
    case Deliver(to, payload) =>
      var x := Parcel(to, Letter(from, payload));
      if to in w.online || Room(w.files[to]) then Forwarded(p, reg, w, x) else w
    case NotFound(id) => Answer(w, Parcel(from, [0xff] + id))
    case KeyOf(id) => Answer(w, Parcel(from, [1] + id + reg[id].key))
    case _ => w
  }

  /** add_handler and then send_undelivered. */
  function LoggedIn(p: Primitives, reg: Registry, w: World, h: Handler): (r: World)
    requires FilesPresent(reg, w)
    ensures FilesPresent(reg, r)
  {
    if h.id in w.online then w else if h.id !in reg then Joined(w, h) else
    var waiting := L.Load(p, reg[h.id].auth, w.files[h.id]);
    if waiting.None? then Joined(w, h) else
    var v := Fetched(p, reg, Joined(w, h), h.id);
    v.(handed := v.handed + ParcelsTo(h.id, waiting.value))
  }

  function Operate(p: Primitives, reg: Registry, w: World, op: Operation): (r: World)
    requires FilesPresent(reg, w)
    ensures FilesPresent(reg, r)
  {
    match op
    case Message(from, m) => if |m| < TWO64 then Handled(p, reg, w, from, m) else w
    case Login(h) => LoggedIn(p, reg, w, h)
    case Logout(u) => Left(w, u)
  }

  function Fresh(p: Primitives, reg: Registry): (w: World)
    ensures FilesPresent(reg, w)
  {
    World(map[], map u | u in reg :: L.Canonical(p, reg[u].auth, []), [], [], [])
  }

  function Operations(p: Primitives, reg: Registry, ops: seq<Operation>): (w: World)
    ensures FilesPresent(reg, w)
  {
    if ops == [] then Fresh(p, reg) else
    Operate(p, reg, Operations(p, reg, ops[..|ops| - 1]), ops[|ops| - 1])
  }

  /** What was accepted for a user is, in order, what the user's handlers were given and then what
      waits; nothing waits for a user who is logged in. */
  predicate InOrder(p: Primitives, reg: Registry, w: World, u: Block)
    requires u in reg && u in w.files
  {
    && For(u, w.accepted) == For(u, w.handed) + Logged(p, reg[u].auth, w.files[u])
    && (u in w.online ==> Logged(p, reg[u].auth, w.files[u]) == [])
  }

  predicate AllInOrder(p: Primitives, reg: Registry, w: World) {
    FilesSound(p, reg, w.files) && forall u | u in reg :: InOrder(p, reg, w, u)
  }

  lemma DeliverKeepsOrder(p: Primitives, reg: Registry, w: World, x: Parcel)
    requires AllInOrder(p, reg, w) && x.to in reg && 0 < |x.m| < TWO64
    ensures x.to in w.online ==> AllInOrder(p, reg, Hand(Accept(w, x), x))
    ensures x.to !in w.online && Room(w.files[x.to]) ==> AllInOrder(p, reg, Store(p, reg, Accept(w, x), x))
  {
    hide For, Logged, Sound, L.AfterAdd;
    forall u | u in reg
      ensures x.to in w.online ==> InOrder(p, reg, Hand(Accept(w, x), x), u)
      ensures x.to !in w.online && Room(w.files[x.to]) ==> InOrder(p, reg, Store(p, reg, Accept(w, x), x), u)
    {
      assert InOrder(p, reg, w, u);
      ForSnoc(u, w.accepted, x);
      ForSnoc(u, w.handed, x);
      if u == x.to && Room(w.files[u]) {
        StoredInFile(p, reg[u].auth, w.files[u], x.m);
      }
      assert For(u, w.handed) + [] == For(u, w.handed);
    }
    if x.to !in w.online && Room(w.files[x.to]) {
      StoredInFile(p, reg[x.to].auth, w.files[x.to], x.m);
    }
  }

  lemma LoginKeepsOrder(p: Primitives, reg: Registry, w: World, h: Handler)
    requires AllInOrder(p, reg, w)
    ensures AllInOrder(p, reg, LoggedIn(p, reg, w, h))
  {
    hide For, Sound, L.Load, L.Canonical;
    if h.id !in w.online && h.id !in reg {
      assert forall u | u in reg :: InOrder(p, reg, w, u);
    } else if h.id !in w.online {
      var v := LoggedIn(p, reg, w, h);
      EmptyFile(p, reg[h.id].auth);
      assert Sound(p, reg[h.id].auth, w.files[h.id]);
      SoundLoads(p, reg[h.id].auth, w.files[h.id]);
      forall u | u in reg
        ensures InOrder(p, reg, v, u)
      {
        assert InOrder(p, reg, w, u);
        ForParcels(u, w.handed, h.id, Logged(p, reg[h.id].auth, w.files[h.id]));
        assert For(u, v.handed) + [] == For(u, v.handed);
      }
    }
  }

  lemma SoundLoads(p: Primitives, auth: Block, file: bytes)
    requires Sound(p, auth, file)
    ensures L.Load(p, auth, file) == Some(Logged(p, auth, file))
  {
  }

  lemma MessageKeepsOrder(p: Primitives, reg: Registry, w: World, from: Block, m: bytes)
    requires AllInOrder(p, reg, w) && |m| < TWO64
    ensures AllInOrder(p, reg, Handled(p, reg, w, from, m))
  {
    hide For, Sound, Logged, Parse, Letter, Store, Room;
    match Parse(reg, m)
    case Deliver(to, payload) => {
      DeliverIffLetter(reg, m, to, payload);
      DeliverKeepsOrder(p, reg, w, Parcel(to, Letter(from, payload)));
    }
    case _ => {
      assert forall u | u in reg :: InOrder(p, reg, w, u);
      assert Handled(p, reg, w, from, m).(answers := w.answers) == w;
    }
  }

  /** Store and forward keeps the order: over every run of operations, each done at once, the letters
      accepted for a user are those handed over, in the same order, followed by those that wait. */
  lemma {:induction false} OperationsKeepOrder(p: Primitives, reg: Registry, ops: seq<Operation>)
    ensures AllInOrder(p, reg, Operations(p, reg, ops))
  {
    hide Handled, LoggedIn, Sound, Logged, L.Canonical;
    if ops == [] {
      forall u | u in reg
        ensures Sound(p, reg[u].auth, Fresh(p, reg).files[u]) && InOrder(p, reg, Fresh(p, reg), u)
      {
        EmptyFile(p, reg[u].auth);
      }
    } else {
      var w := Operations(p, reg, ops[..|ops| - 1]);
      OperationsKeepOrder(p, reg, ops[..|ops| - 1]);
      match ops[|ops| - 1]
      case Message(from, m) => if |m| < TWO64 { MessageKeepsOrder(p, reg, w, from, m); }
      case Login(h) => LoginKeepsOrder(p, reg, w, h);
      case Logout(u) => {
        assert forall v | v in reg :: InOrder(p, reg, w, v);
      }
    }
  }
}
