/** The keep-alive clocks of two connection handlers, in microseconds on one clock. */
module KeepAlive {
  import opened Bytes

  const HALF: nat := 50_000_000
  const FULL: nat := 100_000_000

  /** One handler's two clocks, when it last went through the checks at the end of its loop, and whether
      it has given the connection up for want of a keep-alive. */
  datatype Side = Side(lastSent: nat, lastRecv: nat, lastCheck: nat, missed: bool)

  /** The assumptions: a loop takes at most `turn`, and a keep-alive is read at most `delay` after it is sent. */
  datatype Bounds = Bounds(turn: nat, delay: nat)

  /** `ab` holds the times at which the keep-alives on the way from a to b were sent; `abRead` is when the
      last one that b read was sent. */
  datatype State = State(now: nat, a: Side, b: Side, ab: seq<nat>, ba: seq<nat>, abRead: nat, baRead: nat)

  /** True names the first side. */
  datatype Step = Tick(t: nat) | Check(who: bool) | Read(who: bool)

  /** What the end of the loop does at `now`: give up, or send, or nothing.  The differences are unsigned. */
  function Checked(s: Side, now: nat, out: seq<nat>): (Side, seq<nat>) {
    if s.missed then (s, out)
    else if Wrap64(now - FULL) > s.lastRecv then (s.(missed := true), out)
    else if Wrap64(now - HALF) > s.lastSent then (s.(lastSent := now, lastCheck := now), out + [now])
    else (s.(lastCheck := now), out)
  }

  function Swap(s: State): State {
    State(s.now, s.b, s.a, s.ba, s.ab, s.baRead, s.abRead)
  }

  /** Time passes only as far as the assumptions allow. */
  predicate MayPass(w: Bounds, s: State, t: nat) {
    && s.now + t < TWO64
    && s.now + t <= s.a.lastCheck + w.turn && s.now + t <= s.b.lastCheck + w.turn
    && (s.ab != [] ==> s.now + t <= s.ab[0] + w.delay)
    && (s.ba != [] ==> s.now + t <= s.ba[0] + w.delay)
  }

  function StepOfA(s: State, check: bool): State {
    if check then
      var (a, ab) := Checked(s.a, s.now, s.ab);
      s.(a := a, ab := ab)
    else if s.ba == [] then s
    else s.(a := s.a.(lastRecv := s.now), ba := s.ba[1..], baRead := s.ba[0])
  }

  function Apply(w: Bounds, s: State, step: Step): State {
    match step
    case Tick(t) => if MayPass(w, s, t) then s.(now := s.now + t) else s
    case Check(who) => if who then StepOfA(s, true) else Swap(StepOfA(Swap(s), true))
    case Read(who) => if who then StepOfA(s, false) else Swap(StepOfA(Swap(s), false))
  }

  /** Both handlers start together. */
  function Start(t: nat): State {
    State(t, Side(t, t, t, false), Side(t, t, t, false), [], [], t, t)
  }

  function Run(w: Bounds, start: nat, steps: seq<Step>): State {
    if steps == [] then Start(start) else Apply(w, Run(w, start, steps[..|steps| - 1]), steps[|steps| - 1])
  }

  predicate Missed(w: Bounds, start: nat, steps: seq<Step>) {
    var s := Run(w, start, steps);
    s.a.missed || s.b.missed
  }

  // ----- the condition is enough -----

  /** The keep-alives on the way and the last one read were sent at most half the limit and a turn apart,
      and the sender's last one is the last of them. */
  predicate Flow(w: Bounds, now: nat, from: Side, to: Side, transit: seq<nat>, read: nat) {
    && !from.missed
    && FULL <= read <= to.lastRecv <= now < TWO64
    && from.lastSent == (if transit == [] then read else transit[|transit| - 1])
    && (forall i | 0 <= i < |transit| ::
          Before(transit, read, i) <= transit[i] <= Before(transit, read, i) + HALF + w.turn)
    && from.lastSent <= from.lastCheck <= from.lastSent + HALF
    && from.lastCheck <= now <= from.lastCheck + w.turn
    && (transit != [] ==> now <= transit[0] + w.delay)
  }

  function Before(transit: seq<nat>, read: nat, i: nat): nat
    requires i <= |transit|
  {
    if i == 0 then read else transit[i - 1]
  }

  predicate Inv(w: Bounds, s: State) {
    Flow(w, s.now, s.a, s.b, s.ab, s.abRead) && Flow(w, s.now, s.b, s.a, s.ba, s.baRead)
  }

  predicate Enough(w: Bounds) {
    HALF + w.turn + w.delay <= FULL
  }

  /** What has come in is recent enough. */
  lemma NotOverdue(w: Bounds, now: nat, from: Side, to: Side, transit: seq<nat>, read: nat)
    requires Flow(w, now, from, to, transit, read) && Enough(w)
    ensures FULL <= to.lastRecv && now <= to.lastRecv + FULL
  {
    if transit != [] {
      assert transit[0] <= Before(transit, read, 0) + HALF + w.turn;
    }
  }

  lemma CheckKeeps(w: Bounds, s: State)
    requires Inv(w, s) && Enough(w)
    ensures Inv(w, StepOfA(s, true))
  {
    hide Flow, Checked;
    NotOverdue(w, s.now, s.b, s.a, s.ba, s.baRead);
    CheckSends(w, s.now, s.a, s.b, s.ab, s.abRead);
    CheckReceives(w, s.now, s.b, s.a, s.ba, s.baRead, StepOfA(s, true).a);
  }

  /** A side that goes through the checks sends what is due. */
  lemma CheckSends(w: Bounds, now: nat, from: Side, to: Side, transit: seq<nat>, read: nat)
    requires Flow(w, now, from, to, transit, read) && FULL <= from.lastRecv && now <= from.lastRecv + FULL
    ensures var (from', transit') := Checked(from, now, transit);
      Flow(w, now, from', to, transit', read) && from'.lastRecv == from.lastRecv
  {
    hide Wrap64;
    SmallDifference(now, FULL);
    SmallDifference(now, HALF);
    var (from', transit') := Checked(from, now, transit);
    if transit' != transit {
      assert forall i | 0 <= i < |transit| :: transit'[i] == transit[i];
      assert Before(transit', read, |transit|) == from.lastSent;
    }
  }

  lemma SmallDifference(now: nat, limit: nat)
    requires limit <= now < TWO64
    ensures Wrap64(now - limit) == now - limit
  {
  }

  /** What comes in on the other side of the checks stays as it is. */
  lemma CheckReceives(w: Bounds, now: nat, from: Side, to: Side, transit: seq<nat>, read: nat, to': Side)
    requires Flow(w, now, from, to, transit, read) && to'.lastRecv == to.lastRecv
    ensures Flow(w, now, from, to', transit, read)
  {
  }

  lemma ReadKeeps(w: Bounds, s: State)
    requires Inv(w, s)
    ensures Inv(w, StepOfA(s, false))
  {
    var t := StepOfA(s, false);
    if s.ba != [] {
      assert forall i | 0 <= i < |t.ba| :: t.ba[i] == s.ba[i + 1];
      assert s.ba[|s.ba| - 1] <= s.now by {
        assert s.b.lastSent == s.ba[|s.ba| - 1];
      }
      Increasing(w, s.now, s.b, s.a, s.ba, s.baRead, 0);
      if t.ba != [] {
        assert s.ba[0] <= t.ba[0];
      }
    }
  }

  lemma {:induction false} Increasing(w: Bounds, now: nat, from: Side, to: Side, transit: seq<nat>, read: nat, i: nat)
    requires Flow(w, now, from, to, transit, read) && i < |transit|
    ensures read <= transit[i] <= now
    decreases |transit| - i
  {
    if i + 1 < |transit| {
      Increasing(w, now, from, to, transit, read, i + 1);
    }
    FromTheStart(w, now, from, to, transit, read, i);
  }

  lemma {:induction false} FromTheStart(w: Bounds, now: nat, from: Side, to: Side, transit: seq<nat>, read: nat, i: nat)
    requires Flow(w, now, from, to, transit, read) && i < |transit|
    ensures read <= transit[i]
    decreases i
  {
    assert Before(transit, read, i) <= transit[i];
    if i > 0 {
      FromTheStart(w, now, from, to, transit, read, i - 1);
    }
  }

  lemma {:induction false} RunKeeps(w: Bounds, start: nat, steps: seq<Step>)
    requires Enough(w) && FULL <= start < TWO64
    ensures Inv(w, Run(w, start, steps))
  {
    hide Flow;
    if steps == [] {
      StartHolds(w, start);
    } else {
      RunKeeps(w, start, steps[..|steps| - 1]);
      var s := Run(w, start, steps[..|steps| - 1]);
      match steps[|steps| - 1]
      case Tick(t) => TickKeeps(w, s, t);
      case Check(who) => {
        CheckKeeps(w, s);
        CheckKeeps(w, Swap(s));
      }
      case Read(who) => {
        ReadKeeps(w, s);
        ReadKeeps(w, Swap(s));
      }
    }
  }

  lemma StartHolds(w: Bounds, start: nat)
    requires FULL <= start < TWO64
    ensures Inv(w, Start(start))
  {
  }

  lemma TickKeeps(w: Bounds, s: State, t: nat)
    requires Inv(w, s)
    ensures Inv(w, Apply(w, s, Tick(t)))
  {
  }

  // ----- and it is needed -----

  lemma RunOneMore(w: Bounds, start: nat, steps: seq<Step>, step: Step)
    ensures Run(w, start, steps + [step]) == Apply(w, Run(w, start, steps), step)
  {
    hide Apply;
    assert (steps + [step])[..|steps|] == steps;
  }

  /** Time passes, and both sides go through their checks. */
  lemma Round(w: Bounds, start: nat, steps: seq<Step>, t: nat) returns (more: seq<Step>)
    requires MayPass(w, Run(w, start, steps), t)
    ensures var s := Run(w, start, steps);
      var (a, ab) := Checked(s.a, s.now + t, s.ab);
      var (b, ba) := Checked(s.b, s.now + t, s.ba);
      Run(w, start, more) == State(s.now + t, a, b, ab, ba, s.abRead, s.baRead)
  {
    hide Run, Checked, MayPass;
    RunOneMore(w, start, steps, Tick(t));
    more := steps + [Tick(t)];
    RunOneMore(w, start, more, Check(true));
    more := more + [Check(true)];
    RunOneMore(w, start, more, Check(false));
    more := more + [Check(false)];
  }

  /** For half the limit neither side has to send anything. */
  lemma {:induction false} Quiet(w: Bounds, start: nat, t: nat) returns (steps: seq<Step>)
    requires w.turn > 0 && FULL <= start && t <= HALF && start + t < TWO64
    ensures var idle := Side(start, start, start + t, false);
      Run(w, start, steps) == State(start + t, idle, idle, [], [], start, start)
    decreases t
  {
    if t == 0 {
      steps := [];
    } else {
      var d := Min(w.turn, t);
      steps := Quiet(w, start, t - d);
      assert Wrap64(start + t - FULL) == start + t - FULL && Wrap64(start + t - HALF) == start + t - HALF;
      steps := Round(w, start, steps, d);
    }
  }

  /** Nobody has read anything, and the first keep-alives, sent at `f`, are still under way. */
  predicate Waiting(s: State, start: nat, f: nat, u: nat) {
    && s.now == f + u <= start + FULL
    && !s.a.missed && !s.b.missed
    && s.a.lastRecv == s.b.lastRecv == start
    && s.a.lastCheck == s.b.lastCheck == s.now
    && s.ab != [] && s.ab[0] == f && s.ba != [] && s.ba[0] == f
  }

  lemma {:induction false} Wait(w: Bounds, start: nat, u: nat) returns (steps: seq<Step>)
    requires w.turn > 0 && FULL <= start && u <= w.delay && start + HALF + w.turn + u < TWO64
    ensures Missed(w, start, steps) || Waiting(Run(w, start, steps), start, start + HALF + w.turn, u)
    decreases u
  {
    hide Run;
    var f := start + HALF + w.turn;
    assert Wrap64(f + u - FULL) == f + u - FULL && Wrap64(f + u - HALF) == f + u - HALF;
    if u == 0 {
      steps := Quiet(w, start, HALF);
      steps := Round(w, start, steps, w.turn);
    } else {
      var d := Min(w.turn, u);
      steps := Wait(w, start, u - d);
      if !Missed(w, start, steps) {
        steps := Round(w, start, steps, d);
      }
    }
  }

  /** No run of two live endpoints ends for want of a keep-alive exactly when half the limit, a turn of
      the loop and the delay of a keep-alive together stay within the limit. */
  lemma NeverMissedIff(w: Bounds, start: nat)
    requires w.turn > 0 && FULL <= start && start + HALF + w.turn + w.delay < TWO64
    ensures (forall steps :: !Missed(w, start, steps)) <==> 50_000_000 + w.turn + w.delay <= 100_000_000
  {
    if Enough(w) {
      forall steps
        ensures !Missed(w, start, steps)
      {
        RunKeeps(w, start, steps);
      }
    } else {
      var steps := Wait(w, start, w.delay);
      assert Missed(w, start, steps);
    }
  }

  /** The differences are unsigned, so a clock that starts below the limit ends the connection at once. */
  lemma EarlyClockMisses(w: Bounds, start: nat)
    requires start < 100_000_000
    ensures Missed(w, start, [Check(true)])
  {
    assert Run(w, start, [Check(true)]) == Apply(w, Run(w, start, []), Check(true)) by {
      assert [Check(true)][..0] == [];
    }
  }

  // ----- the code -----

  class Clocks {
    var lastSent: uint64
    var lastRecv: uint64

    constructor (now: uint64)
      ensures lastSent == lastRecv == now
    {
      lastSent, lastRecv := now, now;
    }

    /** The keep-alive checks at the end of the loop of handle_connection. */
    method AtLoopEnd(now: uint64) returns (missed: bool, send: bool)
      modifies this`lastSent
      ensures var (s, out) := Checked(Side(old(lastSent), lastRecv, 0, false), now, []);
        && missed == s.missed && lastSent == s.lastSent && send == (out != [])
      ensures now >= 100_000_000 ==> (missed <==> lastRecv + 100_000_000 < now)
      ensures now >= 50_000_000 ==> (send <==> !missed && old(lastSent) + 50_000_000 < now)
      ensures lastSent == if send then now else old(lastSent)
    {
      if Wrap64(now - FULL) > lastRecv {
        return true, false;
      }
      send := Wrap64(now - HALF) > lastSent;
      if send {
        lastSent := now;
      }
      missed := false;
    }
  }
}
