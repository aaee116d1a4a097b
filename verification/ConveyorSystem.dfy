/** The conveyor belt handshake as a whole: the referee box, a device and two channels that may lose,
    duplicate and reorder messages. The device adopts a command only when its number is one more than its own
    cycle; this is the assumption about it. */
module ConveyorSystem {
  import opened Basics
  import opened ConveyorBelt

  datatype Device = Device(cycle: int, mode: RunMode)

  /** A channel is the set of the messages ever sent on it: any of them may still arrive, at any time, as
      often as it likes, or never. */
  datatype System = System(
    belt: Belt,
    device: Device,
    commands: set<Command>,
    statuses: set<Status>,
    executed: seq<Command>)

  datatype Step =
    | Tick(incoming: Option<Status>, now: int, check: int, stamp: int, ok: bool)
    | Ask(mode: RunMode)
    | Deliver(command: Command)
    | Publish

  // Only messages that were sent can arrive.
  predicate Possible(s: System, e: Step) {
    match e
    case Tick(incoming, _, _, _, _) => incoming.Some? ==> incoming.value in s.statuses
    case Deliver(c) => c in s.commands
    case Ask(_) => true
    case Publish => true
  }

  // The device's cycle is an int32 as well: at the largest one it adopts nothing.
  predicate Adopts(d: Device, c: Command) {
    d.cycle < INT_MAX && c.nextCycle == d.cycle + 1
  }

  function Do(s: System, e: Step): System {
    match e
    case Tick(incoming, now, check, stamp, ok) =>
      var (b, sent) := Looped(s.belt, incoming, now, check, stamp, ok);
      s.(belt := b, commands := s.commands + if sent.Some? then {sent.value} else {})
    case Ask(mode) => s.(belt := Requested(s.belt, mode))
    case Deliver(c) =>
      if Adopts(s.device, c)
      then s.(device := Device(c.nextCycle, c.mode), executed := s.executed + [c])
      else s
    case Publish => s.(statuses := s.statuses + {Status(true, s.device.mode, s.device.cycle)})
  }

  ghost predicate Feasible(s: System, es: seq<Step>)
    decreases |es|
  {
    es == [] || (Possible(s, es[0]) && Feasible(Do(s, es[0]), es[1..]))
  }

  function After(s: System, es: seq<Step>): System
    decreases |es|
  {
    if es == [] then s else After(Do(s, es[0]), es[1..])
  }

  // ---------------------------------------------------------------- what every step keeps

  // The thread goes on sending, for a request or for a reset.
  predicate Pending(b: Belt) {
    b.sendCommand || b.sendReset
  }

  /** The reset flag is clear, both sides are at the same cycle, and only old messages are on the way. */
  ghost predicate Steady(s: System, start: int) {
    && !s.belt.sendReset && NeverBlocked(s.belt)
    && 0 <= s.belt.cycle == s.device.cycle < INT_MAX
    && (forall c :: c in s.commands ==> c.nextCycle <= s.device.cycle)
    && (forall m :: m in s.statuses ==> 0 <= m.cycle <= s.device.cycle)
    && Once(s, start)
  }

  // The referee box is at most one cycle behind the device, and nobody is ahead of the numbers handed out.
  ghost predicate InStep(s: System) {
    && s.belt.cycle <= s.device.cycle <= s.belt.cycle + 1
    && (forall c :: c in s.commands ==> c.nextCycle <= s.belt.cycle + 1)
    && (forall m :: m in s.statuses ==> 0 <= m.cycle <= s.device.cycle)
    && (s.device.cycle == s.belt.cycle + 1 ==> Pending(s.belt))
    && (forall c :: c in s.commands && c.nextCycle == s.belt.cycle + 1 ==> Pending(s.belt))
  }

  // The last cycle number is used up; the sides agree on it for good.
  ghost predicate Exhausted(s: System) {
    && s.belt.cycle == s.device.cycle == INT_MAX
    && (forall c :: c in s.commands ==> c.nextCycle <= INT_MAX)
    && (forall m :: m in s.statuses ==> 0 <= m.cycle <= INT_MAX)
  }

  // Adopted commands are numbered consecutively from the start.
  ghost predicate Once(s: System, start: int) {
    && s.device.cycle == start + |s.executed|
    && forall i :: 0 <= i < |s.executed| ==> s.executed[i].nextCycle == start + i + 1
  }

  ghost predicate Invariant(s: System, start: int) {
    && Once(s, start) && NeverBlocked(s.belt)
    && if s.belt.cycle < INT_MAX then InStep(s) else Exhausted(s)
  }

  lemma NumberBelowMax(cycle: nat)
    ensures cycle < INT_MAX ==> NextCycle(cycle) == cycle + 1 && Succ(cycle) == cycle + 1
    ensures cycle == INT_MAX ==> NextCycle(cycle) < 0
  {
  }

  lemma TickKeeps(s: System, e: Step, start: int)
    requires Invariant(s, start) && Possible(s, e) && e.Tick?
    ensures Invariant(Do(s, e), start)
  {
    NextNeverBlocked(s.belt, e.incoming, e.now);
    hide NextCycle, Succ, TooSoon, TimedOut;
    NumberBelowMax(s.belt.cycle);
    NumberBelowMax(Received(s.belt, e.incoming, e.now).cycle);
  }

  lemma StepKeeps(s: System, e: Step, start: int)
    requires Invariant(s, start) && Possible(s, e)
    ensures Invariant(Do(s, e), start)
  {
    if e.Tick? {
      TickKeeps(s, e, start);
    }
  }

  lemma {:induction false} RunKeeps(s: System, es: seq<Step>, start: int)
    requires Invariant(s, start) && Feasible(s, es)
    ensures Invariant(After(s, es), start)
    decreases |es|
  {
    if es != [] {
      StepKeeps(s, es[0], start);
      RunKeeps(Do(s, es[0]), es[1..], start);
    }
  }

  // The reset flag is set only before the first acknowledgement after cycle number `first`.
  ghost predicate ResetBefore(s: System, first: int) {
    first <= s.belt.cycle && (s.belt.sendReset && s.belt.cycle < INT_MAX ==> s.belt.cycle == first)
  }

  lemma {:induction false} ResetStaysClear(s: System, es: seq<Step>, start: int, first: int)
    requires Invariant(s, start) && Feasible(s, es) && ResetBefore(s, first)
    ensures ResetBefore(After(s, es), first)
    ensures !s.belt.sendReset && After(s, es).belt.cycle < INT_MAX ==> !After(s, es).belt.sendReset
    decreases |es|
  {
    if es != [] {
      var next := Do(s, es[0]);
      NumberBelowMax(s.belt.cycle);
      StepKeeps(s, es[0], start);
      CycleGrows(next, es[1..], start);
      ResetStaysClear(next, es[1..], start, first);
    }
  }

  lemma {:induction false} CycleGrows(s: System, es: seq<Step>, start: int)
    requires Invariant(s, start) && Feasible(s, es)
    ensures s.belt.cycle <= After(s, es).belt.cycle
    decreases |es|
  {
    if es != [] {
      NumberBelowMax(s.belt.cycle);
      StepKeeps(s, es[0], start);
      CycleGrows(Do(s, es[0]), es[1..], start);
    }
  }

  /** Whatever is lost, duplicated or reordered after a steady state: the device is never more than one cycle
      ahead, no cycle number is executed twice, and the reset flag stays clear until the cycle numbers run
      out. */
  lemma Handshake(s: System, es: seq<Step>, start: int)
    requires Steady(s, start) && Feasible(s, es)
    ensures var t := After(s, es);
            && t.belt.cycle <= t.device.cycle <= t.belt.cycle + 1
            && (forall i, j :: 0 <= i < j < |t.executed| ==> t.executed[i].nextCycle < t.executed[j].nextCycle)
            && (t.belt.cycle < INT_MAX ==> !t.belt.sendReset)
  {
    RunKeeps(s, es, start);
    ResetStaysClear(s, es, start, s.belt.cycle);
  }

  // The thread as it is constructed and a device that has not executed anything yet.
  function PowerOn(mode: RunMode): System {
    System(INITIAL, Device(0, mode), {}, {}, [])
  }

  lemma PowerOnInvariant(mode: RunMode)
    ensures Invariant(PowerOn(mode), 0) && Agreed(PowerOn(mode), STOP) && ResetBefore(PowerOn(mode), 0)
  {
    NumberBelowMax(0);
  }

  /** The same holds from the very beginning, the opening reset included: the device is never more than one cycle
      ahead, no cycle number is executed twice, and from the first acknowledgement on the reset flag is clear
      until the cycle numbers run out. */
  lemma HandshakeFromPowerOn(mode: RunMode, es: seq<Step>)
    requires Feasible(PowerOn(mode), es)
    ensures var t := After(PowerOn(mode), es);
            && Invariant(t, 0)
            && t.belt.cycle <= t.device.cycle <= t.belt.cycle + 1
            && (forall i, j :: 0 <= i < j < |t.executed| ==> t.executed[i].nextCycle < t.executed[j].nextCycle)
            && (0 < t.belt.cycle < INT_MAX ==> !t.belt.sendReset)
  {
    PowerOnInvariant(mode);
    RunKeeps(PowerOn(mode), es, 0);
    ResetStaysClear(PowerOn(mode), es, 0, 0);
  }

  /** The opening exchange leads to a steady state, with the reset command still on the way. */
  lemma SteadyReached(mode: RunMode)
    ensures var reset := Command(1, STOP, true);
            var es := [Tick(None, 0, 0, 0, true), Deliver(reset)] + Acknowledge(Device(1, STOP), 0);
            && Feasible(PowerOn(mode), es) && Steady(After(PowerOn(mode), es), 0)
            && reset in After(PowerOn(mode), es).commands
  {
    NumberBelowMax(0);
    NumberBelowMax(1);
    var reset := Command(1, STOP, true);
    var s0 := PowerOn(mode);
    var s1 := Do(s0, Tick(None, 0, 0, 0, true));
    var s2 := Do(s1, Deliver(reset));
    var tail := Acknowledge(Device(1, STOP), 0);
    PowerOnInvariant(mode);
    StepKeeps(s0, Tick(None, 0, 0, 0, true), 0);
    StepKeeps(s1, Deliver(reset), 0);
    Acknowledged(s2, 0, 0);
    assert [Tick(None, 0, 0, 0, true), Deliver(reset)] + tail == [Tick(None, 0, 0, 0, true)] + ([Deliver(reset)] + tail);
    Prepend(s1, Deliver(reset), tail);
    Prepend(s0, Tick(None, 0, 0, 0, true), [Deliver(reset)] + tail);
    RunKeeps(s2, tail, 0);
    Unfold2(s2, tail[0], tail[1]);
  }

  /** A status that repeats the current cycle raises the reset flag exactly at the last int32 number, where
      the expected number has wrapped around. */
  lemma ResetAtWrap(b: Belt, m: Status, now: int)
    requires !b.sendReset && b.cycle <= INT_MAX && m.cycle == b.cycle
    ensures Received(b, Some(m), now).sendReset <==> b.cycle == INT_MAX
  {
    NumberBelowMax(b.cycle);
  }

  // ---------------------------------------------------------------- what the device ends up doing

  // The modes asked for in a run, in order.
  function Requests(es: seq<Step>): seq<RunMode>
    decreases |es|
  {
    if es == [] then [] else (if es[0].Ask? then [es[0].mode] else []) + Requests(es[1..])
  }

  // The mode asked for last, `before` if nothing was asked for.
  function LastAsked(es: seq<Step>, before: RunMode): RunMode {
    var ms := Requests(es);
    if ms == [] then before else ms[|ms| - 1]
  }

  lemma LastAskedStep(es: seq<Step>, before: RunMode)
    requires es != []
    ensures LastAsked(es, before) == LastAsked(es[1..], if es[0].Ask? then es[0].mode else before)
  {
  }

  /** The thread always wants the mode that was asked for last. */
  lemma {:induction false} WantsLastAsked(s: System, es: seq<Step>)
    ensures After(s, es).belt.requested == LastAsked(es, s.belt.requested)
    decreases |es|
  {
    if es != [] {
      WantsLastAsked(Do(s, es[0]), es[1..]);
      LastAskedStep(es, s.belt.requested);
    }
  }

  // The belt has nothing more to say, and the device runs in another mode than m.
  ghost predicate Disagree(s: System, m: RunMode) {
    !Pending(s.belt) && s.device.mode != m
  }

  /** Mode m is the only one that can still take effect. */
  ghost predicate Agreed(s: System, m: RunMode) {
    if !Pending(s.belt) || s.device.cycle == s.belt.cycle + 1 then s.device.mode == m
    else forall c :: c in s.commands && c.nextCycle == s.belt.cycle + 1 ==> c.mode == m
  }

  ghost predicate NoRequests(es: seq<Step>) {
    forall i :: 0 <= i < |es| ==> !es[i].Ask?
  }

  lemma AgreedStep(s: System, e: Step, start: int)
    requires Invariant(s, start) && Agreed(s, s.belt.requested) && Possible(s, e) && !e.Ask?
    ensures Agreed(Do(s, e), s.belt.requested) && Do(s, e).belt.requested == s.belt.requested
  {
    hide NextCycle, Succ, TooSoon, TimedOut;
    NumberBelowMax(s.belt.cycle);
    if e.Tick? {
      NumberBelowMax(Received(s.belt, e.incoming, e.now).cycle);
    }
  }

  lemma {:induction false} AgreedRun(s: System, es: seq<Step>, start: int)
    requires Invariant(s, start) && Agreed(s, s.belt.requested) && Feasible(s, es) && NoRequests(es)
    ensures !Disagree(After(s, es), s.belt.requested)
    decreases |es|
  {
    if es != [] {
      StepKeeps(s, es[0], start);
      AgreedStep(s, es[0], start);
      AgreedRun(Do(s, es[0]), es[1..], start);
    }
  }

  // The status that the device would publish.
  function Report(d: Device): Status {
    Status(true, d.mode, d.cycle)
  }

  // The device reports its cycle, and the report arrives.
  function Acknowledge(d: Device, now: int): seq<Step> {
    [Publish, Tick(Some(Report(d)), now, now, now, false)]
  }

  lemma Unfold2(s: System, e: Step, f: Step)
    ensures After(s, [e, f]) == Do(Do(s, e), f)
    ensures Feasible(s, [e, f]) <==> Possible(s, e) && Possible(Do(s, e), f)
  {
    assert [e, f][1..] == [f] && [f][1..] == [];
    assert After(Do(s, e), [f]) == After(Do(Do(s, e), f), []);
    assert Feasible(Do(s, e), [f]) <==> Possible(Do(s, e), f) && Feasible(Do(Do(s, e), f), []);
  }

  // An adopted command is acknowledged as soon as one report gets through.
  lemma Acknowledged(s: System, start: int, now: int)
    requires Invariant(s, start) && s.belt.cycle < INT_MAX && s.device.cycle == s.belt.cycle + 1
    ensures Feasible(s, Acknowledge(s.device, now))
    ensures var t := After(s, Acknowledge(s.device, now));
            && !Pending(t.belt) && t.belt.requested == s.belt.requested
            && t.device == s.device && t.belt.cycle == t.device.cycle
  {
    hide TooSoon, TimedOut;
    var m := Report(s.device);
    NumberBelowMax(s.belt.cycle);
    Unfold2(s, Publish, Tick(Some(m), now, now, now, false));
  }

  /** After any run, the last request is lost, in the sense that the handshake can complete without it, exactly when
      a different mode was already adopted or is on the way under the number that is still open. */
  lemma RequestLost(s0: System, ds: seq<Step>, start: int)
    requires Invariant(s0, start) && Feasible(s0, ds)
    ensures var s, m := After(s0, ds), LastAsked(ds, s0.belt.requested);
            Agreed(s, m) <==> forall es :: Feasible(s, es) && NoRequests(es) ==> !Disagree(After(s, es), m)
  {
    var s, m := After(s0, ds), LastAsked(ds, s0.belt.requested);
    RunKeeps(s0, ds, start);
    WantsLastAsked(s0, ds);
    if Agreed(s, m) {
      forall es | Feasible(s, es) && NoRequests(es)
        ensures !Disagree(After(s, es), m)
      {
        AgreedRun(s, es, start);
      }
    } else {
      var es := Contradiction(s, start);
      assert !(forall es :: Feasible(s, es) && NoRequests(es) ==> !Disagree(After(s, es), m));
    }
  }

  lemma Contradiction(s: System, start: int) returns (es: seq<Step>)
    requires Invariant(s, start) && !Agreed(s, s.belt.requested)
    ensures Feasible(s, es) && NoRequests(es) && Disagree(After(s, es), s.belt.requested)
  {
    if !Pending(s.belt) {
      es := [];
    } else if s.device.cycle == s.belt.cycle + 1 {
      Acknowledged(s, start, 0);
      es := Acknowledge(s.device, 0);
    } else {
      var c :| c in s.commands && c.nextCycle == s.belt.cycle + 1 && c.mode != s.belt.requested;
      var t := Do(s, Deliver(c));
      StepKeeps(s, Deliver(c), start);
      Acknowledged(t, start, 0);
      es := [Deliver(c)] + Acknowledge(t.device, 0);
      assert es[1..] == Acknowledge(t.device, 0);
    }
  }

  // Requests are made only when nothing is outstanding.
  ghost predicate Patient(s: System, es: seq<Step>)
    decreases |es|
  {
    es == [] || ((es[0].Ask? ==> !Pending(s.belt)) && Patient(Do(s, es[0]), es[1..]))
  }

  /** When every request waits for the one before it, the device always ends up in the mode asked for last. */
  lemma {:induction false} PatientRunAgrees(s: System, es: seq<Step>, start: int)
    requires Invariant(s, start) && Agreed(s, s.belt.requested) && Feasible(s, es) && Patient(s, es)
    ensures !Pending(After(s, es).belt) ==> After(s, es).device.mode == LastAsked(es, s.belt.requested)
    decreases |es|
  {
    if es != [] {
      StepKeeps(s, es[0], start);
      if !es[0].Ask? {
        AgreedStep(s, es[0], start);
      }
      PatientRunAgrees(Do(s, es[0]), es[1..], start);
      LastAskedStep(es, s.belt.requested);
    }
  }

  function OrZero(t: Option<int>): int {
    if t == None then 0 else t.value
  }

  // A moment, not before anything the belt has recorded, at which the rate limit lets a command through.
  function Moment(b: Belt): (t: int)
    ensures !TooSoon(b.lastSent, t)
    ensures b.lastSent.Some? ==> b.lastSent.value <= t
    ensures b.lastUpdate.Some? ==> b.lastUpdate.value <= t
  {
    var free := OrZero(b.lastSent) + 1000 * SEND_MILLISECONDS;
    var t := if free < OrZero(b.lastUpdate) then OrZero(b.lastUpdate) else free;
    LimitsAreExact(OrZero(b.lastSent), t);
    t
  }

  // A request, and everything that gets it to the device.
  function Serve(s: System, mode: RunMode): seq<Step> {
    var now := Moment(s.belt);
    [Ask(mode), Tick(None, now, now, now, true), Deliver(Command(s.belt.cycle + 1, mode, false))]
  }

  lemma Served(s: System, start: int, mode: RunMode)
    requires Steady(s, start)
    ensures Feasible(s, Serve(s, mode)) && Invariant(After(s, Serve(s, mode)), start)
    ensures var t := After(s, Serve(s, mode));
            t.device.mode == mode && t.belt.cycle == s.belt.cycle && t.device.cycle == s.belt.cycle + 1
  {
    var now := Moment(s.belt);
    hide TooSoon, TimedOut, NextCycle;
    NumberBelowMax(s.belt.cycle);
    var send, deliver := Tick(None, now, now, now, true), Deliver(Command(s.belt.cycle + 1, mode, false));
    var s1 := Do(s, Ask(mode));
    var s2 := Do(s1, send);
    StepKeeps(s, Ask(mode), start);
    StepKeeps(s1, send, start);
    assert deliver.command in s2.commands;
    StepKeeps(s2, deliver, start);
    assert Serve(s, mode) == [Ask(mode)] + ([send] + ([deliver] + []));
    Prepend(s2, deliver, []);
    Prepend(s1, send, [deliver] + []);
    Prepend(s, Ask(mode), [send] + ([deliver] + []));
  }

  lemma RequestsInParts(s: System, mode: RunMode, d: Device, now: int, es: seq<Step>)
    ensures Requests(Serve(s, mode)) == [mode] && Requests(Acknowledge(d, now)) == []
    ensures Requests([Ask(mode)] + es) == [mode] + Requests(es)
  {
    var a, b := Serve(s, mode), Acknowledge(d, now);
    assert a == [a[0], a[1], a[2]] && a[1..] == [a[1], a[2]] && a[1..][1..] == [a[2]] && a[1..][1..][1..] == [];
    assert b == [b[0], b[1]] && b[1..] == [b[1]] && b[1..][1..] == [];
    assert Requests(a[1..][1..]) == [] && Requests(b[1..]) == [];
    assert ([Ask(mode)] + es)[1..] == es;
  }

  /** From any steady state, one request with which nothing is lost takes effect: the device runs in the mode asked
      for and the referee box is done. */
  lemma RequestServed(s: System, start: int, mode: RunMode)
    requires Steady(s, start)
    ensures var es := Serve(s, mode) + Acknowledge(Device(s.belt.cycle + 1, mode), Moment(s.belt));
            && Feasible(s, es) && Requests(es) == [mode]
            && !Pending(After(s, es).belt) && After(s, es).device == Device(s.belt.cycle + 1, mode)
  {
    Served(s, start, mode);
    var t := After(s, Serve(s, mode));
    Acknowledged(t, start, Moment(s.belt));
    Joined(s, Serve(s, mode), Acknowledge(t.device, Moment(s.belt)));
    RequestsInParts(s, mode, t.device, Moment(s.belt), []);
  }

  lemma Joined(s: System, ds: seq<Step>, es: seq<Step>)
    ensures After(s, ds + es) == After(After(s, ds), es)
    ensures Feasible(s, ds + es) <==> Feasible(s, ds) && Feasible(After(s, ds), es)
    ensures Requests(ds + es) == Requests(ds) + Requests(es)
  {
    RunJoined(s, ds, es);
    RequestsJoined(ds, es);
  }

  lemma {:induction false} RunJoined(s: System, ds: seq<Step>, es: seq<Step>)
    ensures After(s, ds + es) == After(After(s, ds), es)
    ensures Feasible(s, ds + es) <==> Feasible(s, ds) && Feasible(After(s, ds), es)
    decreases |ds|
  {
    hide Do, Possible;
    if ds == [] {
      assert ds + es == es;
    } else {
      TailOfAppend(ds, es);
      RunJoined(Do(s, ds[0]), ds[1..], es);
    }
  }

  lemma {:induction false} RequestsJoined(ds: seq<Step>, es: seq<Step>)
    ensures Requests(ds + es) == Requests(ds) + Requests(es)
    decreases |ds|
  {
    if ds == [] {
      assert ds + es == es;
    } else {
      TailOfAppend(ds, es);
      RequestsJoined(ds[1..], es);
      Associative(if ds[0].Ask? then [ds[0].mode] else [], Requests(ds[1..]), Requests(es));
    }
  }

  /** From any steady state a request to stop that comes between the adoption of a start command and its
      acknowledgement is lost: the belt keeps running and the referee box is done. */
  lemma StopLost(s: System, start: int)
    requires Steady(s, start)
    ensures var es := Serve(s, START) + ([Ask(STOP)] + Acknowledge(Device(s.belt.cycle + 1, START), Moment(s.belt)));
            && Feasible(s, es) && Requests(es) == [START, STOP]
            && !Pending(After(s, es).belt) && After(s, es).device == Device(s.belt.cycle + 1, START)
  {
    hide Requests, Serve, Acknowledge, Invariant, Moment;
    Served(s, start, START);
    var t := After(s, Serve(s, START));
    var u := Do(t, Ask(STOP));
    StepKeeps(t, Ask(STOP), start);
    Acknowledged(u, start, Moment(s.belt));
    var tail := Acknowledge(u.device, Moment(s.belt));
    Prepend(t, Ask(STOP), tail);
    Joined(s, Serve(s, START), [Ask(STOP)] + tail);
    RequestsInParts(s, START, u.device, Moment(s.belt), []);
    RequestsInParts(s, STOP, u.device, Moment(s.belt), tail);
  }

  lemma Prepend(s: System, e: Step, es: seq<Step>)
    ensures After(s, [e] + es) == After(Do(s, e), es)
    ensures Feasible(s, [e] + es) <==> Possible(s, e) && Feasible(Do(s, e), es)
  {
    assert ([e] + es)[1..] == es;
  }

  /** One exchange in which nothing is lost completes the handshake: the referee box sends, the device gets the
      command, its report arrives. The device then runs in the requested mode unless it had adopted another
      one under this number before. */
  lemma RoundCompletes(s: System, start: int, now: int, check: int, stamp: int, later: int)
    requires Invariant(s, start) && s.belt.cycle < INT_MAX && Pending(s.belt) && !TooSoon(s.belt.lastSent, check)
    ensures var c := Command(s.belt.cycle + 1, s.belt.requested, s.belt.sendReset);
            var s1 := Do(s, Tick(None, now, check, stamp, true));
            && c in s1.commands
            && var s2 := Do(s1, Deliver(c));
               Feasible(s2, Acknowledge(s2.device, later)) &&
               var t := After(s2, Acknowledge(s2.device, later));
               && !Pending(t.belt) && t.belt.cycle == t.device.cycle == s.belt.cycle + 1
               && (t.device.mode == s.belt.requested <==>
                     s.device.cycle == s.belt.cycle || s.device.mode == s.belt.requested)
  {
    hide TooSoon, TimedOut, NextCycle;
    NumberBelowMax(s.belt.cycle);
    var c := Command(s.belt.cycle + 1, s.belt.requested, s.belt.sendReset);
    var e := Tick(None, now, check, stamp, true);
    StepKeeps(s, e, start);
    StepKeeps(Do(s, e), Deliver(c), start);
    Acknowledged(Do(Do(s, e), Deliver(c)), start, later);
  }
}
