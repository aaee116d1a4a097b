/** The referee box side of the conveyor belt: a stop-and-wait protocol with numbered cycles, resending, a
    rate limit and a reset flag. Messages and clock readings are parameters. */
module ConveyorBelt {
  import opened Basics

  datatype RunMode = STOP | START

  // Fields that a status message leaves out read as their defaults.
  datatype Status = Status(connected: bool, mode: RunMode, cycle: int)

  datatype Command = Command(nextCycle: int, mode: RunMode, reset: bool)

  /** The fields of the thread. Times are in microseconds; None is not_a_date_time. */
  datatype Belt = Belt(
    cycle: nat,
    sendCommand: bool,
    sendReset: bool,
    requested: RunMode,
    last: Status,
    lastSent: Option<int>,
    lastUpdate: Option<int>)

  const UINT_RANGE: int := 0x1_0000_0000
  const INT_MAX: int := 0x7FFF_FFFF

  // cycle_ is an unsigned int, cycle numbers on the wire are int32.
  function ToInt32(n: int): int {
    var u := n % UINT_RANGE;
    if u <= INT_MAX then u else u - UINT_RANGE
  }

  function Succ(cycle: nat): nat {
    (cycle + 1) % UINT_RANGE
  }

  // The number of the next cycle as it is sent and expected.
  function NextCycle(cycle: nat): int {
    ToInt32(cycle + 1)
  }

  // Durations convert to larger units by truncation.
  function Truncated(t: int, unit: int): int
    requires unit > 0
  {
    if t >= 0 then t / unit else -(-t / unit)
  }

  const SEND_MILLISECONDS: int := 1000
  const TIMEOUT_SECONDS: int := 3

  // The difference to not_a_date_time compares as larger than any duration.
  predicate TooSoon(lastSent: Option<int>, now: int) {
    lastSent.Some? && Truncated(now - lastSent.value, 1000) < SEND_MILLISECONDS
  }

  predicate TimedOut(lastUpdate: Option<int>, now: int) {
    lastUpdate == None || Truncated(now - lastUpdate.value, 1000000) >= TIMEOUT_SECONDS
  }

  const INITIAL: Belt := Belt(0, false, true, STOP, Status(false, STOP, 0), None, None)

  // ---------------------------------------------------------------- the operations as functions

  function Received(b: Belt, incoming: Option<Status>, now: int): Belt {
    match incoming
    case None => if TimedOut(b.lastUpdate, now) then b.(last := b.last.(connected := false, mode := STOP)) else b
    case Some(s) =>
      var b1 := b.(last := s, lastUpdate := Some(now));
      if Accepts(b, s) then b1.(cycle := Succ(b.cycle), sendCommand := false, sendReset := false)
      else if s.cycle > NextCycle(b.cycle) then b1.(sendReset := true)
      else b1
  }

  predicate Accepts(b: Belt, s: Status) {
    s.cycle == NextCycle(b.cycle)
  }

  // The clock is read twice: before the message is built and after it was sent; ok is false when sending threw.
  function Sending(b: Belt, mode: RunMode, check: int, stamp: int, ok: bool): (Belt, Option<Command>) {
    if TooSoon(b.lastSent, check) || !ok then (b, None)
    else (b.(lastSent := Some(stamp)), Some(Command(NextCycle(b.cycle), mode, b.sendReset)))
  }

  // The early return of the loop.
  predicate Blocked(b: Belt) {
    b.sendCommand && NextCycle(b.cycle) == b.last.cycle
  }

  function Looped(b: Belt, incoming: Option<Status>, now: int, check: int, stamp: int, ok: bool)
    : (Belt, Option<Command>)
  {
    var r := Received(b, incoming, now);
    if (r.sendCommand && !Blocked(r)) || (!r.sendCommand && r.sendReset) then Sending(r, r.requested, check, stamp, ok)
    else (r, None)
  }

  function Requested(b: Belt, mode: RunMode): Belt {
    b.(requested := mode, sendCommand := true)
  }

  // ---------------------------------------------------------------- the thread

  class TriggeredConveyorBeltThread {
    var cycle: nat
    var sendConveyorCommand: bool
    var sendResetCommand: bool
    var requestedRunMode: RunMode
    var lastConveyorStatusMsg: Status
    var lastSentCommandTimestamp: Option<int>
    var prevConveyorUpdateTimestamp: Option<int>

    ghost function State(): Belt
      reads this
    {
      Belt(cycle, sendConveyorCommand, sendResetCommand, requestedRunMode, lastConveyorStatusMsg,
           lastSentCommandTimestamp, prevConveyorUpdateTimestamp)
    }

    constructor ()
      ensures State() == INITIAL
    {
      cycle, sendConveyorCommand, sendResetCommand, requestedRunMode := 0, false, true, STOP;
      lastConveyorStatusMsg := Status(false, STOP, 0);
      lastSentCommandTimestamp, prevConveyorUpdateTimestamp := None, None;
    }

    method ReceiveAndBufferConveyorStatusMsg(incoming: Option<Status>, now: int)
      modifies this
      ensures State() == Received(old(State()), incoming, now)
    {
      match incoming
      case Some(s) =>
        lastConveyorStatusMsg := s;
        var expectedCycle := NextCycle(cycle);
        if lastConveyorStatusMsg.cycle == expectedCycle {
          cycle := Succ(cycle);
          sendConveyorCommand := false;
          sendResetCommand := false;
        } else if lastConveyorStatusMsg.cycle > expectedCycle {
          sendResetCommand := true;
        }
        prevConveyorUpdateTimestamp := Some(now);
      case None =>
        if TimedOut(prevConveyorUpdateTimestamp, now) {
          lastConveyorStatusMsg := lastConveyorStatusMsg.(connected := false, mode := STOP);
        }
    }

    method SetConveyorBeltRunMode(mode: RunMode, check: int, stamp: int, ok: bool) returns (sent: Option<Command>)
      modifies this
      ensures (State(), sent) == Sending(old(State()), mode, check, stamp, ok)
    {
      sent := None;
      if TooSoon(lastSentCommandTimestamp, check) {
        return;
      }
      if ok {
        sent := Some(Command(NextCycle(cycle), mode, sendResetCommand));
        lastSentCommandTimestamp := Some(stamp);
      }
    }

    method Loop(incoming: Option<Status>, now: int, check: int, stamp: int, ok: bool) returns (sent: Option<Command>)
      modifies this
      ensures (State(), sent) == Looped(old(State()), incoming, now, check, stamp, ok)
    {
      sent := None;
      ReceiveAndBufferConveyorStatusMsg(incoming, now);
      if sendConveyorCommand {
        var nextCycle := NextCycle(cycle);
        if nextCycle == lastConveyorStatusMsg.cycle {
          return;
        }
        sent := SetConveyorBeltRunMode(requestedRunMode, check, stamp, ok);
      } else if sendResetCommand {
        sent := SetConveyorBeltRunMode(requestedRunMode, check, stamp, ok);
      }
    }

    method ClipsIsBeltRunning() returns (b: bool)
      ensures b <==> lastConveyorStatusMsg.mode == START
    {
      b := lastConveyorStatusMsg.mode == START;
    }

    method ClipsIsBeltConnected() returns (b: bool)
      ensures b <==> lastConveyorStatusMsg.connected
    {
      b := lastConveyorStatusMsg.connected;
    }

    method ClipsStartBelt()
      modifies this
      ensures State() == Requested(old(State()), START)
      ensures requestedRunMode == START && sendConveyorCommand
    {
      requestedRunMode := START;
      sendConveyorCommand := true;
    }

    method ClipsStopBelt()
      modifies this
      ensures State() == Requested(old(State()), STOP)
      ensures requestedRunMode == STOP && sendConveyorCommand
    {
      requestedRunMode := STOP;
      sendConveyorCommand := true;
    }
  }

  // ---------------------------------------------------------------- runs of the referee box

  // Init is the send that the thread makes while it is set up.
  datatype Event =
    | Init(check: int, stamp: int, ok: bool)
    | Loop(incoming: Option<Status>, now: int, check: int, stamp: int, ok: bool)
    | Request(mode: RunMode)

  // One command that went out, and how many acknowledgements had been accepted by then.
  datatype Sent = Sent(check: int, stamp: int, command: Command, accepted: nat)

  datatype History = History(belt: Belt, accepted: seq<int>, sends: seq<Sent>)

  function AcceptedBy(b: Belt, incoming: Option<Status>): seq<int> {
    if incoming.Some? && Accepts(b, incoming.value) then [incoming.value.cycle] else []
  }

  function SentNow(c: Option<Command>, check: int, stamp: int, accepted: nat): seq<Sent> {
    if c.Some? then [Sent(check, stamp, c.value, accepted)] else []
  }

  function Next(h: History, e: Event): History {
    match e
    case Init(check, stamp, ok) =>
      var (b, c) := Sending(h.belt, h.belt.requested, check, stamp, ok);
      h.(belt := b, sends := h.sends + SentNow(c, check, stamp, |h.accepted|))
    case Loop(incoming, now, check, stamp, ok) =>
      var (b, c) := Looped(h.belt, incoming, now, check, stamp, ok);
      var accepted := h.accepted + AcceptedBy(h.belt, incoming);
      History(b, accepted, h.sends + SentNow(c, check, stamp, |accepted|))
    case Request(mode) => h.(belt := Requested(h.belt, mode))
  }

  function Run(es: seq<Event>): History {
    if es == [] then History(INITIAL, [], []) else Next(Run(es[..|es| - 1]), es[|es| - 1])
  }

  ghost predicate Numbered(h: History) {
    && h.belt.cycle == |h.accepted| % UINT_RANGE
    && (forall i :: 0 <= i < |h.accepted| ==> h.accepted[i] == ToInt32(i + 1))
    && (forall i :: 0 <= i < |h.sends| ==>
          h.sends[i].accepted <= |h.accepted| && h.sends[i].command.nextCycle == ToInt32(h.sends[i].accepted + 1))
  }

  ghost predicate Spaced(lastSent: Option<int>, sends: seq<Sent>) {
    && lastSent == (if sends == [] then None else Some(sends[|sends| - 1].stamp))
    && (forall i :: 0 < i < |sends| ==> sends[i].check - sends[i - 1].stamp >= 1000000)
  }

  // The status last seen never carries the number that the loop waits for: it would have been accepted.
  ghost predicate NeverBlocked(b: Belt) {
    b.last.cycle != NextCycle(b.cycle)
  }

  /** A number on the wire is the 32-bit two's complement reading of the counter. */
  lemma WireNumber(n: int)
    ensures -0x8000_0000 <= ToInt32(n) <= 0x7FFF_FFFF && (n - ToInt32(n)) % 0x1_0000_0000 == 0
  {
    assert n == n / UINT_RANGE * UINT_RANGE + n % UINT_RANGE;
  }

  lemma NumbersDiffer(cycle: nat)
    requires cycle < UINT_RANGE
    ensures Succ(cycle) < UINT_RANGE
    ensures NextCycle(cycle) != NextCycle(Succ(cycle))
  {
  }

  lemma SuccOfCount(n: nat)
    ensures Succ(n % UINT_RANGE) == (n + 1) % UINT_RANGE
    ensures NextCycle(n % UINT_RANGE) == ToInt32(n + 1)
  {
  }

  /** Truncation does not blur the limits: a send is too soon within the first second, and a status is
      missed after three. */
  lemma LimitsAreExact(t: int, now: int)
    ensures TooSoon(Some(t), now) <==> now - t < 1000000
    ensures TimedOut(Some(t), now) <==> now - t >= 3000000
  {
  }

  lemma NextSpaced(h: History, e: Event)
    requires Spaced(h.belt.lastSent, h.sends)
    ensures Spaced(Next(h, e).belt.lastSent, Next(h, e).sends)
  {
    hide TooSoon, TimedOut, NextCycle, Succ;
    if !e.Request? && h.belt.lastSent.Some? {
      LimitsAreExact(h.belt.lastSent.value, e.check);
    }
  }

  lemma NextNumbered(h: History, e: Event)
    requires Numbered(h)
    ensures Numbered(Next(h, e))
  {
    hide TooSoon, TimedOut, NextCycle, ToInt32, Succ;
    SuccOfCount(|h.accepted|);
    SuccOfCount(|h.accepted| + 1);
  }

  lemma NextNeverBlocked(b: Belt, incoming: Option<Status>, now: int)
    requires NeverBlocked(b) && b.cycle < UINT_RANGE
    ensures NeverBlocked(Received(b, incoming, now))
  {
    NumbersDiffer(b.cycle);
  }

  /** Over every run of the referee box: the accepted acknowledgements are numbered 1, 2, 3 and so on, every
      command carries one plus the number accepted so far, each send is at least a second after the one before
      it, and the early return of the loop is never taken. */
  lemma {:induction false} RunLaws(es: seq<Event>)
    ensures var h := Run(es);
            && Numbered(h) && Spaced(h.belt.lastSent, h.sends) && NeverBlocked(h.belt)
            && forall incoming, now :: !Blocked(Received(h.belt, incoming, now))
    decreases |es|
  {
    var h := Run(es);
    if es != [] {
      var before, e := Run(es[..|es| - 1]), es[|es| - 1];
      RunLaws(es[..|es| - 1]);
      NextNumbered(before, e);
      NextSpaced(before, e);
      if e.Loop? {
        NextNeverBlocked(before.belt, e.incoming, e.now);
      }
    }
    forall incoming, now
      ensures !Blocked(Received(h.belt, incoming, now))
    {
      NextNeverBlocked(h.belt, incoming, now);
    }
  }

  // ---------------------------------------------------------------- the fields in terms of what happened

  // The mode of the last request; the belt is to stand still before the first one.
  function LastRequest(es: seq<Event>): RunMode {
    if es == [] then STOP
    else if es[|es| - 1].Request? then es[|es| - 1].mode else LastRequest(es[..|es| - 1])
  }

  // The number of statuses so far that carried the number then expected.
  function Acks(es: seq<Event>): nat {
    if es == [] then 0
    else
      var n, e := Acks(es[..|es| - 1]), es[|es| - 1];
      if e.Loop? && e.incoming.Some? && e.incoming.value.cycle == ToInt32(n + 1) then n + 1 else n
  }

  // A request came after the last acknowledgement.
  function Asked(es: seq<Event>): bool {
    if es == [] then false
    else
      var ds := es[..|es| - 1];
      es[|es| - 1].Request? || (Acks(es) == Acks(ds) && Asked(ds))
  }

  // A reset is due at first, and after a status from ahead; an acknowledgement settles it.
  function ResetDue(es: seq<Event>): bool {
    if es == [] then true
    else
      var ds, e := es[..|es| - 1], es[|es| - 1];
      if Acks(es) > Acks(ds) then false
      else (e.Loop? && e.incoming.Some? && e.incoming.value.cycle > ToInt32(Acks(ds) + 1)) || ResetDue(ds)
  }

  // The last status that came, and when.
  function Heard(es: seq<Event>): Option<(Status, int)> {
    if es == [] then None
    else
      var e := es[|es| - 1];
      if e.Loop? && e.incoming.Some? then Some((e.incoming.value, e.now)) else Heard(es[..|es| - 1])
  }

  // Since then the loop has found three seconds gone by without a status.
  function Missed(es: seq<Event>): bool {
    if es == [] then false
    else
      var ds, e := es[..|es| - 1], es[|es| - 1];
      if !e.Loop? then Missed(ds)
      else e.incoming == None && (Missed(ds) || Heard(ds) == None || e.now - Heard(ds).value.1 >= 3000000)
  }

  // The status that the thread answers from.
  function Believed(es: seq<Event>): Status {
    match Heard(es)
    case None => Status(false, STOP, 0)
    case Some((s, _)) => if Missed(es) then Status(false, STOP, s.cycle) else s
  }

  /** Every field of the thread, told from the events alone. */
  ghost predicate Explained(es: seq<Event>) {
    var h := Run(es);
    && |h.accepted| == Acks(es)
    && h.belt.cycle == Acks(es) % UINT_RANGE
    && h.belt.requested == LastRequest(es)
    && h.belt.sendCommand == Asked(es)
    && h.belt.sendReset == ResetDue(es)
    && h.belt.last == Believed(es)
    && h.belt.lastUpdate == (if Heard(es) == None then None else Some(Heard(es).value.1))
  }

  lemma ReceivedExplained(es: seq<Event>, e: Event)
    requires e.Loop? && Explained(es)
    ensures var r, fs := Received(Run(es).belt, e.incoming, e.now), es + [e];
            && r.cycle == Acks(fs) % UINT_RANGE && r.requested == LastRequest(fs)
            && r.sendCommand == Asked(fs) && r.sendReset == ResetDue(fs) && r.last == Believed(fs)
            && r.lastUpdate == (if Heard(fs) == None then None else Some(Heard(fs).value.1))
            && |Run(es).accepted + AcceptedBy(Run(es).belt, e.incoming)| == Acks(fs)
  {
    var fs := es + [e];
    assert fs[..|fs| - 1] == es;
    hide Run, TimedOut, ToInt32, Succ, NextCycle;
    SuccOfCount(Acks(es));
    if Heard(es).Some? {
      LimitsAreExact(Heard(es).value.1, e.now);
    }
    NeverHeard(e.now);
  }

  lemma NeverHeard(now: int)
    ensures TimedOut(None, now)
  {
  }

  /** Over every run all fields of the thread follow from the events: what was asked for last, which numbers were
      acknowledged, whether a reset is due, and the last status unless three seconds passed without one. */
  lemma {:induction false} RunExplained(es: seq<Event>)
    ensures Explained(es)
    decreases |es|
  {
    if es != [] {
      var ds, e := es[..|es| - 1], es[|es| - 1];
      assert es == ds + [e];
      RunExplained(ds);
      if e.Loop? {
        LoopExplained(ds, e);
      } else {
        OtherExplained(ds, e);
      }
    } else {
      NothingYet();
    }
  }

  lemma NothingYet()
    ensures Explained([])
  {
  }

  lemma LoopExplained(ds: seq<Event>, e: Event)
    requires e.Loop? && Explained(ds)
    ensures Explained(ds + [e])
  {
    LastOf(ds, e);
    ReceivedExplained(ds, e);
    hide Received, TooSoon, AcceptedBy, Acks, LastRequest, Asked, ResetDue, Believed, Heard;
  }

  lemma OtherExplained(ds: seq<Event>, e: Event)
    requires !e.Loop? && Explained(ds)
    ensures Explained(ds + [e])
  {
    LastOf(ds, e);
    assert (ds + [e])[..|ds|] == ds;
    hide Run, TooSoon, NextCycle;
  }

  lemma LastOf(ds: seq<Event>, e: Event)
    ensures Run(ds + [e]) == Next(Run(ds), e)
  {
    assert (ds + [e])[..|ds|] == ds;
  }

  // The command of a moment: one more than the acknowledgements, the last request, and whether a reset is due.
  function CommandFor(es: seq<Event>): Command {
    Command(ToInt32(Acks(es) + 1), LastRequest(es), ResetDue(es))
  }

  // The first command, or a second has gone by since the last one.
  ghost predicate Free(sends: seq<Sent>, check: int) {
    sends == [] || check - sends[|sends| - 1].stamp >= 1000000
  }

  /** When a command goes out and what it says: in a round of the loop exactly when a request or a reset is open and
      the last command is a second old, if sending works. */
  lemma SendsExplained(es: seq<Event>)
    requires es != [] && !es[|es| - 1].Request?
    ensures var ds, e := es[..|es| - 1], es[|es| - 1];
            var before, after := Run(ds).sends, Run(es).sends;
            after == if e.ok && Free(before, e.check) && (e.Loop? ==> Asked(es) || ResetDue(es))
                     then before + [Sent(e.check, e.stamp, CommandFor(es), Acks(es))] else before
  {
    var ds, e := es[..|es| - 1], es[|es| - 1];
    RunLaws(ds);
    RunExplained(es);
    SuccOfCount(Acks(es));
    hide ToInt32, NextCycle, Received, Next, Acks, LastRequest, Asked, ResetDue, Believed, Heard;
    NextSends(Run(ds), e);
  }

  // The command that one event sends, in terms of the fields after it.
  lemma NextSends(h: History, e: Event)
    requires !e.Request? && Spaced(h.belt.lastSent, h.sends)
    requires e.Loop? ==> !Blocked(Received(h.belt, e.incoming, e.now))
    ensures var g := Next(h, e);
            var c := Command(NextCycle(g.belt.cycle), g.belt.requested, g.belt.sendReset);
            g.sends == if e.ok && Free(h.sends, e.check) && (e.Loop? ==> g.belt.sendCommand || g.belt.sendReset)
                       then h.sends + [Sent(e.check, e.stamp, c, |g.accepted|)] else h.sends
  {
    hide NextCycle, Received, TooSoon, AcceptedBy;
    if h.sends != [] {
      LimitsAreExact(h.sends[|h.sends| - 1].stamp, e.check);
    }
    if e.Loop? {
      KeepsLastSent(h.belt, e.incoming, e.now);
    }
    NeverSent(e.check);
    assert h.sends + [] == h.sends;
  }

  lemma KeepsLastSent(b: Belt, incoming: Option<Status>, now: int)
    ensures Received(b, incoming, now).lastSent == b.lastSent
  {
  }

  lemma NeverSent(check: int)
    ensures !TooSoon(None, check)
  {
  }

  // ---------------------------------------------------------------- a clock that does not go back

  // The clock readings of an event, from time t on.
  ghost predicate Ticks(e: Event, t: int, t': int) {
    match e
    case Init(check, stamp, _) => t <= check <= stamp <= t'
    case Loop(_, now, check, stamp, _) => t <= now <= check <= stamp <= t'
    case Request(_) => t <= t'
  }

  // Times t0, t1, ... between which the events read the clock.
  ghost predicate Monotone(es: seq<Event>, ts: seq<int>) {
    |ts| == |es| + 1 && forall i :: 0 <= i < |es| ==> Ticks(es[i], ts[i], ts[i + 1])
  }

  ghost predicate SecondsApart(h: History, t: int) {
    && (forall i :: 0 <= i < |h.sends| ==> h.sends[i].stamp <= t)
    && (forall i :: 0 < i < |h.sends| ==> h.sends[i].stamp - h.sends[i - 1].stamp >= 1000000)
  }

  /** On a clock that does not go back, all sends are at least a second apart. */
  lemma {:induction false} SendsApart(es: seq<Event>, ts: seq<int>)
    requires Monotone(es, ts)
    ensures SecondsApart(Run(es), ts[|es|])
    decreases |es|
  {
    if es != [] {
      var n := |es| - 1;
      SendsApart(es[..n], ts[..n + 1]);
      RunLaws(es);
      var h, g := Run(es[..n]), Run(es);
      SendsOfStep(h, es[n]);
      assert Ticks(es[n], ts[n], ts[n + 1]);
    }
  }

  lemma SendsOfStep(h: History, e: Event)
    ensures var s := Next(h, e).sends;
            || s == h.sends
            || (!e.Request? && |s| == |h.sends| + 1 && s[..|h.sends|] == h.sends
                && s[|h.sends|].stamp == e.stamp && s[|h.sends|].check == e.check)
  {
    hide TooSoon, TimedOut, NextCycle, Succ;
  }
}
