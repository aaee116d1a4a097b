/** The field controllers: signal lights and RFID readers behind blocks of 16-bit registers, 16 machines per
    controller. Whether a controller answers, and what its input registers hold, are parameters. */
module SpsComm {
  import opened Basics

  const NUM_MACHINES: nat := 16
  const REG_PER_SIGNAL: nat := 3
  const REG_PER_RFID: nat := 3
  const IN_REG_START: nat := 0x4000
  const OUT_REG_START: nat := 0x4400
  const OUT_START_SIGNAL: nat := OUT_REG_START
  const OUT_START_RFID: nat := OUT_START_SIGNAL + REG_PER_SIGNAL * NUM_MACHINES
  const OUT_REGS: nat := REG_PER_SIGNAL * NUM_MACHINES + REG_PER_RFID * NUM_MACHINES
  const IN_REGS: nat := REG_PER_RFID * NUM_MACHINES

  const HAS_PUCK: nat := 0x0100
  const WRITE_DONE: nat := 0x0200
  const WRITE_PUCK_ID: nat := 0x0100
  const RESET_WRITE: nat := 0x0200
  const NO_PUCK: nat := 0xFFFF_FFFF
  const WORD: nat := 0x1_0000

  const LIGHT_BEGIN: int := 0
  const LIGHT_RED: int := 0
  const LIGHT_GREEN: int := 2
  const LIGHT_END: int := 3

  datatype SignalState = SIGNAL_OFF | SIGNAL_ON | SIGNAL_BLINK

  // Waiting: the operation has not come to an end yet.
  datatype Answer = Done | LightOutOfBounds | MachineOutOfBounds | Unreachable | Waiting

  // The output registers of every controller.
  type Bank = seq<seq<nat>>

  ghost predicate IsBank(b: Bank, size: nat) {
    forall p :: 0 <= p < |b| ==> |b[p]| == size && forall i :: 0 <= i < size ==> b[p][i] < WORD
  }

  // ---------------------------------------------------------------- registers

  // modbus_write_registers: the values from address addr on.
  function Write(b: Bank, p: nat, addr: nat, values: seq<nat>): (r: Bank)
    requires p < |b| && |b[p]| == OUT_REGS && OUT_REG_START <= addr && addr + |values| <= OUT_REG_START + OUT_REGS
    ensures |r| == |b| && |r[p]| == OUT_REGS
    ensures forall q :: 0 <= q < |b| && q != p ==> r[q] == b[q]
    ensures forall i :: 0 <= i < OUT_REGS ==>
              r[p][i] == if addr - OUT_REG_START <= i < addr - OUT_REG_START + |values|
                         then values[i - (addr - OUT_REG_START)] else b[p][i]
  {
    var at := addr - OUT_REG_START;
    b[p := b[p][..at] + values + b[p][at + |values|..]]
  }

  function SignalAddr(m: nat, light: nat): nat {
    OUT_START_SIGNAL + m % NUM_MACHINES * REG_PER_SIGNAL + light
  }

  function RfidAddr(m: nat): nat {
    OUT_START_RFID + m % NUM_MACHINES * REG_PER_RFID
  }

  // Machine m of all, over every controller.
  predicate InRange(b: Bank, m: nat) {
    m / NUM_MACHINES < |b|
  }

  function Code(s: SignalState): nat {
    match s
    case SIGNAL_OFF => 0
    case SIGNAL_ON => 0x0100
    case SIGNAL_BLINK => 0x0200
  }

  function WriteSignal(b: Bank, m: nat, light: nat, s: SignalState): Bank
    requires IsBank(b, OUT_REGS) && InRange(b, m) && light < LIGHT_END
  {
    Write(b, m / NUM_MACHINES, SignalAddr(m, light), [Code(s)])
  }

  // ---------------------------------------------------------------- what the registers mean

  /** The register of a light, and the window of a machine's RFID writer. */
  function LightOf(b: Bank, m: nat, light: nat): nat
    requires IsBank(b, OUT_REGS) && InRange(b, m) && light < LIGHT_END
  {
    b[m / NUM_MACHINES][SignalAddr(m, light) - OUT_REG_START]
  }

  function WindowOf(b: Bank, m: nat): (w: seq<nat>)
    requires IsBank(b, OUT_REGS) && InRange(b, m)
    ensures |w| == REG_PER_RFID
  {
    var at := RfidAddr(m) - OUT_REG_START;
    b[m / NUM_MACHINES][at..at + REG_PER_RFID]
  }

  lemma SameMachine(m: nat, n: nat)
    requires m / NUM_MACHINES == n / NUM_MACHINES && m % NUM_MACHINES == n % NUM_MACHINES
    ensures m == n
  {
  }

  /** Setting a light changes exactly this light, and reaches no RFID window. */
  lemma SetLightChangesOne(b: Bank, m: nat, light: nat, s: SignalState, n: nat, l: nat)
    requires IsBank(b, OUT_REGS) && InRange(b, m) && InRange(b, n) && light < LIGHT_END && l < LIGHT_END
    ensures var r := WriteSignal(b, m, light, s);
            && IsBank(r, OUT_REGS) && |r| == |b|
            && LightOf(r, n, l) == (if n == m && l == light then Code(s) else LightOf(b, n, l))
            && WindowOf(r, n) == WindowOf(b, n)
  {
    if m / NUM_MACHINES == n / NUM_MACHINES && m % NUM_MACHINES == n % NUM_MACHINES {
      SameMachine(m, n);
    }
    SameLight(m % NUM_MACHINES, light, n % NUM_MACHINES, l);
    SetLightKeepsWindow(b, m, light, s, n);
    hide WindowOf;
  }

  lemma SetLightKeepsWindow(b: Bank, m: nat, light: nat, s: SignalState, n: nat)
    requires IsBank(b, OUT_REGS) && InRange(b, m) && InRange(b, n) && light < LIGHT_END
    ensures var r := WriteSignal(b, m, light, s);
            IsBank(r, OUT_REGS) && |r| == |b| && WindowOf(r, n) == WindowOf(b, n)
  {
    BelowWindows(m % NUM_MACHINES, light);
    var r := WriteSignal(b, m, light, s);
    assert forall i :: 48 <= i < OUT_REGS ==> r[n / NUM_MACHINES][i] == b[n / NUM_MACHINES][i];
  }

  // Registers of different machines, or of different lights, are different.
  lemma SameLight(i: nat, light: nat, j: nat, l: nat)
    requires light < 3 && l < 3
    ensures i * 3 + light == j * 3 + l <==> i == j && light == l
  {
  }

  lemma BelowWindows(i: nat, light: nat)
    requires i < NUM_MACHINES && light < 3
    ensures i * 3 + light < 48
  {
  }

  function WriteWindow(b: Bank, m: nat, w: seq<nat>): Bank
    requires IsBank(b, OUT_REGS) && InRange(b, m) && |w| == REG_PER_RFID
  {
    Write(b, m / NUM_MACHINES, RfidAddr(m), w)
  }

  ghost predicate Words(w: seq<nat>) {
    |w| == REG_PER_RFID && forall i :: 0 <= i < REG_PER_RFID ==> w[i] < WORD
  }

  /** Writing the window of one RFID writer changes exactly this window, and reaches no light. */
  lemma WriteWindowChangesOne(b: Bank, m: nat, w: seq<nat>, n: nat, l: nat)
    requires IsBank(b, OUT_REGS) && InRange(b, m) && InRange(b, n) && Words(w) && l < LIGHT_END
    ensures var r := WriteWindow(b, m, w);
            && IsBank(r, OUT_REGS) && |r| == |b|
            && LightOf(r, n, l) == LightOf(b, n, l)
            && WindowOf(r, n) == (if n == m then w else WindowOf(b, n))
  {
    if m / NUM_MACHINES == n / NUM_MACHINES && m % NUM_MACHINES == n % NUM_MACHINES {
      SameMachine(m, n);
    }
    var r := WriteWindow(b, m, w);
    forall i | 0 <= i < REG_PER_RFID
      ensures WindowOf(r, n)[i] == if n == m then w[i] else WindowOf(b, n)[i]
    {
    }
  }

  // The first k controllers with the 48 registers from address addr on set to zero.
  function Zeroed(b: Bank, k: nat, addr: nat): (r: Bank)
    requires IsBank(b, OUT_REGS) && k <= |b| && (addr == OUT_START_SIGNAL || addr == OUT_START_RFID)
    ensures IsBank(r, OUT_REGS) && |r| == |b|
  {
    if k == 0 then b else Write(Zeroed(b, k - 1, addr), k - 1, addr, Zeros())
  }

  function Zeros(): (z: seq<nat>)
    ensures |z| == REG_PER_SIGNAL * NUM_MACHINES == REG_PER_RFID * NUM_MACHINES
    ensures forall i :: 0 <= i < |z| ==> z[i] == 0
  {
    seq(REG_PER_SIGNAL * NUM_MACHINES, i => 0)
  }

  /** Resetting the lights turns off all lights of the controllers reached and nothing else; resetting the RFID
      registers clears their windows and nothing else. */
  lemma {:induction false} ResetsAreSeparate(b: Bank, k: nat, m: nat, l: nat)
    requires IsBank(b, OUT_REGS) && k <= |b| && InRange(b, m) && l < LIGHT_END
    ensures LightOf(Zeroed(b, k, OUT_START_SIGNAL), m, l) == if m / NUM_MACHINES < k then Code(SIGNAL_OFF) else LightOf(b, m, l)
    ensures WindowOf(Zeroed(b, k, OUT_START_SIGNAL), m) == WindowOf(b, m)
    ensures LightOf(Zeroed(b, k, OUT_START_RFID), m, l) == LightOf(b, m, l)
    ensures WindowOf(Zeroed(b, k, OUT_START_RFID), m) ==
            if m / NUM_MACHINES < k then [0, 0, 0] else WindowOf(b, m)
  {
    if k > 0 {
      ResetsAreSeparate(b, k - 1, m, l);
      ZeroOne(Zeroed(b, k - 1, OUT_START_SIGNAL), k - 1, m, l);
      ZeroOne(Zeroed(b, k - 1, OUT_START_RFID), k - 1, m, l);
    }
  }

  lemma ZeroOne(b: Bank, p: nat, m: nat, l: nat)
    requires IsBank(b, OUT_REGS) && p < |b| && InRange(b, m) && l < LIGHT_END
    ensures var r := Write(b, p, OUT_START_SIGNAL, Zeros());
            && IsBank(r, OUT_REGS) && WindowOf(r, m) == WindowOf(b, m)
            && LightOf(r, m, l) == if m / NUM_MACHINES == p then 0 else LightOf(b, m, l)
    ensures var r := Write(b, p, OUT_START_RFID, Zeros());
            && IsBank(r, OUT_REGS) && LightOf(r, m, l) == LightOf(b, m, l)
            && WindowOf(r, m) == if m / NUM_MACHINES == p then [0, 0, 0] else WindowOf(b, m)
  {
  }

  ghost predicate SameWindows(b: Bank, r: Bank) {
    && IsBank(b, OUT_REGS) && IsBank(r, OUT_REGS) && |r| == |b|
    && forall m :: InRange(b, m) ==> WindowOf(r, m) == WindowOf(b, m)
  }

  lemma SignalKeepsWindows(b: Bank, c: Bank, m: nat, light: nat, s: SignalState)
    requires SameWindows(b, c) && InRange(c, m) && light < LIGHT_END
    ensures SameWindows(b, WriteSignal(c, m, light, s))
  {
    forall n | InRange(b, n)
      ensures WindowOf(WriteSignal(c, m, light, s), n) == WindowOf(b, n)
    {
      SetLightChangesOne(c, m, light, s, n, 0);
    }
    SetLightChangesOne(c, m, light, s, m, 0);
  }

  lemma ResetKeepsWindows(b: Bank, c: Bank, k: nat)
    requires SameWindows(b, c) && k <= |c|
    ensures SameWindows(b, Zeroed(c, k, OUT_START_SIGNAL))
  {
    forall n | InRange(b, n)
      ensures WindowOf(Zeroed(c, k, OUT_START_SIGNAL), n) == WindowOf(b, n)
    {
      ResetsAreSeparate(c, k, n, 0);
    }
  }

  // The lights of machine m before light l are on.
  ghost predicate On(b: Bank, m: nat, l: nat)
    requires IsBank(b, OUT_REGS)
  {
    InRange(b, m) && l <= LIGHT_END && forall i :: 0 <= i < l ==> LightOf(b, m, i) == Code(SIGNAL_ON)
  }

  lemma OnStep(b: Bank, m: nat, light: nat)
    requires IsBank(b, OUT_REGS) && InRange(b, m) && light < LIGHT_END && On(b, m, light)
    ensures var r := WriteSignal(b, m, light, SIGNAL_ON);
            && IsBank(r, OUT_REGS) && On(r, m, light + 1)
            && forall n :: On(b, n, LIGHT_END) ==> On(r, n, LIGHT_END)
  {
    SetLightChangesOne(b, m, light, SIGNAL_ON, m, light);
    forall n, i | InRange(b, n) && 0 <= i < LIGHT_END
      ensures LightOf(WriteSignal(b, m, light, SIGNAL_ON), n, i) ==
              if n == m && i == light then Code(SIGNAL_ON) else LightOf(b, n, i)
    {
      SetLightChangesOne(b, m, light, SIGNAL_ON, n, i);
    }
  }

  // How far a series of exchanges got: all of those numbered from `from` to `to` were answered, or the last of
  // them was the first that was not.
  ghost predicate Ran(r: Answer, up: nat -> bool, from: nat, to: nat) {
    if r == Done then from <= to && forall i :: from <= i < to ==> up(i)
    else r == Unreachable && from < to && !up(to - 1) && forall i :: from <= i < to - 1 ==> up(i)
  }

  // The exchanges of n rounds.
  function Rounds(n: nat, each: nat): nat {
    if n == 0 then 0 else Rounds(n - 1, each) + each
  }

  lemma {:induction false} RoundsProduct(n: nat, each: nat)
    ensures Rounds(n, each) == n * each
  {
    if n > 0 {
      RoundsProduct(n - 1, each);
      assert n * each == (n - 1) * each + each;
    }
  }

  lemma {:induction false} FewerRounds(m: nat, n: nat, each: nat)
    requires m <= n
    ensures Rounds(m, each) <= Rounds(n, each)
    decreases n - m
  {
    if m < n {
      FewerRounds(m, n - 1, each);
    }
  }

  lemma RanOn(up: nat -> bool, from: nat, mid: nat, r: Answer, to: nat)
    requires Ran(Done, up, from, mid) && Ran(r, up, mid, to)
    ensures Ran(r, up, from, to)
  {
  }

  // The first exchange that is not answered, or n.
  function FirstDown(up: nat -> bool, n: nat, i: nat): (k: nat)
    requires i <= n
    ensures i <= k <= n && (k < n ==> !up(k)) && forall p :: i <= p < k ==> up(p)
    decreases n - i
  {
    if i < n && up(i) then FirstDown(up, n, i + 1) else i
  }

  // ---------------------------------------------------------------- puck ids

  predicate Bit(v: nat, mask: nat)
    requires mask > 0
  {
    v / mask % 2 == 1
  }

  function HighWord(id: nat): nat {
    id / WORD % WORD
  }

  function LowWord(id: nat): nat {
    id % WORD
  }

  function Combined(high: nat, low: nat): nat {
    high * WORD + low
  }

  /** Splitting a 32-bit id into two registers and recombining it is the identity, both ways. */
  lemma IdRoundTrip(id: nat, high: nat, low: nat)
    requires high < WORD && low < WORD
    ensures id <= 0xFFFF_FFFF ==> Combined(HighWord(id), LowWord(id)) == id
    ensures HighWord(id) < WORD && LowWord(id) < WORD
    ensures Combined(high, low) <= 0xFFFF_FFFF
    ensures HighWord(Combined(high, low)) == high && LowWord(Combined(high, low)) == low
  {
  }

  // The input registers of machine m.
  function ReaderOf(ins: Bank, m: nat): (w: seq<nat>)
    requires IsBank(ins, IN_REGS) && InRange(ins, m)
    ensures Words(w)
  {
    var at := m % NUM_MACHINES * REG_PER_RFID;
    ins[m / NUM_MACHINES][at..at + REG_PER_RFID]
  }

  function PuckAt(ins: Bank, m: nat): Option<nat>
    requires IsBank(ins, IN_REGS) && InRange(ins, m)
  {
    var w := ReaderOf(ins, m);
    if Bit(w[0], HAS_PUCK) then Some(Combined(w[1], w[2])) else None
  }

  /** The id that read_rfids reports for a machine: a puck with the id 0xFFFFFFFF reads like no puck. */
  lemma NoPuckAmbiguous(ins: Bank, m: nat)
    requires IsBank(ins, IN_REGS) && InRange(ins, m)
    ensures Reported(ins, m) == NO_PUCK <==> PuckAt(ins, m) == None || PuckAt(ins, m) == Some(NO_PUCK)
  {
  }

  function Reported(ins: Bank, m: nat): nat
    requires IsBank(ins, IN_REGS) && InRange(ins, m)
  {
    match PuckAt(ins, m)
    case Some(id) => id
    case None => NO_PUCK
  }

  // ---------------------------------------------------------------- register by register

  /** Setting a light writes one register of one controller: three registers per machine, 0 for off, 0x100 for on,
      0x200 for blinking. */
  lemma LightRegister(b: Bank, m: nat, light: nat, s: SignalState, plc: nat, i: nat)
    requires IsBank(b, OUT_REGS) && InRange(b, m) && light < 3 && plc < |b| && i < 96
    ensures var r := WriteSignal(b, m, light, s);
            && |r| == |b| && |r[plc]| == 96
            && r[plc][i] == if plc != m / 16 || i != m % 16 * 3 + light then b[plc][i]
                            else if s == SIGNAL_OFF then 0 else if s == SIGNAL_ON then 0x100 else 0x200
    ensures LightOf(b, m, light) == b[m / 16][m % 16 * 3 + light]
  {
  }

  /** The RFID windows follow the 48 registers of the lights. */
  lemma WindowRegisters(b: Bank, m: nat, w: seq<nat>, plc: nat, i: nat)
    requires IsBank(b, OUT_REGS) && InRange(b, m) && Words(w) && plc < |b| && i < 96
    ensures var r, at := WriteWindow(b, m, w), 48 + m % 16 * 3;
            && |r| == |b| && |r[plc]| == 96
            && r[plc][i] == if plc == m / 16 && at <= i < at + 3 then w[i - at] else b[plc][i]
    ensures WindowOf(b, m) == b[m / 16][48 + m % 16 * 3..][..3]
  {
  }

  lemma {:induction false} ResetRegisters(b: Bank, k: nat, plc: nat, i: nat)
    requires IsBank(b, OUT_REGS) && k <= |b| && plc < |b| && i < 96
    ensures Zeroed(b, k, OUT_START_SIGNAL)[plc][i] == if plc < k && i < 48 then 0 else b[plc][i]
    ensures Zeroed(b, k, OUT_START_RFID)[plc][i] == if plc < k && i >= 48 then 0 else b[plc][i]
  {
    if k > 0 {
      ResetRegisters(b, k - 1, plc, i);
    }
  }

  // The binary digits of the status registers: 0x100 and 0x200.
  lemma StatusDigits(high: nat, digit: nat, low: nat)
    requires digit < 2
    ensures low < 0x100 ==> (Bit(high * 0x200 + digit * 0x100 + low, HAS_PUCK) <==> digit == 1)
    ensures low < 0x200 ==> (Bit(high * 0x400 + digit * 0x200 + low, WRITE_DONE) <==> digit == 1)
  {
    var q := high * 2 + digit;
    EvenAndDigit(high, digit);
    assert high * 0x200 + digit * 0x100 + low == q * 0x100 + low && high * 0x400 + digit * 0x200 + low == q * 0x200 + low;
    if low < 0x100 {
      Quotient256(q, low);
    }
    if low < 0x200 {
      Quotient512(q, low);
    }
  }

  lemma EvenAndDigit(high: nat, digit: nat)
    requires digit < 2
    ensures (high * 2 + digit) % 2 == digit
  {
  }

  lemma Quotient256(q: nat, low: nat)
    requires low < 0x100
    ensures (q * 0x100 + low) / 0x100 == q
  {
  }

  lemma Quotient512(q: nat, low: nat)
    requires low < 0x200
    ensures (q * 0x200 + low) / 0x200 == q
  {
  }

  /** A reader has three registers: its first one, high * 0x200 + digit * 0x100 + low, tells whether there is a puck,
      the other two are the high and the low word of its id. */
  lemma PuckRegisters(ins: Bank, m: nat, high: nat, digit: nat, low: nat)
    requires IsBank(ins, IN_REGS) && InRange(ins, m) && digit < 2 && low < 0x100
    requires ins[m / 16][m % 16 * 3] == high * 0x200 + digit * 0x100 + low
    ensures var id := ins[m / 16][m % 16 * 3 + 1] * 0x1_0000 + ins[m / 16][m % 16 * 3 + 2];
            && PuckAt(ins, m) == (if digit == 0 then None else Some(id))
            && Reported(ins, m) == if digit == 0 then 0xFFFF_FFFF else id
  {
    StatusDigits(high, digit, low);
    hide Bit;
  }

  // ---------------------------------------------------------------- waiting for the writer

  // The poll that ends the wait: the first one that fails or reports that the write is done.
  predicate Ends(polled: nat -> nat, up: nat -> bool, i: nat) {
    !up(i + 1) || Bit(polled(i), WRITE_DONE)
  }

  // The first poll before number n that ends the wait, or n.
  function LastPoll(polled: nat -> nat, up: nat -> bool, i: nat, n: nat): (k: nat)
    requires i <= n
    ensures i <= k <= n && (k < n ==> Ends(polled, up, k)) && forall j :: i <= j < k ==> !Ends(polled, up, j)
    decreases n - i
  {
    if i == n || Ends(polled, up, i) then i else LastPoll(polled, up, i + 1, n)
  }

  /** Polling goes on as long as the controller answers and the digit 0x200 of the status register is zero. */
  lemma PollGoesOn(polled: nat -> nat, up: nat -> bool, i: nat, high: nat, digit: nat, low: nat)
    requires digit < 2 && low < 0x200 && polled(i) == high * 0x400 + digit * 0x200 + low
    ensures LastPoll(polled, up, i, i + 1) == if up(i + 1) && digit == 0 then i + 1 else i
  {
    StatusDigits(high, digit, low);
    hide Bit;
  }

  // ---------------------------------------------------------------- the operations

  class SPSComm {
    var outs: Bank
    var ins: Bank
    // The blocks of registers written so far, with the machine they belong to.
    ghost var written: seq<(nat, seq<nat>)>

    ghost predicate Valid()
      reads this
    {
      IsBank(outs, OUT_REGS) && IsBank(ins, IN_REGS) && |outs| == |ins|
    }

    // The number of machines over all controllers.
    function Machines(): nat
      reads this
    {
      |outs| * NUM_MACHINES
    }

    // plc_index: the controller of machine m, and m relative to it.
    method PlcIndex(m: nat) returns (found: bool, plc: nat, local: nat)
      ensures found <==> InRange(outs, m)
      ensures found ==> plc == m / NUM_MACHINES < |outs| && local == m % NUM_MACHINES
    {
      plc := m / 16;
      found := plc < |outs|;
      local := if found then m - plc * NUM_MACHINES else m;
    }

    // up tells whether the controller answers.
    method SetLight(m: nat, light: int, state: SignalState, up: bool) returns (r: Answer)
      requires Valid()
      modifies this`outs
      ensures Valid() && |outs| == |old(outs)|
      ensures r == if !(LIGHT_BEGIN <= light < LIGHT_END) then LightOutOfBounds
                   else if !InRange(old(outs), m) then MachineOutOfBounds
                   else if !up then Unreachable else Done
      ensures outs == if r == Done then WriteSignal(old(outs), m, light, state) else old(outs)
    {
      if light < LIGHT_RED || light > LIGHT_GREEN {
        return LightOutOfBounds;
      }
      var found, plc, local := PlcIndex(m);
      if !found {
        return MachineOutOfBounds;
      }
      // The source's further test for local > 16 cannot succeed.
      assert local < NUM_MACHINES;
      var stateValue := 0;
      if state == SIGNAL_ON {
        stateValue := 1;
      } else if state == SIGNAL_BLINK {
        stateValue := 2;
      }
      if !up {
        return Unreachable;
      }
      outs := Write(outs, plc, OUT_START_SIGNAL + local * REG_PER_SIGNAL + light, [stateValue * 0x100]);
      r := Done;
    }

    method ResetLights(up: nat -> bool) returns (r: Answer)
      requires Valid()
      modifies this`outs
      ensures Valid() && |outs| == |old(outs)|
      ensures outs == Zeroed(old(outs), FirstDown(up, |outs|, 0), OUT_START_SIGNAL)
      ensures r == if FirstDown(up, |outs|, 0) < |outs| then Unreachable else Done
    {
      r := Zero(OUT_START_SIGNAL, up);
    }

    method ResetRfids(up: nat -> bool) returns (r: Answer)
      requires Valid()
      modifies this`outs
      ensures Valid() && |outs| == |old(outs)|
      ensures outs == Zeroed(old(outs), FirstDown(up, |outs|, 0), OUT_START_RFID)
      ensures r == if FirstDown(up, |outs|, 0) < |outs| then Unreachable else Done
    {
      r := Zero(OUT_START_RFID, up);
    }

    // One controller after the other, until one does not answer.
    method Zero(addr: nat, up: nat -> bool) returns (r: Answer)
      requires Valid() && (addr == OUT_START_SIGNAL || addr == OUT_START_RFID)
      modifies this`outs
      ensures Valid() && |outs| == |old(outs)|
      ensures outs == Zeroed(old(outs), FirstDown(up, |outs|, 0), addr)
      ensures r == if FirstDown(up, |outs|, 0) < |outs| then Unreachable else Done
    {
      var p := 0;
      while p < |outs|
        invariant p <= |outs| == |old(outs)| && outs == Zeroed(old(outs), p, addr)
        invariant FirstDown(up, |outs|, p) == FirstDown(up, |outs|, 0)
      {
        if !up(p) {
          return Unreachable;
        }
        outs := Write(outs, p, addr, Zeros());
        p := p + 1;
      }
      r := Done;
    }

    // The loop nests of the light test that set all lights of all machines. The exchanges of the light test are
    // numbered: the first one is number `from`, and `to` is the number of the next one.
    method SetAll(state: SignalState, up: nat -> bool, from: nat, ghost start: Bank) returns (r: Answer, to: nat)
      requires Valid() && SameWindows(start, outs)
      modifies this`outs
      ensures Valid() && SameWindows(start, outs) && Ran(r, up, from, to)
      ensures to <= from + 48 * |outs| && (r == Done ==> to == from + 48 * |outs|)
    {
      hide WriteSignal, WindowOf, On;
      r, to := Done, from;
      var m := 0;
      while m < Machines()
        invariant Valid() && SameWindows(start, outs) && m <= Machines()
        invariant r == Done && Ran(r, up, from, to) && to == from + 3 * m
      {
        var mid := to;
        r, to := SetMachine(m, state, up, mid, start);
        RanOn(up, from, mid, r, to);
        if r != Done {
          return;
        }
        m := m + 1;
      }
    }

    method SetMachine(m: nat, state: SignalState, up: nat -> bool, from: nat, ghost start: Bank)
      returns (r: Answer, to: nat)
      requires Valid() && SameWindows(start, outs) && InRange(outs, m)
      modifies this`outs
      ensures Valid() && SameWindows(start, outs) && Ran(r, up, from, to)
      ensures to <= from + 3 && (r == Done ==> to == from + 3)
      ensures r == Done && state == SIGNAL_ON ==> On(outs, m, LIGHT_END)
      ensures state == SIGNAL_ON ==> forall n :: On(old(outs), n, LIGHT_END) ==> On(outs, n, LIGHT_END)
    {
      hide WriteSignal, WindowOf;
      r, to := Done, from;
      var l := LIGHT_BEGIN;
      while l < LIGHT_END
        invariant Valid() && SameWindows(start, outs) && InRange(outs, m) && 0 <= l <= LIGHT_END
        invariant r == Done && Ran(r, up, from, to) && to == from + l
        invariant state == SIGNAL_ON ==> On(outs, m, l)
        invariant state == SIGNAL_ON ==> forall n :: On(old(outs), n, LIGHT_END) ==> On(outs, n, LIGHT_END)
      {
        SignalKeepsWindows(start, outs, m, l, state);
        if state == SIGNAL_ON {
          OnStep(outs, m, l);
        }
        r := SetLight(m, l, state, up(to));
        to := to + 1;
        if r != Done {
          return;
        }
        l := l + 1;
      }
    }

    // One round of the light test: all lights off, then one colour on everywhere.
    method OneColor(light: int, up: nat -> bool, from: nat, ghost start: Bank) returns (r: Answer, to: nat)
      requires Valid() && SameWindows(start, outs) && LIGHT_BEGIN <= light < LIGHT_END
      modifies this`outs
      ensures Valid() && SameWindows(start, outs) && Ran(r, up, from, to)
      ensures to <= from + 17 * |outs| && (r == Done ==> to == from + 17 * |outs|)
    {
      hide WriteSignal, WindowOf, Zeroed;
      var later := (i: nat) => up(from + i);
      var down := FirstDown(later, |outs|, 0);
      ResetKeepsWindows(start, outs, down);
      r := ResetLights(later);
      RanReset(up, from, down, |outs|);
      to := from + down;
      if r != Done {
        to := to + 1;
        return;
      }
      var m := 0;
      while m < Machines()
        invariant Valid() && SameWindows(start, outs) && m <= Machines()
        invariant r == Done && Ran(r, up, from, to) && to == from + |outs| + m
      {
        SignalKeepsWindows(start, outs, m, light, SIGNAL_ON);
        r := SetLight(m, light, SIGNAL_ON, up(to));
        to := to + 1;
        if r != Done {
          return;
        }
        m := m + 1;
      }
    }

    // The closing loop nest of the light test: the machines of all controllers side by side.
    method SetAllSideBySide(up: nat -> bool, from: nat, ghost start: Bank) returns (r: Answer, to: nat)
      requires Valid() && SameWindows(start, outs)
      modifies this`outs
      ensures Valid() && SameWindows(start, outs) && Ran(r, up, from, to)
      ensures to <= from + 48 * |outs| && (r == Done ==> to == from + 48 * |outs|)
      ensures r == Done ==> forall n :: InRange(outs, n) ==> On(outs, n, LIGHT_END)
    {
      hide WriteSignal, WindowOf, On, Ran;
      r, to := Done, from;
      RanNothing(up, from);
      RoundsProduct(NUM_MACHINES, 3 * |outs|);
      var m := 0;
      while m < NUM_MACHINES
        invariant Valid() && SameWindows(start, outs) && m <= NUM_MACHINES
        invariant r == Done && Ran(r, up, from, to) && to == from + Rounds(m, 3 * |outs|)
        invariant forall n: nat :: InRange(outs, n) && n % NUM_MACHINES < m ==> On(outs, n, LIGHT_END)
      {
        FewerRounds(m + 1, NUM_MACHINES, 3 * |outs|);
        r, to := SetColumn(m, up, from, to, start);
        if r != Done {
          return;
        }
        m := m + 1;
      }
    }

    // One machine of every controller.
    method SetColumn(m: nat, up: nat -> bool, ghost from: nat, at: nat, ghost start: Bank) returns (r: Answer, to: nat)
      requires Valid() && SameWindows(start, outs) && m < NUM_MACHINES && Ran(Done, up, from, at)
      modifies this`outs
      ensures Valid() && SameWindows(start, outs) && Ran(r, up, from, to)
      ensures to <= at + 3 * |outs| && (r == Done ==> to == at + 3 * |outs|)
      ensures forall n :: On(old(outs), n, LIGHT_END) ==> On(outs, n, LIGHT_END)
      ensures r == Done ==> forall n: nat :: InRange(outs, n) && n % NUM_MACHINES == m ==> On(outs, n, LIGHT_END)
    {
      hide WriteSignal, WindowOf, On;
      r, to := Done, at;
      var p := 0;
      while p < |outs|
        invariant Valid() && SameWindows(start, outs) && p <= |outs|
        invariant r == Done && Ran(r, up, from, to) && to == at + 3 * p
        invariant forall n :: On(old(outs), n, LIGHT_END) ==> On(outs, n, LIGHT_END)
        invariant forall n: nat :: InRange(outs, n) && n % NUM_MACHINES == m && n / NUM_MACHINES < p ==> On(outs, n, LIGHT_END)
      {
        MachineOf(p, m);
        var mid := to;
        r, to := SetMachine(p * NUM_MACHINES + m, SIGNAL_ON, up, mid, start);
        RanOn(up, from, mid, r, to);
        if r != Done {
          return;
        }
        forall n: nat | InRange(outs, n) && n % NUM_MACHINES == m && n / NUM_MACHINES == p
          ensures On(outs, n, LIGHT_END)
        {
          SameMachine(n, p * NUM_MACHINES + m);
        }
        p := p + 1;
      }
    }

    /** test_lights: up tells for every exchange of the test whether the controller answers. The test stops at the
        first one that is not answered; when all are, all lights of all machines are on at the end. The RFID
        windows are never touched. */
    method TestLights(up: nat -> bool) returns (r: Answer, exchanges: nat)
      requires Valid()
      modifies this`outs
      ensures Valid() && SameWindows(old(outs), outs) && Ran(r, up, 0, exchanges)
      ensures exchanges <= 243 * |outs| && (r == Done ==> exchanges == 243 * |outs|)
      ensures r == Done ==> forall m, l :: InRange(outs, m) && 0 <= l < LIGHT_END ==> LightOf(outs, m, l) == 0x100
    {
      hide WindowOf, WriteSignal, Ran, SameWindows, On;
      var mid;
      WindowsKept(outs);
      r, exchanges := SetAll(SIGNAL_BLINK, up, 0, outs);
      if r != Done {
        return;
      }
      mid := exchanges;
      r, exchanges := SetAll(SIGNAL_ON, up, mid, old(outs));
      RanOn(up, 0, mid, r, exchanges);
      SameNumber(old(outs), outs);
      if r != Done {
        return;
      }
      RoundsProduct(LIGHT_END, 17 * |outs|);
      var l := LIGHT_BEGIN;
      while l < LIGHT_END
        invariant Valid() && SameWindows(old(outs), outs) && r == Done && 0 <= l <= LIGHT_END
        invariant Ran(r, up, 0, exchanges) && exchanges == 96 * |outs| + Rounds(l, 17 * |outs|) && |outs| == |old(outs)|
      {
        FewerRounds(l + 1, LIGHT_END, 17 * |outs|);
        mid := exchanges;
        r, exchanges := OneColor(l, up, mid, old(outs));
        RanOn(up, 0, mid, r, exchanges);
        SameNumber(old(outs), outs);
        if r != Done {
          return;
        }
        l := l + 1;
      }
      mid := exchanges;
      r, exchanges := SetAll(SIGNAL_OFF, up, mid, old(outs));
      RanOn(up, 0, mid, r, exchanges);
      SameNumber(old(outs), outs);
      if r != Done {
        return;
      }
      mid := exchanges;
      r, exchanges := SetAllSideBySide(up, mid, old(outs));
      RanOn(up, 0, mid, r, exchanges);
      SameNumber(old(outs), outs);
      AllOn(outs);
    }

    // read_rfid: id is meaningful when found.
    method ReadRfid(m: nat, up: bool) returns (r: Answer, found: bool, id: nat)
      requires Valid()
      ensures r == if !InRange(ins, m) then MachineOutOfBounds else if !up then Unreachable else Done
      ensures r == Done ==> PuckAt(ins, m) == if found then Some(id) else None
    {
      found, id := false, 0;
      var inRange, plc, local := PlcIndex(m);
      if !inRange {
        return MachineOutOfBounds, found, id;
      }
      if !up {
        return Unreachable, found, id;
      }
      r := Done;
      var regs := ins[plc][local * REG_PER_RFID..local * REG_PER_RFID + REG_PER_RFID];
      if Bit(regs[0], HAS_PUCK) {
        found, id := true, Combined(regs[1], regs[2]);
      }
    }

    // read_rfids: one entry for every machine.
    method ReadRfids(up: nat -> bool) returns (r: Answer, rv: seq<nat>)
      requires Valid()
      ensures r == Done <==> forall p :: 0 <= p < |ins| ==> up(p)
      ensures r == Done ==> |rv| == Machines() && forall m :: 0 <= m < |rv| ==> InRange(ins, m) && rv[m] == Reported(ins, m)
    {
      rv := seq(Machines(), i => NO_PUCK);
      var p := 0;
      while p < |outs|
        invariant p <= |outs| && |rv| == Machines() && forall q :: 0 <= q < p ==> up(q)
        invariant forall m :: 0 <= m < p * NUM_MACHINES ==> rv[m] == Reported(ins, m)
        invariant forall m :: p * NUM_MACHINES <= m < |rv| ==> rv[m] == NO_PUCK
      {
        if !up(p) {
          return Unreachable, rv;
        }
        var i := 0;
        while i < NUM_MACHINES
          invariant i <= NUM_MACHINES && |rv| == Machines()
          invariant forall m :: 0 <= m < p * NUM_MACHINES + i ==> rv[m] == Reported(ins, m)
          invariant forall m :: p * NUM_MACHINES + i <= m < |rv| ==> rv[m] == NO_PUCK
        {
          ReaderAt(ins, p, i);
          ghost var w := ReaderOf(ins, p * NUM_MACHINES + i);
          assert w[0] == ins[p][i * REG_PER_RFID] && w[1] == ins[p][i * REG_PER_RFID + 1] && w[2] == ins[p][i * REG_PER_RFID + 2];
          var regs := ins[p];
          if Bit(regs[i * REG_PER_RFID], HAS_PUCK) {
            rv := rv[p * NUM_MACHINES + i := Combined(regs[i * REG_PER_RFID + 1], regs[i * REG_PER_RFID + 2])];
          }
          i := i + 1;
        }
        p := p + 1;
      }
      r := Done;
    }

    // write_rfid: offer the id, wait until the field controller reports that it is written, take the offer
    // back. up tells for each exchange whether the controller answers; polled is the status register that
    // each poll reads. The source polls as long as it takes; this is its state after at most `patience` polls.
    method WriteRfid(m: nat, id: nat, polled: nat -> nat, up: nat -> bool, patience: nat)
      returns (r: Answer, polls: nat)
      requires Valid() && id <= 0xFFFF_FFFF
      modifies this`outs, this`written
      ensures Valid() && |outs| == |old(outs)|
      ensures !InRange(old(outs), m) ==> r == MachineOutOfBounds && outs == old(outs) && written == old(written)
      ensures InRange(old(outs), m) && !up(0) ==> r == Unreachable && outs == old(outs) && written == old(written)
      ensures InRange(old(outs), m) && up(0) ==>
                var last := LastPoll(polled, up, 0, patience);
                var offer := [0x100, id / 0x1_0000, id % 0x1_0000];
                && polls == (if last < patience then last + 1 else patience)
                && (r == Waiting <==> last == patience)
                && (r == Done <==> last < patience && up(last + 1) && up(last + 2))
                && (r != Done ==> r in {Unreachable, Waiting} && outs == WriteWindow(old(outs), m, offer)
                                  && written == old(written) + [(m, offer)])
                && (r == Done ==> outs == WriteWindow(old(outs), m, [0x200, 0, 0])
                                  && written == old(written) + [(m, offer), (m, [0x200, 0, 0])])
    {
      hide WriteWindow, LastPoll, Ends;
      polls := 0;
      var found, plc, local := PlcIndex(m);
      if !found {
        return MachineOutOfBounds, polls;
      }
      if !up(0) {
        return Unreachable, polls;
      }
      ghost var offer := [WRITE_PUCK_ID, HighWord(id), LowWord(id)];
      WriteTwice(outs, m, offer, [RESET_WRITE, 0, 0]);
      PutWindow(m, plc, local, [WRITE_PUCK_ID, id / WORD % WORD, id % WORD]);
      r, polls := AwaitWrite(polled, up, patience);
      if r == Done && !up(polls + 1) {
        r := Unreachable;
      }
      if r == Done {
        PutWindow(m, plc, local, [RESET_WRITE, 0, 0]);
      }
    }

    method PutWindow(m: nat, plc: nat, local: nat, w: seq<nat>)
      requires Valid() && InRange(outs, m) && plc == m / NUM_MACHINES && local == m % NUM_MACHINES && Words(w)
      modifies this`outs, this`written
      ensures Valid() && outs == WriteWindow(old(outs), m, w) && |outs| == |old(outs)|
      ensures written == old(written) + [(m, w)]
    {
      WriteWindowChangesOne(outs, m, w, m, 0);
      outs := Write(outs, plc, OUT_START_RFID + local * REG_PER_RFID, w);
      written := written + [(m, w)];
    }

    // The polling loop.
    method AwaitWrite(polled: nat -> nat, up: nat -> bool, patience: nat) returns (r: Answer, polls: nat)
      ensures var last := LastPoll(polled, up, 0, patience);
              if last == patience then r == Waiting && polls == patience
              else polls == last + 1 && r == if up(polls) then Done else Unreachable
    {
      polls := 0;
      while polls < patience
        invariant polls <= patience && LastPoll(polled, up, polls, patience) == LastPoll(polled, up, 0, patience)
      {
        polls := polls + 1;
        if !up(polls) {
          return Unreachable, polls;
        }
        if Bit(polled(polls - 1), WRITE_DONE) {
          return Done, polls;
        }
      }
      r := Waiting;
    }
  }

  // The later of two writes to a window is the one that stays.
  lemma WriteTwice(b: Bank, m: nat, v: seq<nat>, w: seq<nat>)
    requires IsBank(b, OUT_REGS) && InRange(b, m) && Words(v) && Words(w)
    ensures IsBank(WriteWindow(b, m, v), OUT_REGS)
    ensures WriteWindow(WriteWindow(b, m, v), m, w) == WriteWindow(b, m, w)
  {
    WriteWindowChangesOne(b, m, v, m, 0);
    var p := m / NUM_MACHINES;
    var r, s := WriteWindow(WriteWindow(b, m, v), m, w), WriteWindow(b, m, w);
    assert r[p] == s[p];
    assert r == s;
  }

  lemma ReaderAt(ins: Bank, p: nat, i: nat)
    requires IsBank(ins, IN_REGS) && p < |ins| && i < NUM_MACHINES
    ensures var w := ReaderOf(ins, p * NUM_MACHINES + i);
            forall j :: 0 <= j < REG_PER_RFID ==> w[j] == ins[p][i * REG_PER_RFID + j]
  {
    MachineOf(p, i);
  }

  lemma MachineOf(p: nat, i: nat)
    requires i < NUM_MACHINES
    ensures (p * NUM_MACHINES + i) / NUM_MACHINES == p && (p * NUM_MACHINES + i) % NUM_MACHINES == i
  {
  }

  lemma WindowsKept(b: Bank)
    requires IsBank(b, OUT_REGS)
    ensures SameWindows(b, b)
  {
  }

  lemma SameNumber(b: Bank, r: Bank)
    requires SameWindows(b, r)
    ensures |r| == |b|
  {
  }

  lemma AllOn(b: Bank)
    requires IsBank(b, OUT_REGS)
    ensures (forall n :: InRange(b, n) ==> On(b, n, LIGHT_END)) ==>
              forall m, l :: InRange(b, m) && 0 <= l < LIGHT_END ==> LightOf(b, m, l) == Code(SIGNAL_ON)
  {
  }

  lemma RanNothing(up: nat -> bool, from: nat)
    ensures Ran(Done, up, from, from)
  {
  }

  lemma RanReset(up: nat -> bool, from: nat, down: nat, n: nat)
    requires down == FirstDown((i: nat) => up(from + i), n, 0)
    ensures if down < n then Ran(Unreachable, up, from, from + down + 1) else Ran(Done, up, from, from + n)
  {
    var later := (i: nat) => up(from + i);
    assert down < n ==> !later(down);
    forall j | from <= j < from + down
      ensures up(j)
    {
      assert later(j - from);
    }
  }
}
