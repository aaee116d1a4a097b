/** The aspect manager: initializers per aspect, the live threads per aspect, initialisation with rollback.
    What the initializers do is a parameter; which of them are called, and in which order, is recorded. */
module AspectManager {
  import opened Basics

  // A thread and the aspects it was built with.
  datatype Thread = Thread(id: nat, aspects: seq<string>)

  datatype Call = InitCall(aspect: string, thread: Thread) | FinalizeCall(aspect: string, thread: Thread)
                | PrepareCall(aspect: string, thread: Thread)

  /** Initializers and finalizers by aspect name, the threads that are alive under each aspect, the default
      initializers, and the calls made so far. */
  datatype Registry = Registry(
    inifins: map<string, nat>,
    threads: map<string, seq<Thread>>,
    defaults: map<string, nat>,
    calls: seq<Call>)

  // Foreign: an exception that is not derived from the project's own exception class.
  datatype Effect = Fine | Throws | Foreign

  /** How the initializer of the aspect at each position behaves in one call of the manager. */
  datatype Behaviour = Behaviour(init: nat -> Effect, undo: nat -> bool, finalize: nat -> bool, prepare: nat -> Ready)

  datatype Ready = Prepared | NotYet | PrepareThrows

  datatype Answer =
    | Done
    | Refused
    | NoInitializer(aspect: string)
    | NoFinalizer(aspect: string)
    | CannotInitialize
    | AlreadyRegistered
    | NotRegistered
    | StillAlive
    | Raised

  // ---------------------------------------------------------------- live threads

  function Alive(threads: map<string, seq<Thread>>, a: string): seq<Thread> {
    if a in threads then threads[a] else []
  }

  // The list without any occurrence of t.
  function Without(ts: seq<Thread>, t: Thread): (r: seq<Thread>)
    ensures forall u :: u in r <==> u in ts && u != t
  {
    if ts == [] then [] else (if ts[0] == t then [] else [ts[0]]) + Without(ts[1..], t)
  }

  function Enlist(threads: map<string, seq<Thread>>, t: Thread, n: nat): map<string, seq<Thread>>
    requires n <= |t.aspects|
  {
    if n == 0 then threads
    else
      var m, a := Enlist(threads, t, n - 1), t.aspects[n - 1];
      m[a := Alive(m, a) + [t]]
  }

  function Delist(threads: map<string, seq<Thread>>, t: Thread, n: nat): map<string, seq<Thread>>
    requires n <= |t.aspects|
  {
    if n == 0 then threads
    else
      var m, a := Delist(threads, t, n - 1), t.aspects[n - 1];
      m[a := Without(Alive(m, a), t)]
  }

  lemma AliveUpdate(threads: map<string, seq<Thread>>, t: Thread, n: nat, ts: seq<Thread>, a: string)
    requires 0 < n <= |t.aspects|
    ensures var b := t.aspects[n - 1];
            && Alive(threads[b := ts], a) == (if a == b then ts else Alive(threads, a))
            && (a in t.aspects[..n] <==> a in t.aspects[..n - 1] || a == b)
  {
    assert t.aspects[..n] == t.aspects[..n - 1] + [t.aspects[n - 1]];
  }

  lemma {:induction false} EnlistAlive(threads: map<string, seq<Thread>>, t: Thread, n: nat, a: string, u: Thread)
    requires n <= |t.aspects|
    ensures u in Alive(Enlist(threads, t, n), a) <==> u in Alive(threads, a) || (u == t && a in t.aspects[..n])
  {
    hide Alive;
    if n > 0 {
      EnlistAlive(threads, t, n - 1, a, u);
      var m := Enlist(threads, t, n - 1);
      AliveUpdate(m, t, n, Alive(m, t.aspects[n - 1]) + [t], a);
    }
  }

  lemma {:induction false} DelistAlive(threads: map<string, seq<Thread>>, t: Thread, n: nat, a: string, u: Thread)
    requires n <= |t.aspects|
    ensures u in Alive(Delist(threads, t, n), a) <==> u in Alive(threads, a) && !(u == t && a in t.aspects[..n])
  {
    hide Alive;
    if n > 0 {
      DelistAlive(threads, t, n - 1, a, u);
      var m := Delist(threads, t, n - 1);
      AliveUpdate(m, t, n, Without(Alive(m, t.aspects[n - 1]), t), a);
    }
  }

  // ---------------------------------------------------------------- the operations as functions

  // Why initialisation stops at position i, if it does.
  predicate StopsInit(r: Registry, t: Thread, w: Behaviour, i: nat)
    requires i < |t.aspects|
  {
    t.aspects[i] !in r.inifins || w.init(i) != Fine
  }

  function InitStop(r: Registry, t: Thread, w: Behaviour, i: nat): (n: nat)
    requires i <= |t.aspects|
    ensures i <= n <= |t.aspects|
    decreases |t.aspects| - i
  {
    if i == |t.aspects| || StopsInit(r, t, w, i) then i else InitStop(r, t, w, i + 1)
  }

  // The calls for the positions before n, in order.
  function InitCalls(t: Thread, n: nat): (cs: seq<Call>)
    requires n <= |t.aspects|
    ensures |cs| == n && forall i :: 0 <= i < n ==> cs[i] == InitCall(t.aspects[i], t)
  {
    seq(n, i requires 0 <= i < n => InitCall(t.aspects[i], t))
  }

  // The calls of the rollback, from position n - 1 down to the first that throws.
  function UndoCalls(t: Thread, w: Behaviour, n: nat): seq<Call>
    requires n <= |t.aspects|
  {
    if n == 0 then []
    else [FinalizeCall(t.aspects[n - 1], t)] + if w.undo(n - 1) then UndoCalls(t, w, n - 1) else []
  }

  lemma UndoStep(t: Thread, w: Behaviour, i: nat)
    requires i <= |t.aspects|
    ensures UndoCalls(t, w, 0) == []
    ensures i < |t.aspects| ==>
              UndoCalls(t, w, i + 1) ==
                if w.undo(i) then [FinalizeCall(t.aspects[i], t)] + UndoCalls(t, w, i) else [FinalizeCall(t.aspects[i], t)]
  {
  }

  predicate Undone(w: Behaviour, n: nat) {
    forall i :: 0 <= i < n ==> w.undo(i)
  }

  function InitResult(r: Registry, t: Thread, w: Behaviour): (Registry, Answer) {
    var n := InitStop(r, t, w, 0);
    if n == |t.aspects| then
      (r.(threads := Enlist(r.threads, t, n), calls := r.calls + InitCalls(t, n)), Done)
    else if t.aspects[n] !in r.inifins then
      (r.(calls := r.calls + InitCalls(t, n) + UndoCalls(t, w, n)),
       if Undone(w, n) then NoInitializer(t.aspects[n]) else Raised)
    else if w.init(n) == Foreign then
      (r.(calls := r.calls + InitCalls(t, n + 1)), Raised)
    else
      (r.(calls := r.calls + InitCalls(t, n + 1) + UndoCalls(t, w, n)),
       if Undone(w, n) then CannotInitialize else Raised)
  }

  function FinalizeFrom(r: Registry, t: Thread, w: Behaviour, i: nat): (Registry, Answer)
    requires i <= |t.aspects|
    decreases |t.aspects| - i
  {
    if i == |t.aspects| then (r.(threads := Delist(r.threads, t, i)), Done)
    else if t.aspects[i] !in r.inifins then (r, NoFinalizer(t.aspects[i]))
    else
      var r1 := r.(calls := r.calls + [FinalizeCall(t.aspects[i], t)]);
      if w.finalize(i) then FinalizeFrom(r1, t, w, i + 1) else (r1, Raised)
  }

  function FinalizeResult(r: Registry, t: Thread, w: Behaviour): (Registry, Answer) {
    FinalizeFrom(r, t, w, 0)
  }

  function PrepareFrom(r: Registry, t: Thread, w: Behaviour, i: nat): (Registry, Answer)
    requires i <= |t.aspects|
    decreases |t.aspects| - i
  {
    if i == |t.aspects| then (r, Done)
    else if t.aspects[i] !in r.inifins then (r, NoFinalizer(t.aspects[i]))
    else
      var r1 := r.(calls := r.calls + [PrepareCall(t.aspects[i], t)]);
      match w.prepare(i)
      case Prepared => PrepareFrom(r1, t, w, i + 1)
      case NotYet => (r1, Refused)
      case PrepareThrows => (r1, Raised)
  }

  function PrepareResult(r: Registry, t: Thread, w: Behaviour): (Registry, Answer) {
    PrepareFrom(r, t, w, 0)
  }

  function Register(r: Registry, a: string, f: nat): (Registry, Answer) {
    if a in r.inifins then (r, AlreadyRegistered) else (r.(inifins := r.inifins[a := f]), Done)
  }

  function Unregister(r: Registry, a: string): (Registry, Answer) {
    if a !in r.inifins then (r, NotRegistered)
    else if Alive(r.threads, a) != [] then (r, StillAlive)
    else (r.(inifins := r.inifins - {a}, threads := r.threads - {a}), Done)
  }

  function RegisterDefaults(r: Registry, defaults: map<string, nat>): Registry {
    if r.defaults != map[] then r else r.(defaults := defaults, inifins := r.inifins + defaults)
  }

  // ---------------------------------------------------------------- the manager

  class Manager {
    var inifins: map<string, nat>
    var threads: map<string, seq<Thread>>
    var defaultInifins: map<string, nat>
    ghost var calls: seq<Call>

    ghost function State(): Registry
      reads this
    {
      Registry(inifins, threads, defaultInifins, calls)
    }

    constructor ()
      ensures State() == Registry(map[], map[], map[], [])
    {
      inifins, threads, defaultInifins, calls := map[], map[], map[], [];
    }

    method RegisterInifin(a: string, f: nat) returns (ans: Answer)
      modifies this
      ensures (State(), ans) == Register(old(State()), a, f)
    {
      if a in inifins {
        return AlreadyRegistered;
      }
      inifins := inifins[a := f];
      ans := Done;
    }

    // The look-up of the live threads may add an empty list to the map before it is taken out again.
    method UnregisterInifin(a: string) returns (ans: Answer)
      modifies this
      ensures (State(), ans) == Unregister(old(State()), a)
    {
      if a !in inifins {
        return NotRegistered;
      }
      if a !in threads {
        threads := threads[a := []];
      }
      if threads[a] != [] {
        return StillAlive;
      }
      inifins := inifins - {a};
      threads := threads - {a};
      assert threads == old(threads) - {a};
      ans := Done;
    }

    method HasThreadsForAspect(a: string) returns (b: bool)
      ensures b <==> Alive(threads, a) != []
    {
      b := a in threads && threads[a] != [];
    }

    method RegisterDefaultInifins(defaults: map<string, nat>)
      modifies this
      ensures State() == RegisterDefaults(old(State()), defaults)
    {
      if defaultInifins != map[] {
        return;
      }
      defaultInifins := defaults;
      inifins := inifins + defaultInifins;
    }

    // The rollback, over the list of the aspects initialised so far, last first.
    method RollBack(t: Thread, initialized: seq<string>, w: Behaviour) returns (ok: bool)
      requires initialized <= t.aspects
      modifies this`calls
      ensures calls == old(calls) + UndoCalls(t, w, |initialized|)
      ensures ok == Undone(w, |initialized|)
    {
      hide UndoCalls;
      UndoStep(t, w, 0);
      var i := |initialized|;
      ghost var made: seq<Call> := [];
      while i > 0
        invariant 0 <= i <= |initialized| && calls == old(calls) + made
        invariant made + UndoCalls(t, w, i) == UndoCalls(t, w, |initialized|)
        invariant forall j :: i <= j < |initialized| ==> w.undo(j)
      {
        i := i - 1;
        ghost var one := [FinalizeCall(initialized[i], t)];
        UndoStep(t, w, i);
        Associative(made, one, UndoCalls(t, w, i));
        Associative(old(calls), made, one);
        calls := calls + [FinalizeCall(initialized[i], t)];
        made := made + one;
        if !w.undo(i) {
          return false;
        }
      }
      ok := true;
    }

    method Init(t: Thread, w: Behaviour) returns (ans: Answer)
      modifies this
      ensures (State(), ans) == InitResult(old(State()), t, w)
    {
      hide UndoCalls, Undone, Enlist;
      var initialized := [];
      var i := 0;
      while i < |t.aspects|
        invariant 0 <= i <= |t.aspects| && initialized == t.aspects[..i]
        invariant State() == old(State()).(calls := old(calls) + InitCalls(t, i))
        invariant InitStop(old(State()), t, w, i) == InitStop(old(State()), t, w, 0)
      {
        var a := t.aspects[i];
        if a !in inifins {
          var ok := RollBack(t, initialized, w);
          return if ok then NoInitializer(a) else Raised;
        }
        calls := calls + [InitCall(a, t)];
        assert InitCalls(t, i + 1) == InitCalls(t, i) + [InitCall(a, t)];
        Associative(old(calls), InitCalls(t, i), [InitCall(a, t)]);
        match w.init(i)
        case Fine =>
          initialized := initialized + [a];
          i := i + 1;
        case Foreign =>
          return Raised;
        case Throws =>
          var ok := RollBack(t, initialized, w);
          return if ok then CannotInitialize else Raised;
      }
      EnlistAll(t);
      ans := Done;
    }

    method EnlistAll(t: Thread)
      modifies this`threads
      ensures threads == Enlist(old(threads), t, |t.aspects|)
    {
      var i := 0;
      while i < |t.aspects|
        invariant 0 <= i <= |t.aspects| && threads == Enlist(old(threads), t, i)
      {
        threads := threads[t.aspects[i] := Alive(threads, t.aspects[i]) + [t]];
        i := i + 1;
      }
    }

    method Finalize(t: Thread, w: Behaviour) returns (ans: Answer)
      modifies this
      ensures (State(), ans) == FinalizeResult(old(State()), t, w)
    {
      var i := 0;
      while i < |t.aspects|
        invariant 0 <= i <= |t.aspects| && threads == old(threads)
        invariant FinalizeFrom(State(), t, w, i) == FinalizeResult(old(State()), t, w)
      {
        var a := t.aspects[i];
        if a !in inifins {
          return NoFinalizer(a);
        }
        calls := calls + [FinalizeCall(a, t)];
        if !w.finalize(i) {
          return Raised;
        }
        i := i + 1;
      }
      ghost var done := State();
      i := 0;
      while i < |t.aspects|
        invariant 0 <= i <= |t.aspects|
        invariant State() == done.(threads := Delist(done.threads, t, i))
      {
        threads := threads[t.aspects[i] := Without(Alive(threads, t.aspects[i]), t)];
        i := i + 1;
      }
      ans := Done;
    }

    method PrepareFinalize(t: Thread, w: Behaviour) returns (ans: Answer)
      modifies this
      ensures (State(), ans) == PrepareResult(old(State()), t, w)
    {
      var i := 0;
      while i < |t.aspects|
        invariant 0 <= i <= |t.aspects|
        invariant PrepareFrom(State(), t, w, i) == PrepareResult(old(State()), t, w)
      {
        var a := t.aspects[i];
        if a !in inifins {
          return NoFinalizer(a);
        }
        calls := calls + [PrepareCall(a, t)];
        match w.prepare(i)
        case Prepared => i := i + 1;
        case NotYet => return Refused;
        case PrepareThrows => return Raised;
      }
      ans := Done;
    }
  }

  // ---------------------------------------------------------------- rollback

  // The rollback of n initialised aspects, if nothing throws: finalize them in reverse order.
  function Reversed(t: Thread, n: nat): (cs: seq<Call>)
    requires n <= |t.aspects|
    ensures |cs| == n && forall i :: 0 <= i < n ==> cs[i] == FinalizeCall(t.aspects[n - 1 - i], t)
  {
    seq(n, i requires 0 <= i < n => FinalizeCall(t.aspects[n - 1 - i], t))
  }

  lemma {:induction false} UndoIsReversed(t: Thread, w: Behaviour, n: nat)
    requires n <= |t.aspects|
    ensures UndoCalls(t, w, n) <= Reversed(t, n)
    ensures UndoCalls(t, w, n) == Reversed(t, n) <==> forall i :: 1 <= i < n ==> w.undo(i)
  {
    if n > 0 {
      UndoIsReversed(t, w, n - 1);
      assert Reversed(t, n) == [FinalizeCall(t.aspects[n - 1], t)] + Reversed(t, n - 1);
      if n > 1 {
        assert UndoCalls(t, w, n - 1) != [];
      }
    }
  }

  lemma {:induction false} InitStops(r: Registry, t: Thread, w: Behaviour, i: nat, n: nat)
    requires i <= n < |t.aspects| && StopsInit(r, t, w, n)
    requires forall j :: i <= j < n ==> !StopsInit(r, t, w, j)
    ensures InitStop(r, t, w, i) == n
    decreases n - i
  {
    if i < n {
      InitStops(r, t, w, i + 1, n);
    }
  }

  /** A failed initialisation leaves both registries as they were. When the aspect at position n is the first
      that fails, the aspects before it were initialised in order, and, unless the exception is a foreign one
      or a finalizer throws as well, exactly these are finalized, in reverse order. */
  lemma FailedInitRollsBack(r: Registry, t: Thread, w: Behaviour, n: nat)
    requires n < |t.aspects| && StopsInit(r, t, w, n) && forall j :: 0 <= j < n ==> !StopsInit(r, t, w, j)
    ensures var (r', ans) := InitResult(r, t, w);
            var tried := if t.aspects[n] in r.inifins then n + 1 else n;
            && ans != Done
            && r'.inifins == r.inifins && r'.threads == r.threads && r'.defaults == r.defaults
            && r.calls + InitCalls(t, tried) <= r'.calls <= r.calls + InitCalls(t, tried) + Reversed(t, n)
            && (tried == n || w.init(n) == Throws ==>
                  (ans == (if tried == n then NoInitializer(t.aspects[n]) else CannotInitialize) <==>
                     forall i :: 0 <= i < n ==> w.undo(i)))
            && ((tried == n || w.init(n) == Throws) && (forall i :: 0 <= i < n ==> w.undo(i)) ==>
                  r'.calls == r.calls + InitCalls(t, tried) + Reversed(t, n))
  {
    hide UndoCalls, InitStop, InitCalls, Reversed;
    InitStops(r, t, w, 0, n);
    UndoIsReversed(t, w, n);
    UndoneAll(w, n);
    UndoneButFirst(w, n);
    var tried := if t.aspects[n] in r.inifins then n + 1 else n;
    CallsBetween(r.calls + InitCalls(t, tried), UndoCalls(t, w, n), Reversed(t, n));
  }

  lemma CallsBetween(done: seq<Call>, some: seq<Call>, all: seq<Call>)
    requires some <= all
    ensures done <= done + some <= done + all && done <= done + all
  {
  }

  lemma UndoneButFirst(w: Behaviour, n: nat)
    ensures Undone(w, n) ==> forall i :: 1 <= i < n ==> w.undo(i)
  {
  }

  lemma UndoneAll(w: Behaviour, n: nat)
    ensures Undone(w, n) <==> forall i :: 0 <= i < n ==> w.undo(i)
  {
  }

  // ---------------------------------------------------------------- calls and answers

  function FinalizeCalls(t: Thread, n: nat): (cs: seq<Call>)
    requires n <= |t.aspects|
    ensures |cs| == n && forall i :: 0 <= i < n ==> cs[i] == FinalizeCall(t.aspects[i], t)
  {
    seq(n, i requires 0 <= i < n => FinalizeCall(t.aspects[i], t))
  }

  function PrepareCalls(t: Thread, n: nat): (cs: seq<Call>)
    requires n <= |t.aspects|
    ensures |cs| == n && forall i :: 0 <= i < n ==> cs[i] == PrepareCall(t.aspects[i], t)
  {
    seq(n, i requires 0 <= i < n => PrepareCall(t.aspects[i], t))
  }

  // The first n aspects have an initializer that finalises, or is prepared to.
  predicate FinalizeBefore(r: Registry, t: Thread, w: Behaviour, n: nat)
    requires n <= |t.aspects|
  {
    forall j :: 0 <= j < n ==> t.aspects[j] in r.inifins && w.finalize(j)
  }

  predicate PreparedBefore(r: Registry, t: Thread, w: Behaviour, n: nat)
    requires n <= |t.aspects|
  {
    forall j :: 0 <= j < n ==> t.aspects[j] in r.inifins && w.prepare(j) == Prepared
  }

  /** Finalising calls the finalizers in the order of the aspects up to the first that is unknown or throws; the
      answer tells which of the two it was. */
  lemma FinalizeStopsAt(r: Registry, t: Thread, w: Behaviour, n: nat)
    requires n <= |t.aspects| && FinalizeBefore(r, t, w, n)
    requires n < |t.aspects| ==> !(t.aspects[n] in r.inifins && w.finalize(n))
    ensures var (r', ans) := FinalizeResult(r, t, w);
            if n == |t.aspects| then ans == Done && r'.calls == r.calls + FinalizeCalls(t, n)
            else if t.aspects[n] !in r.inifins then
              ans == NoFinalizer(t.aspects[n]) && r' == r.(calls := r.calls + FinalizeCalls(t, n))
            else ans == Raised && r' == r.(calls := r.calls + FinalizeCalls(t, n + 1))
  {
    assert r.calls + FinalizeCalls(t, 0) == r.calls && r.(calls := r.calls) == r;
    FinalizeReaches(r, t, w, 0, n);
    if n < |t.aspects| {
      NextFinalize(r.calls, t, n);
    }
  }

  lemma NextFinalize(cs: seq<Call>, t: Thread, i: nat)
    requires i < |t.aspects|
    ensures cs + FinalizeCalls(t, i) + [FinalizeCall(t.aspects[i], t)] == cs + FinalizeCalls(t, i + 1)
  {
    assert FinalizeCalls(t, i + 1) == FinalizeCalls(t, i) + [FinalizeCall(t.aspects[i], t)];
  }

  lemma {:induction false} FinalizeReaches(r: Registry, t: Thread, w: Behaviour, i: nat, n: nat)
    requires i <= n <= |t.aspects| && FinalizeBefore(r, t, w, n)
    ensures FinalizeFrom(r.(calls := r.calls + FinalizeCalls(t, i)), t, w, i)
         == FinalizeFrom(r.(calls := r.calls + FinalizeCalls(t, n)), t, w, n)
    decreases n - i
  {
    if i < n {
      NextFinalize(r.calls, t, i);
      FinalizeReaches(r, t, w, i + 1, n);
    }
  }

  /** Preparing asks the finalizers in the order of the aspects up to the first that is unknown, refuses or throws,
      answers accordingly and changes neither the initializers nor the live threads. */
  lemma PrepareStopsAt(r: Registry, t: Thread, w: Behaviour, n: nat)
    requires n <= |t.aspects| && PreparedBefore(r, t, w, n)
    requires n < |t.aspects| ==> !(t.aspects[n] in r.inifins && w.prepare(n) == Prepared)
    ensures var (r', ans) := PrepareResult(r, t, w);
            if n == |t.aspects| then ans == Done && r' == r.(calls := r.calls + PrepareCalls(t, n))
            else if t.aspects[n] !in r.inifins then
              ans == NoFinalizer(t.aspects[n]) && r' == r.(calls := r.calls + PrepareCalls(t, n))
            else
              && (ans == Refused <==> w.prepare(n) == NotYet) && (ans == Raised <==> w.prepare(n) == PrepareThrows)
              && r' == r.(calls := r.calls + PrepareCalls(t, n + 1))
  {
    assert r.calls + PrepareCalls(t, 0) == r.calls && r.(calls := r.calls) == r;
    PrepareReaches(r, t, w, 0, n);
    if n < |t.aspects| {
      NextPrepare(r.calls, t, n);
    }
  }

  lemma NextPrepare(cs: seq<Call>, t: Thread, i: nat)
    requires i < |t.aspects|
    ensures cs + PrepareCalls(t, i) + [PrepareCall(t.aspects[i], t)] == cs + PrepareCalls(t, i + 1)
  {
    assert PrepareCalls(t, i + 1) == PrepareCalls(t, i) + [PrepareCall(t.aspects[i], t)];
  }

  lemma {:induction false} PrepareReaches(r: Registry, t: Thread, w: Behaviour, i: nat, n: nat)
    requires i <= n <= |t.aspects| && PreparedBefore(r, t, w, n)
    ensures PrepareFrom(r.(calls := r.calls + PrepareCalls(t, i)), t, w, i)
         == PrepareFrom(r.(calls := r.calls + PrepareCalls(t, n)), t, w, n)
    decreases n - i
  {
    if i < n {
      NextPrepare(r.calls, t, i);
      PrepareReaches(r, t, w, i + 1, n);
    }
  }

  /** An initializer leaves only while no thread is alive under its aspect, and takes nothing else with it; a new
      one never replaces another; the default ones come once and replace those of the same name. */
  lemma RegistrationAnswers(r: Registry, a: string, f: nat, defaults: map<string, nat>, b: string)
    ensures var (r', ans) := Unregister(r, a);
            && (ans == Done <==> a in r.inifins && forall t :: t !in Alive(r.threads, a))
            && (ans == NotRegistered <==> a !in r.inifins)
            && (ans != Done ==> ans in {NotRegistered, StillAlive} && r' == r)
            && (ans == Done ==> (b in r'.inifins <==> b in r.inifins && b != a) && Alive(r'.threads, b) == Alive(r.threads, b))
            && (b in r'.inifins ==> b in r.inifins && r'.inifins[b] == r.inifins[b])
            && r'.calls == r.calls && r'.defaults == r.defaults
    ensures var (r', ans) := Register(r, a, f);
            && (ans == Done <==> a !in r.inifins) && (ans != Done ==> ans == AlreadyRegistered && r' == r)
            && a in r'.inifins && (ans == Done ==> r'.inifins[a] == f)
            && (b in r.inifins ==> b in r'.inifins && r'.inifins[b] == r.inifins[b])
            && (b in r'.inifins ==> b == a || b in r.inifins)
            && r'.threads == r.threads && r'.calls == r.calls && r'.defaults == r.defaults
    ensures var r' := RegisterDefaults(r, defaults);
            && (r.defaults == map[] ==>
                  && r'.defaults == defaults && (b in r'.inifins <==> b in r.inifins || b in defaults)
                  && (b in r'.inifins ==> r'.inifins[b] == if b in defaults then defaults[b] else r.inifins[b]))
            && (r.defaults != map[] ==> r' == r)
            && r'.threads == r.threads && r'.calls == r.calls
  {
    if Alive(r.threads, a) != [] {
      assert Alive(r.threads, a)[0] in Alive(r.threads, a);
    }
  }

  // What Without keeps stays in order.
  lemma {:induction false} WithoutInOrder(xs: seq<Thread>, ys: seq<Thread>, t: Thread, u: Thread)
    ensures Without(xs + ys, t) == Without(xs, t) + Without(ys, t)
    ensures Without([u], t) == if u == t then [] else [u]
    decreases |xs|
  {
    assert [u][1..] == [];
    if xs == [] {
      assert xs + ys == ys;
    } else {
      assert (xs + ys)[1..] == xs[1..] + ys;
      WithoutInOrder(xs[1..], ys, t, u);
    }
  }

  // One entry for every time the thread carries the aspect among its first n.
  function Entries(t: Thread, n: nat, a: string): seq<Thread>
    requires n <= |t.aspects|
  {
    if n == 0 then [] else Entries(t, n - 1, a) + if t.aspects[n - 1] == a then [t] else []
  }

  /** A thread goes to the end of the list of each of its aspects. */
  lemma {:induction false} EnlistLast(threads: map<string, seq<Thread>>, t: Thread, n: nat, a: string)
    requires n <= |t.aspects|
    ensures Alive(Enlist(threads, t, n), a) == Alive(threads, a) + Entries(t, n, a)
  {
    if n == 0 {
      assert Alive(threads, a) + [] == Alive(threads, a);
    } else {
      EnlistLast(threads, t, n - 1, a);
      var m := Enlist(threads, t, n - 1);
      AliveUpdate(m, t, n, Alive(m, t.aspects[n - 1]) + [t], a);
      hide Alive;
      Associative(Alive(threads, a), Entries(t, n - 1, a), [t]);
    }
  }

  // ---------------------------------------------------------------- initializers of live threads

  /** Every aspect with live threads has an initializer. */
  ghost predicate Backed(r: Registry) {
    forall a, t {:trigger t in Alive(r.threads, a)} :: t in Alive(r.threads, a) ==> a in r.inifins
  }

  datatype Operation =
    | RegisterOp(aspect: string, inifin: nat)
    | UnregisterOp(aspect: string)
    | DefaultsOp(defaults: map<string, nat>)
    | InitOp(thread: Thread, w: Behaviour)
    | FinalizeOp(thread: Thread, w: Behaviour)
    | PrepareOp(thread: Thread, w: Behaviour)

  function Perform(r: Registry, o: Operation): (Registry, Answer) {
    match o
    case RegisterOp(a, f) => Register(r, a, f)
    case UnregisterOp(a) => Unregister(r, a)
    case DefaultsOp(d) => (RegisterDefaults(r, d), Done)
    case InitOp(t, w) => InitResult(r, t, w)
    case FinalizeOp(t, w) => FinalizeResult(r, t, w)
    case PrepareOp(t, w) => PrepareResult(r, t, w)
  }

  function PerformAll(r: Registry, os: seq<Operation>): Registry
    decreases |os|
  {
    if os == [] then r else PerformAll(Perform(r, os[0]).0, os[1..])
  }

  lemma {:induction false} InitStopAll(r: Registry, t: Thread, w: Behaviour, i: nat)
    requires i <= |t.aspects|
    ensures InitStop(r, t, w, i) == |t.aspects| <==> forall j :: i <= j < |t.aspects| ==> !StopsInit(r, t, w, j)
    decreases |t.aspects| - i
  {
    if i < |t.aspects| && !StopsInit(r, t, w, i) {
      InitStopAll(r, t, w, i + 1);
    }
  }

  /** Initialisation succeeds exactly when every aspect has an initializer and none of them throws; the thread
      is then alive under all of its aspects, and nothing else changes. */
  lemma InitEnlists(r: Registry, t: Thread, w: Behaviour)
    ensures var (r', ans) := InitResult(r, t, w);
            && (ans == Done <==> forall j :: 0 <= j < |t.aspects| ==> t.aspects[j] in r.inifins && w.init(j) == Fine)
            && r'.inifins == r.inifins && r'.defaults == r.defaults
            && (ans != Done ==> r'.threads == r.threads)
            && (ans == Done ==> forall a, u :: u in Alive(r'.threads, a) <==>
                                  u in Alive(r.threads, a) || (u == t && a in t.aspects))
  {
    hide InitStop, Enlist, Alive, UndoCalls;
    InitStopAll(r, t, w, 0);
    assert forall j :: 0 <= j < |t.aspects| ==> (StopsInit(r, t, w, j) <==> !(t.aspects[j] in r.inifins && w.init(j) == Fine));
    var (r', ans) := InitResult(r, t, w);
    if ans == Done {
      assert t.aspects[..|t.aspects|] == t.aspects;
      forall a, u
        ensures u in Alive(r'.threads, a) <==> u in Alive(r.threads, a) || (u == t && a in t.aspects)
      {
        EnlistAlive(r.threads, t, |t.aspects|, a, u);
      }
    }
  }

  lemma {:induction false} FinalizeFromDone(r: Registry, t: Thread, w: Behaviour, i: nat)
    requires i <= |t.aspects|
    ensures var (r', ans) := FinalizeFrom(r, t, w, i);
            && (ans == Done <==> forall j :: i <= j < |t.aspects| ==> t.aspects[j] in r.inifins && w.finalize(j))
            && r'.inifins == r.inifins && r'.defaults == r.defaults
            && r'.threads == (if ans == Done then Delist(r.threads, t, |t.aspects|) else r.threads)
            && (ans.NoFinalizer? ==> ans.aspect in t.aspects && ans.aspect !in r.inifins)
            && (ans == Done || ans.NoFinalizer? || ans == Raised)
    decreases |t.aspects| - i
  {
    hide Delist;
    if i < |t.aspects| && t.aspects[i] in r.inifins && w.finalize(i) {
      FinalizeFromDone(r.(calls := r.calls + [FinalizeCall(t.aspects[i], t)]), t, w, i + 1);
    }
  }

  /** Finalisation succeeds exactly when every aspect has a finalizer and none of them throws; the thread is
      then alive under none of its aspects. When it fails, no list of live threads changes. */
  lemma FinalizeDelists(r: Registry, t: Thread, w: Behaviour)
    ensures var (r', ans) := FinalizeResult(r, t, w);
            && (ans == Done <==> forall j :: 0 <= j < |t.aspects| ==> t.aspects[j] in r.inifins && w.finalize(j))
            && r'.inifins == r.inifins && r'.defaults == r.defaults
            && (ans != Done ==> r'.threads == r.threads)
            && (ans == Done ==> forall a, u :: u in Alive(r'.threads, a) <==>
                                  u in Alive(r.threads, a) && !(u == t && a in t.aspects))
  {
    FinalizeFromDone(r, t, w, 0);
    var (r', ans) := FinalizeResult(r, t, w);
    if ans == Done {
      assert t.aspects[..|t.aspects|] == t.aspects;
      forall a, u
        ensures u in Alive(r'.threads, a) <==> u in Alive(r.threads, a) && !(u == t && a in t.aspects)
      {
        DelistAlive(r.threads, t, |t.aspects|, a, u);
      }
    }
  }

  lemma {:induction false} PrepareFromKeeps(r: Registry, t: Thread, w: Behaviour, i: nat)
    requires i <= |t.aspects|
    ensures var (r', ans) := PrepareFrom(r, t, w, i);
            && r'.(calls := []) == r.(calls := [])
            && (ans.NoFinalizer? ==> ans.aspect in t.aspects && ans.aspect !in r.inifins)
    decreases |t.aspects| - i
  {
    if i < |t.aspects| && t.aspects[i] in r.inifins && w.prepare(i) == Prepared {
      PrepareFromKeeps(r.(calls := r.calls + [PrepareCall(t.aspects[i], t)]), t, w, i + 1);
    }
  }

  lemma PerformKeepsBacked(r: Registry, o: Operation)
    requires Backed(r)
    ensures Backed(Perform(r, o).0)
  {
    hide InitResult, FinalizeFrom, PrepareFrom;
    match o
    case InitOp(t, w) => InitEnlists(r, t, w);
    case FinalizeOp(t, w) => FinalizeDelists(r, t, w);
    case PrepareOp(t, w) => PrepareFromKeeps(r, t, w, 0);
    case UnregisterOp(a) =>
      assert forall b :: Alive(Unregister(r, a).0.threads, b) == Alive(r.threads, b);
    case _ =>
  }

  // The thread is alive under every one of its aspects.
  ghost predicate Registered(r: Registry, t: Thread) {
    forall a :: a in t.aspects ==> t in Alive(r.threads, a)
  }

  /** In every reachable state of the aspect manager an aspect with live threads has an initializer; finalising
      or preparing to finalise a registered thread therefore never reports an unknown aspect. */
  lemma {:induction false} ReachableBacked(r: Registry, os: seq<Operation>, t: Thread, w: Behaviour)
    requires Backed(r)
    ensures Backed(PerformAll(r, os))
    ensures Registered(PerformAll(r, os), t) ==>
              !FinalizeResult(PerformAll(r, os), t, w).1.NoFinalizer? && !PrepareResult(PerformAll(r, os), t, w).1.NoFinalizer?
    decreases |os|
  {
    if os == [] {
      FinalizeFromDone(r, t, w, 0);
      PrepareFromKeeps(r, t, w, 0);
    } else {
      PerformKeepsBacked(r, os[0]);
      ReachableBacked(Perform(r, os[0]).0, os[1..], t, w);
    }
  }
}
