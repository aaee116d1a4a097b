/** The thread manager's operations on single threads, on top of the aspect manager: a thread is meant to be
    managed exactly as long as it is alive under its aspects. */
module ThreadManager {
  import opened AspectManager

  // Both managers together.
  datatype World = World(registry: Registry, managed: seq<Thread>)

  /** How the thread itself behaves in one operation. prepares: prepare_finalize() returns true and neither it
      nor cancelling and joining throws; finalizes: Thread::finalize() does not throw. */
  datatype Conduct = Conduct(inits: bool, starts: bool, prepares: bool, finalizes: bool)

  // ---------------------------------------------------------------- the operations as functions

  // Behaviour w belongs to the initializer call, u to the finalizer call that cleans up after it.
  function Added(s: World, t: Thread, w: Behaviour, u: Behaviour, d: Conduct): (World, Answer) {
    var (r1, a1) := InitResult(s.registry, t, w);
    if a1 != Done then (s.(registry := r1), a1)
    else if !d.inits then
      var (r2, a2) := FinalizeResult(r1, t, u);
      (s.(registry := r2), if a2 == Done then CannotInitialize else a2)
    else if !d.starts then (s.(registry := r1), Raised)
    else (World(r1, s.managed + [t]), Done)
  }

  // What remove and force_remove have in common once the thread is stopped.
  function Taken(s: World, t: Thread, w: Behaviour, d: Conduct): (World, Answer) {
    var (r1, a1) := FinalizeResult(s.registry, t, w);
    if a1 != Done then (s.(registry := r1), a1)
    else if !d.finalizes then (s.(registry := r1), Raised)
    else (World(r1, Without(s.managed, t)), Done)
  }

  function Removed(s: World, t: Thread, w: Behaviour, d: Conduct): (World, Answer) {
    if !d.prepares then (s, Refused) else Taken(s, t, w, d)
  }

  // ---------------------------------------------------------------- the thread manager

  class ThreadManager {
    const aspects: Manager
    var untimedThreads: seq<Thread>

    ghost function State(): World
      reads this, aspects
    {
      World(aspects.State(), untimedThreads)
    }

    constructor (aspects: Manager)
      ensures this.aspects == aspects && untimedThreads == []
    {
      this.aspects := aspects;
      untimedThreads := [];
    }

    method Add(t: Thread, w: Behaviour, u: Behaviour, d: Conduct) returns (ans: Answer)
      modifies this, aspects
      ensures (State(), ans) == Added(old(State()), t, w, u, d)
    {
      ans := aspects.Init(t, w);
      if ans != Done {
        return;
      }
      if !d.inits {
        ans := aspects.Finalize(t, u);
        if ans == Done {
          ans := CannotInitialize;
        }
        return;
      }
      if !d.starts {
        return Raised;
      }
      untimedThreads := untimedThreads + [t];
    }

    method Remove(t: Thread, w: Behaviour, d: Conduct) returns (ans: Answer)
      modifies this, aspects
      ensures (State(), ans) == Removed(old(State()), t, w, d)
    {
      if !d.prepares {
        return Refused;
      }
      ans := aspects.Finalize(t, w);
      if ans != Done {
        return;
      }
      if !d.finalizes {
        return Raised;
      }
      untimedThreads := Without(untimedThreads, t);
    }

    // A thread that cannot be prepared is removed all the same.
    method ForceRemove(t: Thread, w: Behaviour, d: Conduct) returns (ans: Answer)
      modifies this, aspects
      ensures (State(), ans) == Taken(old(State()), t, w, d)
    {
      ans := aspects.Finalize(t, w);
      if ans != Done {
        return;
      }
      if !d.finalizes {
        return Raised;
      }
      untimedThreads := Without(untimedThreads, t);
    }
  }

  // ---------------------------------------------------------------- agreement of the two managers

  // The thread is alive under none of its aspects.
  ghost predicate Gone(r: Registry, t: Thread) {
    forall a :: a in t.aspects ==> t !in Alive(r.threads, a)
  }

  /** A thread with aspects is managed and alive under all of them, or not managed and alive under none. */
  ghost predicate AgreeOn(s: World, t: Thread) {
    t.aspects != [] ==> if t in s.managed then Registered(s.registry, t) else Gone(s.registry, t)
  }

  ghost predicate Agree(s: World) {
    forall t {:trigger AgreeOn(s, t)} :: AgreeOn(s, t)
  }

  datatype Step =
    | Add(thread: Thread, w: Behaviour, u: Behaviour, d: Conduct)
    | Remove(thread: Thread, w: Behaviour, d: Conduct)
    | ForceRemove(thread: Thread, w: Behaviour, d: Conduct)
    | Aspects(op: Operation)

  // Other parts of the program register and unregister initializers, but leave the threads to this manager.
  predicate Allowed(e: Step) {
    e.Aspects? ==> e.op.RegisterOp? || e.op.UnregisterOp? || e.op.DefaultsOp? || e.op.PrepareOp?
  }

  function Do(s: World, e: Step): (World, Answer) {
    match e
    case Add(t, w, u, d) => Added(s, t, w, u, d)
    case Remove(t, w, d) => Removed(s, t, w, d)
    case ForceRemove(t, w, d) => Taken(s, t, w, d)
    case Aspects(o) => var (r, a) := Perform(s.registry, o); (s.(registry := r), a)
  }

  // All initializers of t are known and none of them throws.
  ghost predicate AspectsInit(r: Registry, t: Thread, w: Behaviour) {
    forall j :: 0 <= j < |t.aspects| ==> t.aspects[j] in r.inifins && w.init(j) == Fine
  }

  ghost predicate AspectsFinalize(r: Registry, t: Thread, w: Behaviour) {
    forall j :: 0 <= j < |t.aspects| ==> t.aspects[j] in r.inifins && w.finalize(j)
  }

  /** The failures that separate the two managers: start() throws, or cleaning up after a failed init() throws,
      so that a thread stays alive without being managed; a thread that is managed already is added again and
      its init() throws; Thread::finalize() throws after the aspects are finalised. */
  ghost predicate Breaks(s: World, e: Step) {
    match e
    case Add(t, w, u, d) =>
      && t.aspects != [] && AspectsInit(s.registry, t, w)
      && if t in s.managed then !d.inits && AspectsFinalize(s.registry, t, u)
         else if d.inits then !d.starts else !AspectsFinalize(s.registry, t, u)
    case Remove(t, w, d) =>
      t.aspects != [] && d.prepares && !d.finalizes && t in s.managed && AspectsFinalize(s.registry, t, w)
    case ForceRemove(t, w, d) =>
      t.aspects != [] && !d.finalizes && t in s.managed && AspectsFinalize(s.registry, t, w)
    case Aspects(_) => false
  }

  // The lists of live threads changed for thread t only: it is alive under all its aspects now, or under none.
  ghost predicate OnlyChanged(r: Registry, r': Registry, t: Thread, alive: bool) {
    forall a, u {:trigger u in Alive(r'.threads, a)} ::
      u in Alive(r'.threads, a) <==> if u == t && a in t.aspects then alive else u in Alive(r.threads, a)
  }

  // What a change of one thread means for the agreement of the managers.
  lemma OneThread(s: World, s': World, t: Thread, alive: bool)
    requires Agree(s) && OnlyChanged(s.registry, s'.registry, t, alive)
    requires forall u :: u != t ==> (u in s'.managed <==> u in s.managed)
    ensures Agree(s') <==> (t.aspects != [] ==> (t in s'.managed <==> alive))
  {
    forall u | u != t
      ensures AgreeOn(s', u)
    {
      assert AgreeOn(s, u);
    }
    if t.aspects != [] {
      assert t.aspects[0] in t.aspects;
      assert t in Alive(s'.registry.threads, t.aspects[0]) <==> alive;
    }
    assert AgreeOn(s', t) <==> (t.aspects != [] ==> (t in s'.managed <==> alive));
  }

  lemma SameLists(s: World, s': World)
    requires Agree(s) && s'.managed == s.managed
    requires forall a, u :: u in Alive(s'.registry.threads, a) <==> u in Alive(s.registry.threads, a)
    ensures Agree(s')
  {
    forall u
      ensures AgreeOn(s', u)
    {
      assert AgreeOn(s, u);
    }
  }

  lemma FinalizeStep(s: World, t: Thread, w: Behaviour)
    ensures var (r', a) := FinalizeResult(s.registry, t, w);
            && (a == Done <==> AspectsFinalize(s.registry, t, w))
            && (a == Done ==> OnlyChanged(s.registry, r', t, false))
            && (a != Done ==> r'.threads == s.registry.threads)
  {
    FinalizeDelists(s.registry, t, w);
  }

  lemma InitStep(s: World, t: Thread, w: Behaviour)
    ensures var (r', a) := InitResult(s.registry, t, w);
            && (a == Done <==> AspectsInit(s.registry, t, w))
            && (a == Done ==> OnlyChanged(s.registry, r', t, true))
            && (a != Done ==> r'.threads == s.registry.threads)
            && r'.inifins == s.registry.inifins
  {
    InitEnlists(s.registry, t, w);
  }

  lemma TakeStep(s: World, t: Thread, w: Behaviour, d: Conduct)
    requires Agree(s)
    ensures Agree(Taken(s, t, w, d).0) <==>
            !(t.aspects != [] && !d.finalizes && t in s.managed && AspectsFinalize(s.registry, t, w))
  {
    hide FinalizeResult, AspectsFinalize;
    FinalizeStep(s, t, w);
    var s' := Taken(s, t, w, d).0;
    if FinalizeResult(s.registry, t, w).1 == Done {
      OneThread(s, s', t, false);
    } else {
      SameLists(s, s');
    }
  }

  lemma AddStep(s: World, t: Thread, w: Behaviour, u: Behaviour, d: Conduct)
    requires Agree(s)
    ensures Agree(Added(s, t, w, u, d).0) <==> !Breaks(s, Add(t, w, u, d))
  {
    hide InitResult, FinalizeResult, AspectsInit;
    InitStep(s, t, w);
    var (r1, a1) := InitResult(s.registry, t, w);
    var s' := Added(s, t, w, u, d).0;
    if a1 != Done {
      SameLists(s, s');
    } else {
      FinalizeStep(World(r1, s.managed), t, u);
      if !d.inits && FinalizeResult(r1, t, u).1 == Done {
        OneThread(s, s', t, false);
      } else {
        OneThread(s, s', t, true);
      }
    }
  }

  lemma AspectStep(s: World, o: Operation)
    requires Agree(s) && Allowed(Aspects(o))
    ensures Agree(Do(s, Aspects(o)).0)
  {
    var (r', a) := Perform(s.registry, o);
    forall b, u
      ensures u in Alive(r'.threads, b) <==> u in Alive(s.registry.threads, b)
    {
      if o.PrepareOp? {
        PrepareFromKeeps(s.registry, o.thread, o.w, 0);
      }
    }
    SameLists(s, Do(s, Aspects(o)).0);
  }

  /** What adding a thread answers: Done exactly when every step succeeds, and only then the thread is appended to
      the managed ones; a failed init() that could be cleaned up after is reported as a thread that cannot be
      initialised, and a failed start as it was raised. */
  lemma AddAnswers(s: World, t: Thread, w: Behaviour, u: Behaviour, d: Conduct)
    ensures var (s', a) := Added(s, t, w, u, d);
            && (a == Done <==> AspectsInit(s.registry, t, w) && d.inits && d.starts)
            && s'.managed == (if a == Done then s.managed + [t] else s.managed)
            && (AspectsInit(s.registry, t, w) && !d.inits ==>
                  (a == CannotInitialize <==> AspectsFinalize(s.registry, t, u))
                  && (a != CannotInitialize ==> a == Raised))
            && (AspectsInit(s.registry, t, w) && d.inits && !d.starts ==> a == Raised)
            && (!AspectsInit(s.registry, t, w) ==> a == CannotInitialize || a.NoInitializer? || a == Raised)
  {
    hide InitResult, FinalizeResult;
    InitStep(s, t, w);
    InitAnswers(s.registry, t, w);
    var r1 := InitResult(s.registry, t, w).0;
    FinalizeStep(World(r1, s.managed), t, u);
    FinalizeAnswers(r1, t, u);
  }

  lemma InitAnswers(r: Registry, t: Thread, w: Behaviour)
    ensures var a := InitResult(r, t, w).1; a == Done || a == CannotInitialize || a.NoInitializer? || a == Raised
    ensures InitResult(r, t, w).0.inifins == r.inifins
  {
    InitEnlists(r, t, w);
  }

  // The answers of finalising; an unknown finalizer is one of the aspects of the thread.
  lemma FinalizeAnswers(r: Registry, t: Thread, w: Behaviour)
    ensures var a := FinalizeResult(r, t, w).1;
            && (a == Done || a == Raised || a.NoFinalizer?)
            && (a.NoFinalizer? ==> a.aspect in t.aspects && a.aspect !in r.inifins)
  {
    FinalizeFromDone(r, t, w, 0);
  }

  /** What removing a thread answers: Refused, changing nothing, exactly when it cannot be prepared; Done exactly
      when preparing, its aspects and the thread itself are finalised, and only then it leaves the managed ones;
      otherwise an unknown finalizer is named or the exception is passed on. Forced removal differs in that
      preparing does not count. */
  lemma RemoveAnswers(s: World, t: Thread, w: Behaviour, d: Conduct)
    ensures var (s', a) := Removed(s, t, w, d);
            && (a == Refused <==> !d.prepares) && (a == Refused ==> s' == s)
            && (a == Done <==> d.prepares && AspectsFinalize(s.registry, t, w) && d.finalizes)
            && (a == Done || a == Refused || a == Raised || a.NoFinalizer?)
            && (a != Done ==> s'.managed == s.managed)
            && (a == Done ==> forall u :: u in s'.managed <==> u in s.managed && u != t)
    ensures var (s', a) := Taken(s, t, w, d);
            && (a == Done <==> AspectsFinalize(s.registry, t, w) && d.finalizes)
            && (a == Done || a == Raised || a.NoFinalizer?)
            && (AspectsFinalize(s.registry, t, w) && !d.finalizes ==> a == Raised)
            && (a.NoFinalizer? ==> a.aspect in t.aspects && a.aspect !in s.registry.inifins)
            && (a != Done ==> s'.managed == s.managed)
            && (a == Done ==> forall u :: u in s'.managed <==> u in s.managed && u != t)
  {
    hide FinalizeResult;
    FinalizeStep(s, t, w);
    FinalizeAnswers(s.registry, t, w);
  }

  /** One operation keeps the two managers in agreement exactly when none of these failures happens in it. */
  lemma StepAgrees(s: World, e: Step)
    requires Agree(s) && Allowed(e)
    ensures Agree(Do(s, e).0) <==> !Breaks(s, e)
  {
    match e
    case Add(t, w, u, d) => AddStep(s, t, w, u, d);
    case Remove(t, w, d) => TakeStep(s, t, w, d);
    case ForceRemove(t, w, d) => TakeStep(s, t, w, d);
    case Aspects(o) => AspectStep(s, o);
  }

  function DoAll(s: World, es: seq<Step>): World
    decreases |es|
  {
    if es == [] then s else DoAll(Do(s, es[0]).0, es[1..])
  }

  ghost predicate Unbroken(s: World, es: seq<Step>)
    decreases |es|
  {
    es == [] || (Allowed(es[0]) && !Breaks(s, es[0]) && Unbroken(Do(s, es[0]).0, es[1..]))
  }

  lemma StepBacked(s: World, e: Step)
    requires Backed(s.registry)
    ensures Backed(Do(s, e).0.registry)
  {
    hide InitResult, FinalizeResult, Backed;
    match e
    case Add(t, w, u, d) =>
      PerformKeepsBacked(s.registry, InitOp(t, w));
      PerformKeepsBacked(InitResult(s.registry, t, w).0, FinalizeOp(t, u));
    case Remove(t, w, d) => PerformKeepsBacked(s.registry, FinalizeOp(t, w));
    case ForceRemove(t, w, d) => PerformKeepsBacked(s.registry, FinalizeOp(t, w));
    case Aspects(o) => PerformKeepsBacked(s.registry, o);
  }

  /** Over any sequence of additions, removals and forced removals, with initializers coming and going, a thread
      with aspects is managed exactly when it is alive under every one of its aspects, and a managed thread
      always finds its finalizers: its removal fails only if one of them throws. */
  lemma {:induction false} ThreadsAgree(s: World, es: seq<Step>, t: Thread, w: Behaviour, d: Conduct)
    requires Agree(s) && Backed(s.registry) && Unbroken(s, es)
    ensures var s' := DoAll(s, es);
            && Agree(s') && Backed(s'.registry)
            && (t.aspects != [] ==> (t in s'.managed <==> Registered(s'.registry, t)))
            && (t in s'.managed ==> !Taken(s', t, w, d).1.NoFinalizer?)
            && (t in s'.managed ==> forall a :: a in t.aspects ==>
                  a in s'.registry.inifins && Unregister(s'.registry, a).1 == StillAlive)
    decreases |es|
  {
    if es == [] {
      assert AgreeOn(s, t);
      if t.aspects != [] {
        assert t.aspects[0] in t.aspects;
      }
      FinalizeFromDone(s.registry, t, w, 0);
    } else {
      StepAgrees(s, es[0]);
      StepBacked(s, es[0]);
      ThreadsAgree(Do(s, es[0]).0, es[1..], t, w, d);
    }
  }

  lemma DoAllStep(s: World, es: seq<Step>, i: nat)
    requires 0 < i <= |es|
    ensures DoAll(s, es[..i]) == DoAll(Do(s, es[0]).0, es[1..][..i - 1])
  {
    assert es[..i][0] == es[0] && es[..i][1..] == es[1..][..i - 1];
  }

  /** The managers agree after every operation of a run exactly when no operation of it is broken off by one of
      these failures. */
  lemma {:induction false} RunAgrees(s: World, es: seq<Step>)
    requires Agree(s) && forall i :: 0 <= i < |es| ==> Allowed(es[i])
    ensures Unbroken(s, es) <==> forall i :: 0 <= i <= |es| ==> Agree(DoAll(s, es[..i]))
    decreases |es|
  {
    assert es[..0] == [];
    if es != [] {
      hide Do, Breaks, Agree;
      StepAgrees(s, es[0]);
      var next, rest := Do(s, es[0]).0, es[1..];
      forall i | 0 < i <= |es|
        ensures DoAll(s, es[..i]) == DoAll(next, rest[..i - 1])
      {
        DoAllStep(s, es, i);
      }
      assert rest[..0] == [] && Agree(DoAll(s, es[..1])) == Agree(next);
      if Agree(next) {
        RunAgrees(next, rest);
        forall i | 0 <= i <= |rest|
          ensures Agree(DoAll(next, rest[..i])) <==> Agree(DoAll(s, es[..i + 1]))
        {
          DoAllStep(s, es, i + 1);
        }
      }
    }
  }

  /** A thread that fails to start stays alive under its aspect without being managed. */
  lemma StartFailureSeparates()
    ensures var t := Thread(1, ["LoggingAspect"]);
            var w := Behaviour(i => Fine, i => true, i => true, i => Prepared);
            var s := World(Registry(map["LoggingAspect" := 0], map[], map[], []), []);
            var s' := Added(s, t, w, w, Conduct(true, false, true, true)).0;
            && Agree(s) && t !in s'.managed && Registered(s'.registry, t) && !Agree(s')
  {
    var t := Thread(1, ["LoggingAspect"]);
    var w := Behaviour(i => Fine, i => true, i => true, i => Prepared);
    var s := World(Registry(map["LoggingAspect" := 0], map[], map[], []), []);
    forall u
      ensures AgreeOn(s, u)
    {
    }
    StepAgrees(s, Add(t, w, w, Conduct(true, false, true, true)));
    InitEnlists(s.registry, t, w);
    assert t.aspects[0] == "LoggingAspect";
  }

  // ---------------------------------------------------------------- forced removal

  /** force_remove leaves a managed thread in place when an aspect finalizer throws. */
  lemma ForceCanFail(s: World, t: Thread, w: Behaviour, d: Conduct)
    requires t in s.managed
    ensures t !in Taken(s, t, w, d).0.managed <==> AspectsFinalize(s.registry, t, w) && d.finalizes
  {
    FinalizeStep(s, t, w);
  }

  lemma EmptyWorld()
    ensures var s := World(Registry(map[], map[], map[], []), []); Agree(s) && Backed(s.registry)
  {
    var s := World(Registry(map[], map[], map[], []), []);
    forall t
      ensures AgreeOn(s, t)
    {
    }
  }
}
