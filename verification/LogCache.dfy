/** The logging cache: the newest log messages, newest first, up to a size that can change at any time. */
module LogCache {
  import opened Basics

  datatype Entry = Entry(level: int, component: string, time: int, message: string)

  /** The list with its separate counter, the size limit and the level filter. */
  datatype Cache = Cache(messages: seq<Entry>, num: nat, max: nat, level: int)

  // ---------------------------------------------------------------- the operations as functions

  function Shortened(ms: seq<Entry>, n: nat): (r: seq<Entry>)
    ensures r <= ms && |r| == if |ms| < n then |ms| else n
  {
    if |ms| <= n then ms else ms[..n]
  }

  // One message at the front; the counter tells whether the oldest one has to go.
  function Pushed(c: Cache, e: Entry): Cache {
    if c.num == c.max then c.(messages := ([e] + c.messages)[..|c.messages|])
    else c.(messages := [e] + c.messages, num := c.num + 1)
  }

  function NewestFirst(es: seq<Entry>): (r: seq<Entry>)
    ensures |r| == |es| && forall i :: 0 <= i < |es| ==> r[i] == es[|es| - 1 - i]
  {
    if es == [] then [] else [es[|es| - 1]] + NewestFirst(es[..|es| - 1])
  }

  // All messages of an exception at the front, cut to size once at the end.
  function PushedAll(c: Cache, es: seq<Entry>): Cache {
    var ms, n := NewestFirst(es) + c.messages, c.num + |es|;
    if n > c.max then c.(messages := Shortened(ms, c.max), num := c.max) else c.(messages := ms, num := n)
  }

  function Resized(c: Cache, size: nat): Cache {
    if size < c.num then c.(messages := Shortened(c.messages, size), num := size, max := size) else c.(max := size)
  }

  function Entries(level: int, component: string, time: int, texts: seq<string>): (es: seq<Entry>)
    ensures |es| == |texts|
    ensures forall i :: 0 <= i < |texts| ==> es[i] == Entry(level, component, time, "[EXCEPTION] " + texts[i])
  {
    seq(|texts|, i requires 0 <= i < |texts| => Entry(level, component, time, "[EXCEPTION] " + texts[i]))
  }

  // ---------------------------------------------------------------- the logger

  class CacheLogger {
    var messages: seq<Entry>
    var numEntries: nat
    var maxNumEntries: nat
    var logLevel: int

    ghost function State(): Cache
      reads this
    {
      Cache(messages, numEntries, maxNumEntries, logLevel)
    }

    // The counter counts the messages, and there are never too many.
    ghost predicate Valid()
      reads this
    {
      Counted(State())
    }

    constructor (numEntries: nat, level: int)
      ensures Valid() && State() == Cache([], 0, numEntries, level)
    {
      messages, this.numEntries, maxNumEntries, logLevel := [], 0, numEntries, level;
    }

    // Logger::set_loglevel.
    method SetLoglevel(level: int)
      requires Valid()
      modifies this
      ensures State() == Do(old(State()), SetLevel(level)) && Valid()
    {
      logLevel := level;
    }

    method Clear()
      modifies this
      ensures State() == old(State()).(messages := [], num := 0) && Valid()
    {
      numEntries := 0;
      messages := [];
    }

    method SetSize(newSize: nat)
      requires Valid()
      modifies this
      ensures State() == Resized(old(State()), newSize) && Valid()
    {
      if newSize < numEntries {
        numEntries := newSize;
        messages := messages[..numEntries];
      }
      maxNumEntries := newSize;
    }

    // push_message and tlog_push_message; text is None when the time or the message cannot be formatted.
    method PushMessage(level: int, component: string, time: int, text: Option<string>)
      requires Valid()
      modifies this
      ensures State() == Do(old(State()), Push(level, component, time, text)) && Valid()
    {
      if logLevel <= level {
        if text == None {
          return;
        }
        messages := [Entry(level, component, time, text.value)] + messages;
        if numEntries == maxNumEntries {
          messages := messages[..|messages| - 1];
        } else {
          numEntries := numEntries + 1;
        }
      }
    }

    // The same for the messages of an exception; stamped tells whether the time can be formatted.
    method PushException(level: int, component: string, time: int, texts: seq<string>, stamped: bool)
      requires Valid()
      modifies this
      ensures State() == Do(old(State()), PushAll(level, component, time, texts, stamped)) && Valid()
    {
      if logLevel <= level {
        if !stamped {
          return;
        }
        PrependAll(level, component, time, texts);
        if numEntries > maxNumEntries {
          numEntries := maxNumEntries;
          messages := messages[..maxNumEntries];
        }
      }
    }

    // The loop over the messages of an exception.
    method PrependAll(level: int, component: string, time: int, texts: seq<string>)
      modifies this`messages, this`numEntries
      ensures messages == NewestFirst(Entries(level, component, time, texts)) + old(messages)
      ensures numEntries == old(numEntries) + |texts|
    {
      ghost var es := Entries(level, component, time, texts);
      assert NewestFirst(es[..0]) + messages == messages;
      var i := 0;
      while i < |texts|
        invariant 0 <= i <= |texts|
        invariant messages == NewestFirst(es[..i]) + old(messages) && numEntries == old(numEntries) + i
      {
        assert es[..i + 1][..i] == es[..i];
        Associative([es[i]], NewestFirst(es[..i]), old(messages));
        messages := [Entry(level, component, time, "[EXCEPTION] " + texts[i])] + messages;
        numEntries := numEntries + 1;
        i := i + 1;
      }
      assert es[..|texts|] == es;
    }
  }

  // ---------------------------------------------------------------- runs

  datatype Event =
    | Push(level: int, component: string, time: int, text: Option<string>)
    | PushAll(level: int, component: string, time: int, texts: seq<string>, stamped: bool)
    | SetSize(size: nat)
    | SetLevel(level: int)
    | Clear

  function Do(c: Cache, e: Event): Cache {
    match e
    case Push(level, component, time, text) =>
      if c.level <= level && text.Some? then Pushed(c, Entry(level, component, time, text.value)) else c
    case PushAll(level, component, time, texts, stamped) =>
      if c.level <= level && stamped then PushedAll(c, Entries(level, component, time, texts)) else c
    case SetSize(size) => Resized(c, size)
    case SetLevel(level) => c.(level := level)
    case Clear => c.(messages := [], num := 0)
  }

  function Run(size: nat, level: int, es: seq<Event>): Cache {
    if es == [] then Cache([], 0, size, level)
    else Do(Run(size, level, es[..|es| - 1]), es[|es| - 1])
  }

  // The messages that one event brings under a log level, oldest first.
  function Arriving(level: int, e: Event): seq<Entry> {
    match e
    case Push(l, component, time, text) =>
      if level <= l && text.Some? then [Entry(l, component, time, text.value)] else []
    case PushAll(l, component, time, texts, stamped) =>
      if level <= l && stamped then Entries(l, component, time, texts) else []
    case SetSize(_) => []
    case SetLevel(_) => []
    case Clear => []
  }

  /** Everything accepted since the cache was cleared last, newest first. */
  function History(level: int, es: seq<Event>): seq<Entry> {
    if es == [] then []
    else
      var e := es[|es| - 1];
      if e.Clear? then [] else NewestFirst(Arriving(LevelAfter(level, es[..|es| - 1]), e)) + History(level, es[..|es| - 1])
  }

  // The number of events up to and including the last clear.
  function LastClear(es: seq<Event>): (n: nat)
    ensures n <= |es|
  {
    if es == [] then 0 else if es[|es| - 1].Clear? then |es| else LastClear(es[..|es| - 1])
  }

  // The size limit after an event sequence.
  function SizeAfter(size: nat, es: seq<Event>): nat {
    if es == [] then size
    else if es[|es| - 1].SetSize? then es[|es| - 1].size else SizeAfter(size, es[..|es| - 1])
  }

  // The log level after an event sequence.
  function LevelAfter(level: int, es: seq<Event>): int {
    if es == [] then level
    else if es[|es| - 1].SetLevel? then es[|es| - 1].level else LevelAfter(level, es[..|es| - 1])
  }

  ghost predicate Counted(c: Cache) {
    c.num == |c.messages| <= c.max
  }

  lemma DoCounted(c: Cache, e: Event)
    requires Counted(c)
    ensures Counted(Do(c, e)) && Do(c, e).level == (if e.SetLevel? then e.level else c.level)
    ensures !e.Clear? && !e.SetSize? ==>
              Do(c, e).messages == Shortened(NewestFirst(Arriving(c.level, e)) + c.messages, c.max)
  {
  }

  lemma DoHistory(c: Cache, e: Event, h: seq<Entry>)
    requires Counted(c) && c.messages <= h
    ensures Do(c, e).messages <= if e.Clear? then [] else NewestFirst(Arriving(c.level, e)) + h
  {
    DoCounted(c, e);
    if !e.Clear? {
      var front := NewestFirst(Arriving(c.level, e));
      assert front + c.messages <= front + h;
    }
  }

  lemma DoSize(c: Cache, e: Event)
    ensures Do(c, e).max == if e.SetSize? then e.size else c.max
  {
  }

  // The last event of a run.
  lemma LastEvent(size: nat, level: int, es: seq<Event>)
    requires es != []
    ensures var ds, e := es[..|es| - 1], es[|es| - 1];
            && Run(size, level, es) == Do(Run(size, level, ds), e)
            && History(level, es) == (if e.Clear? then [] else NewestFirst(Arriving(LevelAfter(level, ds), e)) + History(level, ds))
            && SizeAfter(size, es) == (if e.SetSize? then e.size else SizeAfter(size, ds))
            && LevelAfter(level, es) == (if e.SetLevel? then e.level else LevelAfter(level, ds))
  {
  }

  /** Over every run of pushes, exception pushes, resizes, changes of the log level and clears the cache is a prefix
      of the history, its counter is its length, and it never exceeds the limit that was set last. */
  lemma {:induction false} CacheIsPrefix(size: nat, level: int, es: seq<Event>)
    ensures var c := Run(size, level, es);
            && c.messages <= History(level, es)
            && c.num == |c.messages| <= c.max == SizeAfter(size, es)
            && c.level == LevelAfter(level, es)
    decreases |es|
  {
    if es != [] {
      var ds, e := es[..|es| - 1], es[|es| - 1];
      LastEvent(size, level, es);
      hide Run, History, SizeAfter, LevelAfter, Do, Arriving, NewestFirst;
      CacheIsPrefix(size, level, ds);
      DoCounted(Run(size, level, ds), e);
      DoHistory(Run(size, level, ds), e, History(level, ds));
      DoSize(Run(size, level, ds), e);
    }
  }

  // The lengths of history and cache after the last event.
  lemma LastLengths(size: nat, level: int, es: seq<Event>)
    requires es != [] && !es[|es| - 1].Clear?
    ensures var ds, e := es[..|es| - 1], es[|es| - 1]; var p := |Arriving(LevelAfter(level, ds), e)|;
            && |History(level, es)| == p + |History(level, ds)|
            && var n, m := p + |Run(size, level, ds).messages|, SizeAfter(size, es);
               |Run(size, level, es).messages| == if n < m then n else m
  {
    var ds, e := es[..|es| - 1], es[|es| - 1];
    LastEvent(size, level, es);
    CacheIsPrefix(size, level, ds);
    hide Run, History, SizeAfter, LevelAfter;
    DoCounted(Run(size, level, ds), e);
  }

  // How many messages have come since the first k events.
  function Newer(level: int, es: seq<Event>, k: nat): int
    requires k <= |es|
  {
    |History(level, es)| - |History(level, es[..k])|
  }

  // At no moment since the i-th newest message was accepted, or since the last clear, were there as many newer
  // messages as the cache could hold.
  ghost predicate AlwaysFits(size: nat, level: int, es: seq<Event>, i: nat) {
    forall k :: LastClear(es) <= k <= |es| && Newer(level, es, k) <= i ==> i - Newer(level, es, k) < SizeAfter(size, es[..k])
  }

  // An event that brings p messages moves every earlier message p places down.
  lemma MomentShift(size: nat, level: int, ds: seq<Event>, e: Event, k: nat)
    requires !e.Clear? && k <= |ds|
    ensures var es := ds + [e];
            && LastClear(es) == LastClear(ds) && es[..k] == ds[..k] && es[..|es|] == es
            && Newer(level, es, k) == |Arriving(LevelAfter(level, ds), e)| + Newer(level, ds, k)
            && Newer(level, es, |es|) == 0
  {
    var es := ds + [e];
    assert es[..|ds|] == ds && es[..|es|] == es;
  }

  lemma MomentsBefore(size: nat, level: int, ds: seq<Event>, e: Event, i: nat)
    requires !e.Clear?
    ensures var es, p := ds + [e], |Arriving(LevelAfter(level, ds), e)|;
            AlwaysFits(size, level, es, i) <==>
              i < SizeAfter(size, es) && (i >= p ==> AlwaysFits(size, level, ds, i - p))
  {
    hide Newer, LastClear, SizeAfter, LevelAfter, Arriving;
    var es, p := ds + [e], |Arriving(LevelAfter(level, ds), e)|;
    forall k | 0 <= k <= |ds|
      ensures LastClear(es) == LastClear(ds) && es[..k] == ds[..k] && es[..|es|] == es
      ensures Newer(level, es, k) == p + Newer(level, ds, k) && Newer(level, es, |es|) == 0
    {
      MomentShift(size, level, ds, e, k);
    }
    MomentShift(size, level, ds, e, 0);
    HistoryGrows(level, ds);
    if AlwaysFits(size, level, es, i) {
      assert i - Newer(level, es, |es|) < SizeAfter(size, es[..|es|]);
      if i >= p {
        forall k | LastClear(ds) <= k <= |ds| && Newer(level, ds, k) <= i - p
          ensures i - p - Newer(level, ds, k) < SizeAfter(size, ds[..k])
        {
          assert Newer(level, es, k) <= i;
        }
      }
    }
  }

  // Between clears the history only grows.
  lemma {:induction false} HistoryGrows(level: int, es: seq<Event>)
    ensures forall k :: LastClear(es) <= k <= |es| ==> Newer(level, es, k) >= 0
    decreases |es|
  {
    if es != [] && !es[|es| - 1].Clear? {
      var ds := es[..|es| - 1];
      HistoryGrows(level, ds);
      forall k | LastClear(es) <= k <= |es|
        ensures Newer(level, es, k) >= 0
      {
        if k <= |ds| {
          assert es[..k] == ds[..k];
          assert Newer(level, ds, k) >= 0;
        } else {
          assert es[..k] == es;
        }
      }
    } else {
      assert es[..|es|] == es;
    }
  }

  /** A message of the history is still cached exactly when at every moment since it came the newer messages
      left room for it, under the size limit of that moment. */
  lemma {:induction false} Survives(size: nat, level: int, es: seq<Event>, i: nat)
    requires i < |History(level, es)|
    ensures i < |Run(size, level, es).messages| <==> AlwaysFits(size, level, es, i)
    decreases |es|
  {
    hide Run, History, SizeAfter, LevelAfter, Arriving, AlwaysFits;
    SurvivesStep(size, level, es, i);
    var p := LastCount(level, es);
    if i >= p {
      Survives(size, level, es[..|es| - 1], i - p);
    }
  }

  // The number of messages that the last event brings.
  function LastCount(level: int, es: seq<Event>): nat
    requires es != []
  {
    |Arriving(LevelAfter(level, es[..|es| - 1]), es[|es| - 1])|
  }

  // Before the last event: a message that was not brought by it was that many places further up.
  lemma SurvivesStep(size: nat, level: int, es: seq<Event>, i: nat)
    requires i < |History(level, es)|
    ensures es != []
    ensures var ds, p, m := es[..|es| - 1], LastCount(level, es), SizeAfter(size, es);
            && (i >= p ==> i - p < |History(level, ds)|)
            && (i < |Run(size, level, es).messages| <==> i < m && (i >= p ==> i - p < |Run(size, level, ds).messages|))
            && (AlwaysFits(size, level, es, i) <==> i < m && (i >= p ==> AlwaysFits(size, level, ds, i - p)))
  {
    hide Run, History, SizeAfter, LevelAfter, Arriving, AlwaysFits;
    NotCleared(level, es);
    LastLengths(size, level, es);
    MomentsBefore(size, level, es[..|es| - 1], es[|es| - 1], i);
    assert es[..|es| - 1] + [es[|es| - 1]] == es;
  }

  lemma NotCleared(level: int, es: seq<Event>)
    ensures History(level, es) != [] ==> es != [] && !es[|es| - 1].Clear?
  {
  }

  /** While the size is never changed, the cache holds as much of the history as fits. */
  lemma {:induction false} ConstantSize(size: nat, level: int, es: seq<Event>)
    requires forall i :: 0 <= i < |es| ==> !es[i].SetSize?
    ensures var h := History(level, es);
            Run(size, level, es).messages == Shortened(h, size)
    decreases |es|
  {
    CacheIsPrefix(size, level, es);
    if es != [] {
      var ds, e := es[..|es| - 1], es[|es| - 1];
      ConstantSize(size, level, ds);
      CacheIsPrefix(size, level, ds);
      SizeUnchanged(size, es);
      DoCounted(Run(size, level, ds), e);
    }
  }

  lemma {:induction false} SizeUnchanged(size: nat, es: seq<Event>)
    requires forall i :: 0 <= i < |es| ==> !es[i].SetSize?
    ensures SizeAfter(size, es) == size
    decreases |es|
  {
    if es != [] {
      SizeUnchanged(size, es[..|es| - 1]);
    }
  }

  // ---------------------------------------------------------------- the history, event by event

  /** A message is in the history, in front of everything before it, exactly when it could be formatted and its level
      is not below the log level of that moment. The messages of an exception come with a mark and last one first. */
  lemma HistoryAfter(level: int, es: seq<Event>, e: Event)
    ensures History(level, []) == []
    ensures var h, r, now := History(level, es), History(level, es + [e]), LevelAfter(level, es);
            && (e.Clear? ==> r == [])
            && (e.SetSize? || e.SetLevel? ==> r == h)
            && (e.Push? ==>
                  r == if e.level < now || e.text == None then h
                       else [Entry(e.level, e.component, e.time, e.text.value)] + h)
            && (e.PushAll? && (e.level < now || !e.stamped) ==> r == h)
            && (e.PushAll? && e.level >= now && e.stamped ==> var n := |e.texts|;
                  && |r| == n + |h| && r[n..] == h
                  && forall i :: 0 <= i < n ==>
                       r[i] == Entry(e.level, e.component, e.time, "[EXCEPTION] " + e.texts[n - 1 - i]))
  {
    hide LevelAfter, NewestFirst, History;
    OneMore(level, es, e);
    var front, now := Arriving(LevelAfter(level, es), e), LevelAfter(level, es);
    if e.PushAll? && e.level >= now && e.stamped {
      assert |front| == |e.texts|;
    }
  }

  lemma OneMore(level: int, es: seq<Event>, e: Event)
    ensures History(level, []) == []
    ensures var front, r := Arriving(LevelAfter(level, es), e), History(level, es + [e]);
            && (e.Clear? ==> r == [])
            && (!e.Clear? ==>
                  && (front == [] ==> r == History(level, es))
                  && (|front| == 1 ==> r == front + History(level, es))
                  && |r| == |front| + |History(level, es)| && r[|front|..] == History(level, es)
                  && forall i :: 0 <= i < |front| ==> r[i] == front[|front| - 1 - i])
  {
    assert (es + [e])[..|es|] == es;
    LastEvent(0, level, es + [e]);
    NoHistory(level);
    hide LevelAfter, Arriving, NewestFirst, History;
    Front(Arriving(LevelAfter(level, es), e), History(level, es));
  }

  lemma NoHistory(level: int)
    ensures History(level, []) == []
  {
  }

  lemma Front(front: seq<Entry>, h: seq<Entry>)
    ensures var r := NewestFirst(front) + h;
            && (front == [] ==> r == h) && (|front| == 1 ==> r == front + h)
            && |r| == |front| + |h| && r[|front|..] == h
            && forall i :: 0 <= i < |front| ==> r[i] == front[|front| - 1 - i]
  {
    hide NewestFirst;
    assert |front| == 1 ==> NewestFirst(front) == front;
  }

  ghost predicate KeepsSize(es: seq<Event>) {
    forall i :: 0 <= i < |es| ==> !es[i].SetSize?
  }

  ghost predicate KeepsLevel(es: seq<Event>) {
    forall i :: 0 <= i < |es| ==> !es[i].SetLevel?
  }

  /** The last change of the size or of the log level counts, the initial value if there is none. */
  lemma {:induction false} LastChangeCounts(size: nat, level: int, es: seq<Event>, e: Event, fs: seq<Event>)
    ensures KeepsSize(fs) ==> SizeAfter(size, fs) == size && (e.SetSize? ==> SizeAfter(size, es + [e] + fs) == e.size)
    ensures KeepsLevel(fs) ==> LevelAfter(level, fs) == level && (e.SetLevel? ==> LevelAfter(level, es + [e] + fs) == e.level)
    decreases |fs|
  {
    if fs == [] {
      assert es + [e] + fs == es + [e];
    } else {
      var gs := fs[..|fs| - 1];
      LastChangeCounts(size, level, es, e, gs);
      assert (es + [e] + fs)[..|es + [e] + fs| - 1] == es + [e] + gs;
    }
  }

  // ---------------------------------------------------------------- one message at a time

  function PushedOneByOne(c: Cache, es: seq<Entry>): Cache
    decreases |es|
  {
    if es == [] then c else PushedOneByOne(Pushed(c, es[0]), es[1..])
  }

  lemma PushedIsShortened(c: Cache, e: Entry)
    requires Counted(c)
    ensures Pushed(c, e) == PushedAll(c, [e]) && Counted(Pushed(c, e))
  {
    assert NewestFirst([e]) == [e];
  }

  lemma {:induction false} NewestFirstAppend(es: seq<Entry>, fs: seq<Entry>)
    ensures NewestFirst(es + fs) == NewestFirst(fs) + NewestFirst(es)
  {
  }

  lemma ShortenedTwice(a: seq<Entry>, b: seq<Entry>, n: nat)
    ensures Shortened(a + Shortened(b, n), n) == Shortened(a + b, n)
  {
  }

  /** Pushing an exception is the same as pushing its messages one at a time. */
  lemma {:induction false} ExceptionIsOneByOne(c: Cache, es: seq<Entry>)
    requires Counted(c)
    ensures PushedAll(c, es) == PushedOneByOne(c, es)
    decreases |es|
  {
    if es != [] {
      var d := Pushed(c, es[0]);
      PushedIsShortened(c, es[0]);
      ExceptionIsOneByOne(d, es[1..]);
      assert [es[0]] + es[1..] == es;
      NewestFirstAppend([es[0]], es[1..]);
      assert NewestFirst([es[0]]) == [es[0]];
      ShortenedTwice(NewestFirst(es[1..]), [es[0]] + c.messages, c.max);
      Associative(NewestFirst(es[1..]), [es[0]], c.messages);
    }
  }
}
