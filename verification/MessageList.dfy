/** The message list of an exception: a singly linked list with a pointer to its last node, changed in place. */
module MessageList {
  import opened Basics

  // ---------------------------------------------------------------- message texts

  // What printf makes of a format without arguments: None when it holds a directive other than "%%".
  function Formatted(f: string): Option<string> {
    if f == "" then Some("")
    else if f[0] != '%' then Prefixed(f[0], Formatted(f[1..]))
    else if |f| > 1 && f[1] == '%' then Prefixed('%', Formatted(f[2..]))
    else None
  }

  function Prefixed(ch: char, s: Option<string>): Option<string> {
    match s
    case Some(t) => Some([ch] + t)
    case None => None
  }

  // The text with every percent sign doubled.
  function Doubled(s: string): string {
    if s == "" then "" else (if s[0] == '%' then "%%" else [s[0]]) + Doubled(s[1..])
  }

  /** Formatting takes back the doubling of percent signs, and succeeds for nothing else. */
  lemma {:induction false} FormattedUndoesDoubling(f: string, s: string)
    ensures Formatted(f) == Some(s) <==> f == Doubled(s)
  {
    if f == "" {
    } else if f[0] != '%' {
      if s != "" {
        FormattedUndoesDoubling(f[1..], s[1..]);
        assert s == [s[0]] + s[1..] && f == [f[0]] + f[1..];
        assert s[0] != '%' ==> Doubled(s)[1..] == Doubled(s[1..]);
      }
    } else if |f| > 1 && f[1] == '%' {
      if s != "" {
        FormattedUndoesDoubling(f[2..], s[1..]);
        assert s == [s[0]] + s[1..] && f == "%%" + f[2..];
        assert s[0] == '%' ==> Doubled(s)[2..] == Doubled(s[1..]);
      }
    }
  }

  lemma {:induction false} DoubledLength(s: string)
    ensures |Doubled(s)| >= |s| && ('%' in s ==> |Doubled(s)| > |s|) && ('%' !in s ==> Doubled(s) == s)
  {
    if s != "" {
      DoubledLength(s[1..]);
      assert s == [s[0]] + s[1..];
    }
  }

  /** A message survives being copied exactly when it holds no percent sign. */
  lemma FormattedIsSame(f: string)
    ensures Formatted(f) == Some(f) <==> '%' !in f
  {
    FormattedUndoesDoubling(f, f);
    DoubledLength(f);
  }

  /** What vasprintf makes of a format without arguments. Formats with directives that need arguments, or that
      read other state, are left open. */
  ghost predicate Printf(expand: string -> string) {
    forall f :: Formatted(f).Some? ==> expand(f) == Formatted(f).value
  }

  // The messages as a copy holds them.
  function Copied(expand: string -> string, ms: seq<string>): (r: seq<string>)
    ensures |r| == |ms| && forall i :: 0 <= i < |ms| ==> r[i] == expand(ms[i])
  {
    seq(|ms|, i requires 0 <= i < |ms| => expand(ms[i]))
  }

  // Every percent sign is doubled.
  ghost predicate Escaped(ms: seq<string>) {
    forall i :: 0 <= i < |ms| ==> Formatted(ms[i]).Some?
  }

  ghost predicate Plain(ms: seq<string>) {
    forall i :: 0 <= i < |ms| ==> '%' !in ms[i]
  }

  /** Copying is faithful when no message holds a percent sign, and among messages whose percent signs are all
      doubled only then. */
  lemma CopyIsFaithful(expand: string -> string, ms: seq<string>)
    requires Printf(expand)
    ensures Plain(ms) ==> Escaped(ms) && Copied(expand, ms) == ms
    ensures Escaped(ms) ==> (Copied(expand, ms) == ms <==> Plain(ms))
  {
    forall i | 0 <= i < |ms|
      ensures '%' !in ms[i] ==> Formatted(ms[i]).Some? && Copied(expand, ms)[i] == ms[i]
      ensures Formatted(ms[i]).Some? ==> (Copied(expand, ms)[i] == ms[i] <==> '%' !in ms[i])
    {
      FormattedIsSame(ms[i]);
    }
  }

  // ---------------------------------------------------------------- the list

  class Message {
    var next: Message?
    var msg: string

    constructor (msg: string, next: Message?)
      ensures this.msg == msg && this.next == next
    {
      this.msg := msg;
      this.next := next;
    }
  }

  // The node at position i, null behind the last one.
  function At(spine: seq<Message>, i: nat): Message? {
    if i < |spine| then spine[i] else null
  }

  class Exception {
    var messages: Message?
    var messagesEnd: Message?
    var messagesIterator: Message?
    // The nodes from the first to the last, and their texts.
    ghost var spine: seq<Message>
    ghost var contents: seq<string>
    ghost var repr: set<Message>

    /** The spine names no node twice, each node points to the next one and the last one to nothing, and the
        two pointers are its ends. */
    ghost predicate Valid()
      reads this`messages, this`messagesEnd, this`spine, this`contents, this`repr, repr
    {
      && (forall i :: 0 <= i < |spine| ==> spine[i] in repr)
      && (forall i, j :: 0 <= i < j < |spine| ==> spine[i] != spine[j])
      && (forall i {:trigger spine[i].next} :: 0 <= i < |spine| ==> spine[i].next == At(spine, i + 1))
      && |contents| == |spine| && (forall i {:trigger spine[i].msg} :: 0 <= i < |spine| ==> spine[i].msg == contents[i])
      && messages == At(spine, 0)
      && (spine != [] ==> messagesEnd == spine[|spine| - 1])
    }

    // The constructor for subclasses.
    constructor ()
      ensures Valid() && spine == [] && contents == []
    {
      messages, messagesEnd, messagesIterator := null, null, null;
      spine, contents, repr := [], [], {};
    }

    // The constructor with a message, after formatting.
    constructor Text(text: string)
      ensures Valid() && fresh(repr) && contents == [text]
    {
      messages, messagesEnd, messagesIterator := null, null, null;
      spine, contents, repr := [], [], {};
      new;
      AppendNolock(text);
    }

    // The copy constructor.
    constructor Copy(exc: Exception, expand: string -> string)
      requires exc.Valid()
      ensures Valid() && fresh(repr) && contents == Copied(expand, exc.contents)
      ensures exc.Valid()
    {
      messages, messagesEnd, messagesIterator := null, null, null;
      spine, contents, repr := [], [], {};
      new;
      CopyMessages(exc, expand);
    }

    // append_nolock, append_nolock_va and append_nolock_nocopy, given the formatted message.
    method AppendNolock(text: string)
      requires Valid()
      modifies this, repr
      ensures Valid() && spine != [] && contents == old(contents) + [text]
      ensures repr == old(repr) + {spine[|spine| - 1]} && fresh(spine[|spine| - 1])
      ensures messagesIterator == old(messagesIterator)
    {
      var ml := new Message(text, null);
      if messages == null {
        messages := ml;
      } else {
        messagesEnd.next := ml;
      }
      messagesEnd := ml;
      spine, contents, repr := spine + [ml], contents + [text], repr + {ml};
    }

    method Prepend(text: string)
      requires Valid()
      modifies this, repr
      ensures Valid() && contents == [text] + old(contents)
      ensures spine != [] && repr == old(repr) + {spine[0]} && fresh(spine[0])
    {
      var ml := new Message(text, messages);
      if messages == null {
        messagesEnd := ml;
      }
      messages := ml;
      spine, contents, repr := [ml] + spine, [text] + contents, repr + {ml};
    }

    // Both exceptions are locked while the messages are copied, so they cannot be the same one.
    method CopyMessages(exc: Exception, expand: string -> string)
      requires Valid() && exc.Valid() && exc != this && repr !! exc.repr
      modifies this, repr
      ensures Valid() && exc.Valid() && contents == old(contents) + Copied(expand, exc.contents)
      ensures old(repr) <= repr && fresh(repr - old(repr))
      ensures repr !! exc.repr
    {
      hide Valid, Copied;
      messagesIterator := exc.messages;
      NodeAt(exc, 0);
      ghost var i := 0;
      while messagesIterator != null
        invariant Valid() && exc.Valid() && 0 <= i <= |exc.spine|
        invariant messagesIterator == At(exc.spine, i)
        invariant old(repr) <= repr && fresh(repr - old(repr)) && repr !! exc.repr
        invariant contents == old(contents) + Copied(expand, exc.contents)[..i]
        decreases |exc.spine| - i
      {
        NodeAt(exc, i);
        CopiedStep(expand, exc.contents, i);
        Associative(old(contents), Copied(expand, exc.contents)[..i], [expand(messagesIterator.msg)]);
        AppendNolock(expand(messagesIterator.msg));
        messagesIterator := messagesIterator.next;
        i := i + 1;
      }
    }

    // operator= keeps the messages that are there already.
    method Assign(exc: Exception, expand: string -> string)
      requires Valid() && exc.Valid() && exc != this && repr !! exc.repr
      modifies this, repr
      ensures Valid() && exc.Valid() && contents == old(contents) + Copied(expand, exc.contents)
      ensures old(repr) <= repr && fresh(repr - old(repr)) && repr !! exc.repr
    {
      CopyMessages(exc, expand);
    }

    // The destructor's loop: every node of the list is freed, each after its successor was read.
    method Destroy() returns (freed: seq<Message>)
      requires Valid()
      modifies this
      ensures freed == old(spine) && (forall i, j :: 0 <= i < j < |freed| ==> freed[i] != freed[j])
      ensures Valid() && spine == [] && messages == null && messagesEnd == null
    {
      hide Valid;
      Distinct(this);
      NodeAt(this, 0);
      freed := [];
      messagesIterator := messages;
      while messagesIterator != null
        invariant |freed| <= |spine| && freed == spine[..|freed|] && messagesIterator == At(spine, |freed|)
        invariant Valid() && spine == old(spine) && repr == old(repr)
        decreases |spine| - |freed|
      {
        var msgThis := messagesIterator;
        NodeAt(this, |freed|);
        assert msgThis !in freed;
        messagesIterator := messagesIterator.next;
        freed := freed + [msgThis];
      }
      messages := null;
      messagesEnd := null;
      spine, contents, repr := [], [], {};
      EmptyList(this);
    }

    // what: the first message.
    method What() returns (s: string)
      requires Valid()
      ensures s == if contents == [] then "Unknown error" else contents[0]
    {
      s := if messages != null then messages.msg else "Unknown error";
    }

    // print_trace: the lines between the two rules.
    method Trace() returns (lines: seq<string>)
      requires Valid()
      modifies this`messagesIterator
      ensures Valid() && lines == if contents == [] then ["No messages recorded."] else contents
    {
      lines := [];
      if messages == null {
        return ["No messages recorded."];
      }
      messagesIterator := messages;
      while messagesIterator != null
        invariant Valid() && |lines| <= |contents| && lines == contents[..|lines|]
        invariant messagesIterator == At(spine, |lines|)
        decreases |spine| - |lines|
      {
        NodeAt(this, |lines|);
        lines := lines + [messagesIterator.msg];
        messagesIterator := messagesIterator.next;
      }
    }
  }

  lemma CopiedStep(expand: string -> string, ms: seq<string>, i: nat)
    requires i < |ms|
    ensures Copied(expand, ms)[..i + 1] == Copied(expand, ms)[..i] + [expand(ms[i])]
  {
  }

  lemma Distinct(e: Exception)
    requires e.Valid()
    ensures forall i, j :: 0 <= i < j < |e.spine| ==> e.spine[i] != e.spine[j]
  {
  }

  lemma EmptyList(e: Exception)
    requires e.spine == [] && e.contents == [] && e.messages == null
    ensures e.Valid()
  {
  }

  // What a walk along the list finds at position i.
  lemma NodeAt(e: Exception, i: nat)
    requires e.Valid() && i <= |e.spine|
    ensures |e.contents| == |e.spine| && e.messages == At(e.spine, 0)
    ensures At(e.spine, i) != null <==> i < |e.spine|
    ensures i < |e.spine| ==>
              e.spine[i] in e.repr && e.spine[i].msg == e.contents[i] && e.spine[i].next == At(e.spine, i + 1)
  {
  }

  // ---------------------------------------------------------------- many exceptions at once

  datatype Action =
    | Append(at: nat, text: string)
    | Prepend(at: nat, text: string)
    | CopyFrom(at: nat, source: nat)

  // An exception is never copied into itself.
  ghost predicate Legal(ms: seq<seq<string>>, a: Action) {
    && a.at < |ms|
    && (a.CopyFrom? ==> a.source < |ms| && a.source != a.at)
  }

  ghost function Apply(expand: string -> string, ms: seq<seq<string>>, a: Action): seq<seq<string>>
    requires Legal(ms, a)
  {
    match a
    case Append(at, text) => ms[at := ms[at] + [text]]
    case Prepend(at, text) => ms[at := [text] + ms[at]]
    case CopyFrom(at, source) => ms[at := ms[at] + Copied(expand, ms[source])]
  }

  ghost predicate AllLegal(expand: string -> string, ms: seq<seq<string>>, actions: seq<Action>)
    decreases |actions|
  {
    actions == [] || (Legal(ms, actions[0]) && AllLegal(expand, Apply(expand, ms, actions[0]), actions[1..]))
  }

  ghost function ApplyAll(expand: string -> string, ms: seq<seq<string>>, actions: seq<Action>): seq<seq<string>>
    requires AllLegal(expand, ms, actions)
    decreases |actions|
  {
    if actions == [] then ms else ApplyAll(expand, Apply(expand, ms, actions[0]), actions[1..])
  }

  /** The last action adds its message, or the copies of another exception's messages, to one exception; the others
      keep theirs. */
  lemma {:induction false} LastAction(expand: string -> string, ms: seq<seq<string>>, actions: seq<Action>, a: Action)
    requires AllLegal(expand, ms, actions) && Legal(ApplyAll(expand, ms, actions), a)
    ensures ApplyAll(expand, ms, []) == ms && AllLegal(expand, ms, actions + [a])
    ensures var before, after := ApplyAll(expand, ms, actions), ApplyAll(expand, ms, actions + [a]);
            && |after| == |before| && (forall k :: 0 <= k < |before| && k != a.at ==> after[k] == before[k])
            && match a
               case Append(at, text) => after[at] == before[at] + [text]
               case Prepend(at, text) => after[at] == [text] + before[at]
               case CopyFrom(at, source) => after[at] == before[at] + Copied(expand, before[source])
    decreases |actions|
  {
    if actions == [] {
      assert actions + [a] == [a] && [a][1..] == [];
    } else {
      assert (actions + [a])[0] == actions[0] && (actions + [a])[1..] == actions[1..] + [a];
      LastAction(expand, Apply(expand, ms, actions[0]), actions[1..], a);
    }
  }

  /** Different exceptions with lists of their own. */
  ghost predicate Family(es: seq<Exception>)
    reads es, Nodes(es)
  {
    && (forall k :: 0 <= k < |es| ==> es[k].Valid())
    && (forall k, l :: 0 <= k < l < |es| ==> es[k] != es[l] && es[k].repr !! es[l].repr)
  }

  ghost function Nodes(es: seq<Exception>): set<Message>
    reads es
  {
    set k, n | 0 <= k < |es| && n in es[k].repr :: n
  }

  ghost predicate Shows(es: seq<Exception>, ms: seq<seq<string>>)
    reads es
  {
    |ms| == |es| && forall k :: 0 <= k < |es| ==> es[k].contents == ms[k]
  }

  method Act(es: seq<Exception>, a: Action, expand: string -> string, ghost ms: seq<seq<string>>)
    requires Family(es) && Shows(es, ms) && Legal(ms, a)
    modifies es[a.at], es[a.at].repr
    ensures Family(es) && Shows(es, Apply(expand, ms, a))
    ensures fresh(Nodes(es) - old(Nodes(es)))
  {
    hide Exception.Valid, Copied;
    match a
    case Append(at, text) => es[at].AppendNolock(text);
    case Prepend(at, text) => es[at].Prepend(text);
    case CopyFrom(at, source) => es[at].CopyMessages(es[source], expand);
  }

  /** Under any mix of appending, prepending and copying from a different exception, every exception keeps a
      well-formed list of its own with the expected messages, and no node is ever shared. */
  method Replay(es: seq<Exception>, actions: seq<Action>, expand: string -> string, ghost ms: seq<seq<string>>)
    requires Family(es) && Shows(es, ms) && AllLegal(expand, ms, actions)
    modifies es, Nodes(es)
    ensures Family(es) && Shows(es, ApplyAll(expand, ms, actions))
  {
    hide Family, Shows, Legal, Apply;
    var todo := actions;
    ghost var now := ms;
    while todo != []
      invariant Family(es) && Shows(es, now) && AllLegal(expand, now, todo) && ApplyAll(expand, now, todo) == ApplyAll(expand, ms, actions)
      invariant fresh(Nodes(es) - old(Nodes(es)))
      decreases |todo|
    {
      LegalIndex(es, now, todo[0]);
      ghost var before := Nodes(es);
      Act(es, todo[0], expand, now);
      now := Apply(expand, now, todo[0]);
      todo := todo[1..];
    }
  }

  lemma LegalIndex(es: seq<Exception>, ms: seq<seq<string>>, a: Action)
    requires Shows(es, ms) && Legal(ms, a)
    ensures a.at < |es| && es[a.at].repr <= Nodes(es)
  {
  }

  ghost predicate PlainAction(n: nat, a: Action) {
    a.at < n && if a.CopyFrom? then a.source < n && a.source != a.at else '%' !in a.text
  }

  /** Among messages without percent signs every copy is faithful, for any number of actions: the result does not
      depend on what printf does. */
  lemma {:induction false} PlainRun(expand: string -> string, ms: seq<seq<string>>, actions: seq<Action>)
    requires Printf(expand) && forall k :: 0 <= k < |ms| ==> Plain(ms[k])
    requires forall i :: 0 <= i < |actions| ==> PlainAction(|ms|, actions[i])
    ensures AllLegal(expand, ms, actions) && AllLegal(Same, ms, actions)
    ensures ApplyAll(expand, ms, actions) == ApplyAll(Same, ms, actions)
    decreases |actions|
  {
    if actions != [] {
      var a := actions[0];
      if a.CopyFrom? {
        CopyIsFaithful(expand, ms[a.source]);
        assert Copied(Same, ms[a.source]) == ms[a.source];
      }
      assert Apply(expand, ms, a) == Apply(Same, ms, a);
      PlainRun(expand, Apply(expand, ms, a), actions[1..]);
    }
  }

  function Same(f: string): string {
    f
  }
}
