/** Loading a configuration: the queue of files to read, the includes that extend it, and the overlay
    of everything read, the host-specific document last. */
module ConfigLoad {
  import opened Basics
  import opened ConfigTree
  import opened ConfigMerge
  import opened ConfigDocument
  import opened KeyOrder

  // ---------------------------------------------------------------- files

  datatype Mark = Plain | IgnoreMissing | HostSpecific

  datatype Include = Include(text: string, mark: Mark)

  datatype File =
    | Unparsable
    | NoDocument
    | ConfigOnly(doc: Doc)
    | WithMeta(includes: seq<Include>, doc: Doc)

  /** The readable files, and the readable directories with the names of the YAML files in them. */
  datatype Disk = Disk(files: map<string, File>, dirs: map<string, set<string>>, confdir: string)

  datatype QueueEntry = QueueEntry(filename: string, ignoreMissing: bool, isDir: bool)

  datatype LoadError =
    | NoSuchFile
    | BadSyntax
    | SecondHostFile
    | EmptyInclude
    | NoSuchDirectory
    | IncludeInHostFile
    | InDocument(error: Error)

  datatype Loaded<+T> = Ok(value: T) | Err(error: LoadError)

  ghost predicate DiskOk(disk: Disk) {
    forall f :: f in disk.files ==> FileOk(disk.files[f])
  }

  ghost predicate FileOk(f: File) {
    (f.ConfigOnly? || f.WithMeta?) && f.doc.Mapping? ==> KeysOk(f.doc.entries)
  }

  // ---------------------------------------------------------------- the meta document

  function Absolute(disk: Disk, path: string): string {
    if path != "" && path[0] == '/' then path else disk.confdir + "/" + path
  }

  predicate NamesDirectory(text: string) {
    text != "" && text[|text| - 1] == '/'
  }

  function EntriesFor(names: seq<string>, ignoreMissing: bool): (es: seq<QueueEntry>)
    ensures |es| == |names|
    ensures forall i :: 0 <= i < |names| ==> es[i] == QueueEntry(names[i], ignoreMissing, false)
  {
    seq(|names|, i requires 0 <= i < |names| => QueueEntry(names[i], ignoreMissing, false))
  }

  // The queue entries that one include adds, in order.
  ghost function Pushed(disk: Disk, inc: Include): seq<QueueEntry> {
    var path := Absolute(disk, inc.text);
    if inc.mark == HostSpecific || inc.text == "" then []
    else if !NamesDirectory(inc.text) then [QueueEntry(path, inc.mark == IgnoreMissing, false)]
    else if path !in disk.dirs then []
    else
      [QueueEntry(path, inc.mark == IgnoreMissing, true)]
      + EntriesFor(Sorted(set n | n in disk.dirs[path] :: path + n), inc.mark == IgnoreMissing)
  }

  // The host file after one include, or the exception it raises.
  function HostAfter(disk: Disk, inc: Include, host: string): Loaded<string> {
    if inc.mark == HostSpecific then
      if host != "" then Err(SecondHostFile) else Ok(Absolute(disk, inc.text))
    else if inc.text == "" then Err(EmptyInclude)
    else if NamesDirectory(inc.text) && Absolute(disk, inc.text) !in disk.dirs && inc.mark != IgnoreMissing
      then Err(NoSuchDirectory)
    else Ok(host)
  }

  ghost function PushedAll(disk: Disk, incs: seq<Include>): seq<QueueEntry> {
    if incs == [] then [] else Pushed(disk, incs[0]) + PushedAll(disk, incs[1..])
  }

  function HostAfterAll(disk: Disk, incs: seq<Include>, host: string): Loaded<string> {
    if incs == [] then Ok(host)
    else
      match HostAfter(disk, incs[0], host)
      case Ok(h) => HostAfterAll(disk, incs[1..], h)
      case Err(e) => Err(e)
  }

  // One include: what it appends to the queue and the host file after it.
  method ReadInclude(disk: Disk, inc: Include, host: string) returns (r: Loaded<string>, pushed: seq<QueueEntry>)
    ensures r == HostAfter(disk, inc, host)
    ensures r.Ok? ==> pushed == Pushed(disk, inc)
  {
    pushed := [];
    if inc.mark == HostSpecific {
      if host != "" {
        return Err(SecondHostFile), [];
      }
      return Ok(Absolute(disk, inc.text)), [];
    }
    if inc.text == "" {
      return Err(EmptyInclude), [];
    }
    var path := Absolute(disk, inc.text);
    if NamesDirectory(inc.text) {
      if path !in disk.dirs {
        if inc.mark == IgnoreMissing {
          return Ok(host), [];
        }
        return Err(NoSuchDirectory), [];
      }
      pushed := [QueueEntry(path, inc.mark == IgnoreMissing, true)];
      var files := SortKeys(set n | n in disk.dirs[path] :: path + n);
      pushed := pushed + EntriesFor(files, inc.mark == IgnoreMissing);
    } else {
      pushed := [QueueEntry(path, inc.mark == IgnoreMissing, false)];
    }
    r := Ok(host);
  }

  method ReadMetaDoc(disk: Disk, includes: seq<Include>, queue: seq<QueueEntry>, hostFile: string)
    returns (r: Loaded<string>, queue': seq<QueueEntry>)
    ensures r == HostAfterAll(disk, includes, hostFile)
    ensures r.Ok? ==> queue' == queue + PushedAll(disk, includes)
  {
    hide Pushed, HostAfter;
    queue' := queue;
    r := Ok(hostFile);
    var incs := includes;
    while incs != []
      invariant r.Ok? && HostAfterAll(disk, incs, r.value) == HostAfterAll(disk, includes, hostFile)
      invariant queue' + PushedAll(disk, incs) == queue + PushedAll(disk, includes)
      decreases |incs|
    {
      var pushed;
      r, pushed := ReadInclude(disk, incs[0], r.value);
      if r.Err? {
        return;
      }
      queue' := queue' + pushed;
      incs := incs[1..];
    }
  }

  // ---------------------------------------------------------------- one file

  ghost function ReadRoot(c: Conversions, d: Doc): (r: Loaded<Tree>)
    requires d.Mapping? ==> KeysOk(d.entries)
    ensures r.Ok? ==> IsTree(r.value)
  {
    EmptyTree();
    ReadDocIsTree(c, EMPTY, [], d);
    var r := ReadDoc(c, EMPTY, [], d);
    if r.outcome == Done then Ok(r.tree) else Err(InDocument(r.outcome.error))
  }

  // The tree a file contributes, if it has a document, and the host file it leaves set.
  ghost function ReadFile(c: Conversions, disk: Disk, filename: string, ignoreMissing: bool, host: string)
    : (r: Loaded<(Option<Tree>, string)>)
    requires DiskOk(disk)
    ensures r.Ok? && r.value.0.Some? ==> IsTree(r.value.0.value)
  {
    if filename !in disk.files then
      if ignoreMissing then Ok((None, host)) else Err(NoSuchFile)
    else
      assert FileOk(disk.files[filename]);
      match disk.files[filename]
      case Unparsable => Err(BadSyntax)
      case NoDocument => Ok((None, host))
      case ConfigOnly(d) =>
        (match ReadRoot(c, d) case Ok(t) => Ok((Some(t), host)) case Err(e) => Err(e))
      case WithMeta(incs, d) =>
        match HostAfterAll(disk, incs, host)
        case Err(e) => Err(e)
        case Ok(h) => match ReadRoot(c, d) case Ok(t) => Ok((Some(t), h)) case Err(e) => Err(e)
  }

  // ---------------------------------------------------------------- the queue

  datatype LoadState = LoadState(root: Tree, host: string, files: seq<string>, dirs: seq<string>)

  // What one queue entry does to the configuration read so far.
  ghost function LoadEntry(c: Conversions, disk: Disk, st: LoadState, e: QueueEntry): (r: Loaded<LoadState>)
    requires DiskOk(disk) && [] in st.root
    ensures r.Ok? ==> [] in r.value.root
  {
    if e.isDir then Ok(st.(dirs := st.dirs + [e.filename]))
    else
      match ReadFile(c, disk, e.filename, e.ignoreMissing, st.host)
      case Err(x) => Err(x)
      case Ok((None, h)) => Ok(st.(host := h))
      case Ok((Some(sub), h)) =>
        var m := Merge(c, st.root, sub);
        if m.outcome == Done
        then Ok(LoadState(m.tree, h, st.files + [e.filename], st.dirs))
        else Err(InDocument(m.outcome.error))
  }

  // The left fold over a list of entries, stopping at the first exception.
  ghost function LoadList(c: Conversions, disk: Disk, st: LoadState, es: seq<QueueEntry>): (r: Loaded<LoadState>)
    requires DiskOk(disk) && [] in st.root
    ensures r.Ok? ==> [] in r.value.root
    decreases |es|
  {
    if es == [] then Ok(st)
    else
      match LoadEntry(c, disk, st, es[0])
      case Err(x) => Err(x)
      case Ok(next) => LoadList(c, disk, next, es[1..])
  }

  // The entries that reading e appends to the queue.
  ghost function Appended(disk: Disk, e: QueueEntry): seq<QueueEntry> {
    if !e.isDir && e.filename in disk.files && disk.files[e.filename].WithMeta?
    then PushedAll(disk, disk.files[e.filename].includes)
    else []
  }

  /** Includes are acyclic: every included file has a smaller rank than the file that includes it. */
  ghost predicate Acyclic(disk: Disk, rank: string -> nat) {
    forall e: QueueEntry, x: QueueEntry :: x in Appended(disk, e) && !x.isDir ==> rank(x.filename) < rank(e.filename)
  }

  // How many rounds the queue loop spends on an entry and everything below it, each include counted
  // as often as it is reached: the loop keeps no record of the files it has read.
  ghost function Unfolding(disk: Disk, rank: string -> nat, e: QueueEntry): nat
    requires Acyclic(disk, rank)
    decreases if e.isDir then 0 else rank(e.filename) + 1, 0, 0
  {
    if e.isDir then 1 else 1 + UnfoldingAll(disk, rank, Appended(disk, e), rank(e.filename))
  }

  ghost function UnfoldingAll(disk: Disk, rank: string -> nat, es: seq<QueueEntry>, bound: nat): nat
    requires Acyclic(disk, rank) && forall x :: x in es && !x.isDir ==> rank(x.filename) < bound
    decreases bound, 1, |es|
  {
    if es == [] then 0 else Unfolding(disk, rank, es[0]) + UnfoldingAll(disk, rank, es[1..], bound)
  }

  ghost function Weight(disk: Disk, rank: string -> nat, q: seq<QueueEntry>): nat
    requires Acyclic(disk, rank)
  {
    if q == [] then 0 else Unfolding(disk, rank, q[0]) + Weight(disk, rank, q[1..])
  }

  lemma {:induction false} UnfoldingIsWeight(disk: Disk, rank: string -> nat, es: seq<QueueEntry>, bound: nat)
    requires Acyclic(disk, rank) && forall x :: x in es && !x.isDir ==> rank(x.filename) < bound
    ensures UnfoldingAll(disk, rank, es, bound) == Weight(disk, rank, es)
  {
    if es != [] {
      UnfoldingIsWeight(disk, rank, es[1..], bound);
    }
  }

  lemma {:induction false} WeightAppend(disk: Disk, rank: string -> nat, q: seq<QueueEntry>, es: seq<QueueEntry>)
    requires Acyclic(disk, rank)
    ensures Weight(disk, rank, q + es) == Weight(disk, rank, q) + Weight(disk, rank, es)
  {
    if q == [] {
      assert q + es == es;
    } else {
      TailOfAppend(q, es);
      WeightAppend(disk, rank, q[1..], es);
    }
  }

  /** Every round of the queue loop uses up one unit of the unfolded include tree. */
  lemma RoundsDecrease(disk: Disk, rank: string -> nat, q: seq<QueueEntry>)
    requires Acyclic(disk, rank) && q != []
    ensures Weight(disk, rank, q) == 1 + Weight(disk, rank, q[1..] + Appended(disk, q[0]))
  {
    var e := q[0];
    WeightAppend(disk, rank, q[1..], Appended(disk, e));
    if e.isDir {
      assert Appended(disk, e) == [];
    } else {
      UnfoldingIsWeight(disk, rank, Appended(disk, e), rank(e.filename));
    }
  }

  // The queue loop: read the front entry, append what it includes, go on.
  ghost function LoadQueue(c: Conversions, disk: Disk, rank: string -> nat, st: LoadState, q: seq<QueueEntry>)
    : (r: Loaded<LoadState>)
    requires DiskOk(disk) && Acyclic(disk, rank) && [] in st.root
    ensures r.Ok? ==> [] in r.value.root
    decreases Weight(disk, rank, q)
  {
    if q == [] then Ok(st)
    else
      RoundsDecrease(disk, rank, q);
      match LoadEntry(c, disk, st, q[0])
      case Err(x) => Err(x)
      case Ok(next) => LoadQueue(c, disk, rank, next, q[1..] + Appended(disk, q[0]))
  }

  // The entries in the order in which the loop gets to them.
  ghost function Visited(disk: Disk, rank: string -> nat, q: seq<QueueEntry>): seq<QueueEntry>
    requires Acyclic(disk, rank)
    decreases Weight(disk, rank, q)
  {
    if q == [] then []
    else
      RoundsDecrease(disk, rank, q);
      [q[0]] + Visited(disk, rank, q[1..] + Appended(disk, q[0]))
  }

  /** The loop is the left fold of the entries in queue order. */
  lemma {:induction false} QueueIsFold(c: Conversions, disk: Disk, rank: string -> nat, st: LoadState, q: seq<QueueEntry>)
    requires DiskOk(disk) && Acyclic(disk, rank) && [] in st.root
    ensures LoadQueue(c, disk, rank, st, q) == LoadList(c, disk, st, Visited(disk, rank, q))
    decreases Weight(disk, rank, q)
  {
    if q != [] {
      RoundsDecrease(disk, rank, q);
      var rest := Visited(disk, rank, q[1..] + Appended(disk, q[0]));
      assert Visited(disk, rank, q)[1..] == rest;
      var r := LoadEntry(c, disk, st, q[0]);
      if r.Ok? {
        QueueIsFold(c, disk, rank, r.value, q[1..] + Appended(disk, q[0]));
      }
    }
  }

  // The includes of a list of entries, one file's after the other's.
  ghost function NextLevel(disk: Disk, q: seq<QueueEntry>): seq<QueueEntry> {
    if q == [] then [] else Appended(disk, q[0]) + NextLevel(disk, q[1..])
  }

  lemma {:induction false} VisitedFront(disk: Disk, rank: string -> nat, q: seq<QueueEntry>, later: seq<QueueEntry>)
    requires Acyclic(disk, rank)
    ensures Visited(disk, rank, q + later) == q + Visited(disk, rank, later + NextLevel(disk, q))
    decreases |q|
  {
    if q == [] {
      assert q + later == later && later + [] == later;
    } else {
      hide Appended, Acyclic;
      var first, rest, mine := q[0], q[1..], Appended(disk, q[0]);
      TailOfAppend(q, later);
      Associative(rest, later, mine);
      VisitedFront(disk, rank, rest, later + mine);
      Associative(later, mine, NextLevel(disk, rest));
      Associative([first], rest, Visited(disk, rank, later + NextLevel(disk, q)));
    }
  }

  /** The files are read level by level: all of one include depth, in order, before any of the next. */
  lemma VisitedByLevels(disk: Disk, rank: string -> nat, q: seq<QueueEntry>)
    requires Acyclic(disk, rank)
    ensures Visited(disk, rank, q) == q + Visited(disk, rank, NextLevel(disk, q))
  {
    assert q + [] == q && [] + NextLevel(disk, q) == NextLevel(disk, q);
    VisitedFront(disk, rank, q, []);
  }
}
