/** When loading succeeds, told from the files: every queued file can be read, the includes of all files together can
    be taken, every document reads, and the trees of the documents merge. */
module ConfigSuccess {
  import opened Basics
  import opened ConfigPath
  import opened ConfigTree
  import opened ConfigMerge
  import opened ConfigOverlay
  import opened ConfigDocument
  import opened ConfigLoad
  import opened Configuration
  import opened ConfigSetup
  import opened ConfigFiles

  // ---------------------------------------------------------------- includes of several files

  // The includes of the file at this entry, if it has a meta document.
  ghost function IncludesOf(disk: Disk, e: QueueEntry): (incs: seq<Include>)
    ensures Includes(disk, e, incs) || (incs == [] && forall xs :: !Includes(disk, e, xs))
  {
    if !e.isDir && e.filename in disk.files && disk.files[e.filename].WithMeta? then disk.files[e.filename].includes else []
  }

  ghost function AllIncludes(disk: Disk, es: seq<QueueEntry>): seq<Include> {
    if es == [] then [] else IncludesOf(disk, es[0]) + AllIncludes(disk, es[1..])
  }

  // The includes of the later files are taken after those of the first one.
  lemma TakenBoth(disk: Disk, xs: seq<Include>, ys: seq<Include>, host: string, h: string)
    requires AllTaken(disk, xs, host) ==> HostNow(disk, xs, host, h)
    ensures AllTaken(disk, xs + ys, host) <==> AllTaken(disk, xs, host) && AllTaken(disk, ys, h)
    ensures AllTaken(disk, xs, host) ==> forall r :: HostNow(disk, ys, h, r) ==> HostNow(disk, xs + ys, host, r)
  {
    hide Available, FullPath, AtMostOneHost;
    PathsAreTexts(disk);
    assert forall x :: x in xs + ys <==> x in xs || x in ys;
    OneHostBoth(xs, ys);
  }

  ghost predicate NoHost(xs: seq<Include>) {
    forall x :: x in xs ==> x.mark != HostSpecific
  }

  lemma {:induction false} OneHostBoth(xs: seq<Include>, ys: seq<Include>)
    ensures AtMostOneHost(xs + ys) <==> AtMostOneHost(xs) && AtMostOneHost(ys) && (NoHost(xs) || NoHost(ys))
    decreases |xs|
  {
    if xs == [] {
      assert xs + ys == ys;
    } else {
      hide AtMostOneHost;
      var x, rest := xs[0], xs[1..];
      assert xs == [x] + rest && xs + ys == [x] + (rest + ys);
      OneHostStep(x, rest);
      OneHostStep(x, rest + ys);
      OneHostBoth(rest, ys);
      assert forall y :: y in rest + ys <==> y in rest || y in ys;
      assert forall y :: y in xs <==> y == x || y in rest;
    }
  }

  // ---------------------------------------------------------------- one entry

  // The document of this file, if it has one, can be read.
  ghost predicate DocumentReads(c: Conversions, disk: Disk, name: string) {
    forall d :: HasDocument(disk, name, d) ==> exists t :: ReadsTo(c, d, t)
  }

  // Reading the entry succeeds, its tree aside.
  ghost predicate EntryReads(c: Conversions, disk: Disk, e: QueueEntry) {
    Readable(disk, e) && (!e.isDir ==> DocumentReads(c, disk, e.filename))
  }

  lemma EntrySucceeds(c: Conversions, disk: Disk, st: LoadState, e: QueueEntry)
    requires DiskOk(disk) && [] in st.root
    ensures var r := LoadEntry(c, disk, st, e);
            && (r.Ok? <==> EntryReads(c, disk, e) && AllTaken(disk, IncludesOf(disk, e), st.host)
                           && MergeAll(c, st.root, HereTrees(c, disk, e)).outcome == Done)
            && (r.Ok? ==> HostNow(disk, IncludesOf(disk, e), st.host, r.value.host)
                          && MergeAll(c, st.root, HereTrees(c, disk, e)) == Update(r.value.root, Done))
  {
    hide Merge, AllTaken, HostNow, HostAfterAll, ReadRoot, DiskOk;
    HostAfterMeans(disk, IncludesOf(disk, e), st.host);
    NoIncludes(disk, st.host);
    MergeOne(c, disk, st, e);
    if !e.isDir && e.filename in disk.files {
      FileReads(c, disk, e.filename);
    }
  }

  lemma NoIncludes(disk: Disk, host: string)
    ensures HostAfterAll(disk, [], host) == Ok(host)
  {
  }

  lemma MergeOne(c: Conversions, disk: Disk, st: LoadState, e: QueueEntry)
    requires DiskOk(disk) && [] in st.root
    ensures MergeAll(c, st.root, HereTrees(c, disk, e)) ==
            if Contribution(c, disk, e).Some? then Merge(c, st.root, Contribution(c, disk, e).value) else Update(st.root, Done)
  {
    hide Merge, Contribution;
  }

  lemma FileReads(c: Conversions, disk: Disk, name: string)
    requires DiskOk(disk) && name in disk.files
    ensures FileOk(disk.files[name])
    ensures disk.files[name].ConfigOnly? || disk.files[name].WithMeta? ==>
              (DocumentReads(c, disk, name) <==> ReadRoot(c, disk.files[name].doc).Ok?)
    ensures disk.files[name].Unparsable? || disk.files[name].NoDocument? ==> DocumentReads(c, disk, name)
  {
    hide ReadDoc;
    if disk.files[name].ConfigOnly? || disk.files[name].WithMeta? {
      var d := disk.files[name].doc;
      assert HasDocument(disk, name, d);
      DocumentOk(disk, name, d);
      var r := ReadDoc(c, EMPTY, [], d);
      if r.outcome == Done {
        assert ReadsTo(c, d, r.tree);
      }
    }
  }

  // ---------------------------------------------------------------- the queue

  lemma {:induction false} MergeAllBoth(c: Conversions, a: Tree, xs: seq<Tree>, ys: seq<Tree>)
    requires [] in a && (forall i :: 0 <= i < |xs| ==> IsTree(xs[i])) && (forall i :: 0 <= i < |ys| ==> IsTree(ys[i]))
    ensures forall i :: 0 <= i < |xs + ys| ==> IsTree((xs + ys)[i])
    ensures var r := MergeAll(c, a, xs);
            MergeAll(c, a, xs + ys) == if r.outcome == Done then MergeAll(c, r.tree, ys) else r
    decreases |xs|
  {
    hide IsTree, Merge;
    assert forall i :: 0 <= i < |xs + ys| ==> IsTree((xs + ys)[i]);
    if xs == [] {
      assert xs + ys == ys;
    } else {
      TailOfAppend(xs, ys);
      assert (xs + ys)[0] == xs[0];
      var r := Merge(c, a, xs[0]);
      FirstExtends(c, a, xs[0]);
      if r.outcome == Done {
        MergeAllBoth(c, r.tree, xs[1..], ys);
      }
    }
  }

  ghost predicate EntriesRead(c: Conversions, disk: Disk, es: seq<QueueEntry>) {
    forall e :: e in es ==> EntryReads(c, disk, e)
  }

  // What reading the entries depends on, with these includes and this list of trees.
  lemma {:induction false} ListSucceeds(c: Conversions, disk: Disk, st: LoadState, es: seq<QueueEntry>)
    requires DiskOk(disk) && [] in st.root
    ensures var r := LoadList(c, disk, st, es);
            && (r.Ok? <==> EntriesRead(c, disk, es) && AllTaken(disk, AllIncludes(disk, es), st.host)
                           && MergeAll(c, st.root, Trees(c, disk, es)).outcome == Done)
            && (r.Ok? ==> HostNow(disk, AllIncludes(disk, es), st.host, r.value.host))
    decreases |es|
  {
    if es != [] {
      var e, rest := es[0], es[1..];
      EntrySucceeds(c, disk, st, e);
      TreesHead(c, disk, es);
      hide LoadEntry, EntryReads, HereTrees, Trees, AllTaken, HostNow, IncludesOf, DiskOk, MergeAll;
      AreTrees(c, disk, e);
      MergeAllBoth(c, st.root, HereTrees(c, disk, e), Trees(c, disk, rest));
      var r := LoadEntry(c, disk, st, e);
      EntriesReadStep(c, disk, es);
      var incs := IncludesOf(disk, e);
      var h := if r.Ok? then r.value.host else if AllTaken(disk, incs, st.host) then HostOf(disk, incs, st.host) else "";
      TakenBoth(disk, incs, AllIncludes(disk, rest), st.host, h);
      if r.Ok? {
        ListSucceeds(c, disk, r.value, rest);
      }
    } else {
      assert EntriesRead(c, disk, es) && AllTaken(disk, [], st.host) && HostNow(disk, [], st.host, st.host);
    }
  }

  // The host file that the includes leave set.
  ghost function HostOf(disk: Disk, incs: seq<Include>, host: string): (h: string)
    requires AllTaken(disk, incs, host)
    ensures HostNow(disk, incs, host, h)
  {
    HostAfterMeans(disk, incs, host);
    HostAfterAll(disk, incs, host).value
  }

  lemma AreTrees(c: Conversions, disk: Disk, e: QueueEntry)
    requires DiskOk(disk)
    ensures forall i :: 0 <= i < |HereTrees(c, disk, e)| ==> IsTree(HereTrees(c, disk, e)[i])
  {
    hide IsTree, ReadDoc;
  }

  lemma EntriesReadStep(c: Conversions, disk: Disk, es: seq<QueueEntry>)
    requires es != []
    ensures EntriesRead(c, disk, es) <==> EntryReads(c, disk, es[0]) && EntriesRead(c, disk, es[1..])
  {
    hide EntryReads;
    assert forall e :: e in es <==> e == es[0] || e in es[1..];
  }

  // ---------------------------------------------------------------- the host document

  // A host file includes nothing but directories that may be missing and are.
  ghost predicate Alone(disk: Disk, incs: seq<Include>) {
    forall inc :: inc in incs ==>
      EndsInSlash(inc.text) && FullPath(disk.confdir, inc.text) !in disk.dirs && inc.mark == IgnoreMissing
  }

  ghost predicate HostReads(c: Conversions, disk: Disk, h: string) {
    h == "" || (&& (h in disk.files ==> !disk.files[h].Unparsable?) && DocumentReads(c, disk, h)
                && Alone(disk, IncludesOf(disk, QueueEntry(h, true, false))))
  }

  lemma {:induction false} NothingPushed(disk: Disk, incs: seq<Include>)
    ensures PushedAll(disk, incs) == [] <==> forall inc :: inc in incs ==> Pushed(disk, inc) == []
    decreases |incs|
  {
    hide Pushed;
    if incs != [] {
      NothingPushed(disk, incs[1..]);
      assert forall inc :: inc in incs <==> inc == incs[0] || inc in incs[1..];
    }
  }

  lemma AloneMeans(disk: Disk, incs: seq<Include>, h: string)
    requires h != ""
    ensures Alone(disk, incs) <==> PushedAll(disk, incs) == [] && AllTaken(disk, incs, h)
  {
    hide Pushed, PushedAll, FullPath, EndsInSlash;
    NothingPushed(disk, incs);
    forall inc
      ensures Pushed(disk, inc) == [] && Available(disk, inc) && inc.mark != HostSpecific <==>
                EndsInSlash(inc.text) && FullPath(disk.confdir, inc.text) !in disk.dirs && inc.mark == IgnoreMissing
    {
      NothingQueued(disk, inc);
      NoSlash();
    }
  }

  lemma NoSlash()
    ensures !EndsInSlash("")
  {
  }

  lemma HostSucceeds(c: Conversions, disk: Disk, h: string)
    requires DiskOk(disk)
    ensures HostDocument(c, disk, h).Ok? <==> HostReads(c, disk, h)
  {
    hide ReadRoot, DiskOk, Alone, AllTaken, HostAfterAll, PushedAll, DocumentReads;
    if h != "" {
      var e := QueueEntry(h, true, false);
      NothingIncluded(disk);
      AloneMeans(disk, IncludesOf(disk, e), h);
      HostAfterMeans(disk, IncludesOf(disk, e), h);
      if h in disk.files {
        FileReads(c, disk, h);
      } else {
        NoDocumentReads(c, disk, h);
      }
    }
  }

  lemma NoDocumentReads(c: Conversions, disk: Disk, name: string)
    requires name !in disk.files
    ensures DocumentReads(c, disk, name)
  {
  }

  lemma NothingIncluded(disk: Disk)
    ensures PushedAll(disk, []) == [] && Alone(disk, [])
  {
  }

  // ---------------------------------------------------------------- loading

  // The host document, if there is one, merges into the tree.
  ghost predicate HostMergesInto(c: Conversions, disk: Disk, root: Tree, h: string) {
    forall d, t :: h != "" && HasDocument(disk, h, d) && ReadsTo(c, d, t) && IsTree(t) && [] in root ==>
      Merge(c, root, t).outcome == Done
  }

  /** Loading succeeds exactly when every queued file can be read or may be missing, the includes of all files
      together can be taken and name at most one host file, every document reads, the trees of the documents merge,
      and the host file, which must not include others, can be read and merges into what came before. */
  lemma LoadSucceeds(c: Conversions, disk: Disk, rank: string -> nat, filename: string)
    requires DiskOk(disk) && Acyclic(disk, rank)
    ensures [] in BLANK
    ensures var es := Visited(disk, rank, Start(filename).1);
            var m := MergeAll(c, BLANK, Trees(c, disk, es));
            LoadConfig(c, disk, rank, filename).Ok? <==>
              && EntriesRead(c, disk, es) && AllTaken(disk, AllIncludes(disk, es), "") && m.outcome == Done
              && forall h :: HostNow(disk, AllIncludes(disk, es), "", h) ==>
                   HostReads(c, disk, h) && HostMergesInto(c, disk, m.tree, h)
  {
    var st, q := Start(filename).0, Start(filename).1;
    var es := Visited(disk, rank, q);
    QueueIsFold(c, disk, rank, st, q);
    ListSucceeds(c, disk, st, es);
    LoadListMerges(c, disk, st, es);
    hide LoadQueue, LoadList, Visited, EntriesRead, AllIncludes, AllTaken, HostNow, HostReads, HostMergesInto, Trees;
    hide MergeAll, DiskOk, Acyclic, WithHost;
    var r := Before(c, disk, rank, filename);
    if r.Ok? {
      WithHostSucceeds(c, disk, r.value);
      HostIsOne(disk, AllIncludes(disk, es), r.value.host);
    }
  }

  lemma HostIsOne(disk: Disk, incs: seq<Include>, h: string)
    requires HostNow(disk, incs, "", h)
    ensures forall g :: HostNow(disk, incs, "", g) ==> g == h
  {
    hide FullPath;
  }

  lemma WithHostSucceeds(c: Conversions, disk: Disk, st: LoadState)
    requires DiskOk(disk) && [] in st.root
    ensures WithHost(c, disk, st).Ok? <==> HostReads(c, disk, st.host) && HostMergesInto(c, disk, st.root, st.host)
  {
    hide HostDocument, HostReads, DiskOk, HasDocument, Merge, IsTree, ReadsTo;
    HostSucceeds(c, disk, st.host);
    if HostDocument(c, disk, st.host).Ok? {
      HostTree(c, disk, st.host);
    }
  }

  // The tree of the host file is the one its document reads to.
  lemma HostTree(c: Conversions, disk: Disk, h: string)
    requires DiskOk(disk) && HostDocument(c, disk, h).Ok?
    ensures var (t, g) := HostDocument(c, disk, h).value;
            && (t.Some? ==> h != "" && IsTree(t.value) && exists d :: HasDocument(disk, h, d) && ReadsTo(c, d, t.value))
            && (forall d, u :: h != "" && HasDocument(disk, h, d) && ReadsTo(c, d, u) ==> t == Some(u))
  {
    hide HostDocument, ReadDoc, IsTree, DiskOk, HasDocument, ReadsTo;
    var (t, g) := HostDocument(c, disk, h).value;
    forall d, u | h != "" && HasDocument(disk, h, d) && ReadsTo(c, d, u)
      ensures t == Some(u)
    {
      HostFileRead(c, disk, h, d);
      ReadsToOne(c, d, t.value, u);
    }
    if t.Some? {
      HostFileRead(c, disk, h, Null);
      var d :| HasDocument(disk, h, d);
      HostFileRead(c, disk, h, d);
    }
  }

  lemma ReadsToOne(c: Conversions, d: Doc, t: Tree, u: Tree)
    requires ReadsTo(c, d, t) && ReadsTo(c, d, u)
    ensures t == u
  {
    hide ReadDoc;
  }

  // ---------------------------------------------------------------- why loading fails

  predicate IncludeError(e: LoadError) {
    e == SecondHostFile || e == EmptyInclude || e == NoSuchDirectory
  }

  /** The exception of an include that cannot be taken: a second host file, an empty text, or a directory that is
      not there; the first one that fails decides. */
  lemma {:induction false} IncludeFails(disk: Disk, xs: seq<Include>, inc: Include, ys: seq<Include>, host: string, h: string)
    requires AllTaken(disk, xs, host) && HostNow(disk, xs, host, h) && !AllTaken(disk, [inc], h)
    ensures HostAfterAll(disk, xs + [inc] + ys, host) ==
            Err(if inc.mark == HostSpecific then SecondHostFile
                else if inc.text == "" then EmptyInclude else NoSuchDirectory)
    decreases |xs|
  {
    if xs == [] {
      assert xs + [inc] + ys == [inc] + ys && ([inc] + ys)[0] == inc;
      SamePath(disk, inc.text);
      OneInclude(disk, inc, h);
    } else {
      var x, rest := xs[0], xs[1..];
      assert xs == [x] + rest && (xs + [inc] + ys)[0] == x && (xs + [inc] + ys)[1..] == rest + [inc] + ys;
      OneInclude(disk, x, host);
      var next := HostAfter(disk, x, host);
      TakenStep(disk, x, rest, host, if next.Ok? then next.value else "");
      hide HostAfter, AllTaken, HostNow, Available, FullPath;
      HostRest(disk, x, rest, host, next.value, h);
      IncludeFails(disk, rest, inc, ys, next.value, h);
    }
  }

  // The host file after the rest of the includes.
  lemma HostRest(disk: Disk, inc: Include, rest: seq<Include>, host: string, next: string, h: string)
    requires AllTaken(disk, [inc] + rest, host) && HostNow(disk, [inc] + rest, host, h)
    requires next == if inc.mark == HostSpecific then FullPath(disk.confdir, inc.text) else host
    ensures HostNow(disk, rest, next, h)
  {
    hide FullPath, Available;
    OneHostStep(inc, rest);
    assert inc in [inc] + rest;
    assert forall x :: x in [inc] + rest <==> x == inc || x in rest;
  }

  /** The exception of a file: it is missing and must not be, it cannot be parsed, or its includes or its document
      raise one; for the host file also that it includes others. */
  lemma FileFails(c: Conversions, disk: Disk, name: string, ignoreMissing: bool, host: string)
    requires DiskOk(disk)
    ensures var r := ReadFile(c, disk, name, ignoreMissing, host);
            && (r == Err(NoSuchFile) <==> name !in disk.files && !ignoreMissing)
            && (r == Err(BadSyntax) <==> name in disk.files && disk.files[name] == Unparsable)
            && (r.Err? ==> r.error == NoSuchFile || r.error == BadSyntax || r.error.InDocument? || IncludeError(r.error))
            && (r.Err? && r.error.InDocument? ==> !DocumentReads(c, disk, name))
    ensures var r := HostDocument(c, disk, name);
            r == Err(IncludeInHostFile) <==>
              && name != "" && ReadFile(c, disk, name, true, name).Ok?
              && exists inc :: inc in IncludesOf(disk, QueueEntry(name, true, false)) && Pushed(disk, inc) != []
  {
    hide ReadRoot, DocumentReads, Pushed, PushedAll;
    if name in disk.files {
      FileReads(c, disk, name);
      if disk.files[name].WithMeta? {
        ErrorsOfIncludes(disk, disk.files[name].includes, host);
        ErrorsOfIncludes(disk, disk.files[name].includes, name);
      }
    }
    NothingPushed(disk, IncludesOf(disk, QueueEntry(name, true, false)));
    NothingIncluded(disk);
    RootErrors(c, disk, name);
  }

  lemma {:induction false} ErrorsOfIncludes(disk: Disk, incs: seq<Include>, host: string)
    ensures var r := HostAfterAll(disk, incs, host); r.Err? ==> IncludeError(r.error)
    decreases |incs|
  {
    if incs != [] && HostAfter(disk, incs[0], host).Ok? {
      ErrorsOfIncludes(disk, incs[1..], HostAfter(disk, incs[0], host).value);
    }
  }

  lemma RootErrors(c: Conversions, disk: Disk, name: string)
    requires DiskOk(disk)
    ensures name in disk.files ==> FileOk(disk.files[name])
    ensures name in disk.files && (disk.files[name].ConfigOnly? || disk.files[name].WithMeta?) ==>
              var r := ReadRoot(c, disk.files[name].doc); r.Err? ==> r.error.InDocument?
  {
    hide ReadDoc;
  }
}
