/** What loading takes from the files, told from the files alone: the includes, the host file they name, the documents
    that are read and the lists of files and directories to watch. */
module ConfigFiles {
  import opened Basics
  import opened ConfigPath
  import opened ConfigTree
  import opened ConfigMerge
  import opened ConfigDocument
  import opened ConfigLoad
  import opened Configuration
  import opened ConfigSetup
  import opened KeyOrder

  // ---------------------------------------------------------------- one include

  // A path text that is not absolute is one below the configuration directory.
  function FullPath(confdir: string, text: string): string {
    if |text| > 0 && text[0] == '/' then text else confdir + "/" + text
  }

  predicate EndsInSlash(text: string) {
    |text| > 0 && text[|text| - 1] == '/'
  }

  lemma SamePath(disk: Disk, text: string)
    ensures Absolute(disk, text) == FullPath(disk.confdir, text) && FullPath(disk.confdir, text) != ""
    ensures NamesDirectory(text) <==> EndsInSlash(text)
  {
  }

  /** A file is queued under its full path with its mark. */
  lemma FileQueued(disk: Disk, inc: Include)
    requires inc.mark != HostSpecific && inc.text != "" && !EndsInSlash(inc.text)
    ensures Pushed(disk, inc) == [QueueEntry(FullPath(disk.confdir, inc.text), inc.mark == IgnoreMissing, false)]
  {
    SamePath(disk, inc.text);
  }

  // f is a file of these names in the directory.
  ghost predicate FileOf(dir: string, names: set<string>, f: string) {
    exists n :: n in names && f == dir + n
  }

  // f is queued behind the first entry.
  ghost predicate Queued(q: seq<QueueEntry>, f: string) {
    exists i :: 0 < i < |q| && q[i].filename == f
  }

  /** A readable directory is queued first, then every file in it, once, under the directory's path, in ascending
      order; all with the mark of the include. */
  lemma DirectoryQueued(disk: Disk, inc: Include)
    requires inc.mark != HostSpecific && EndsInSlash(inc.text) && FullPath(disk.confdir, inc.text) in disk.dirs
    ensures var dir, q := FullPath(disk.confdir, inc.text), Pushed(disk, inc);
            && q != [] && q[0] == QueueEntry(dir, inc.mark == IgnoreMissing, true)
            && (forall i :: 0 < i < |q| ==> !q[i].isDir && q[i].ignoreMissing == (inc.mark == IgnoreMissing))
            && (forall f :: Queued(q, f) <==> FileOf(dir, disk.dirs[dir], f))
            && (forall i, j :: 0 < i < j < |q| ==> Less(q[i].filename, q[j].filename) && q[i].filename != q[j].filename)
  {
    var dir, q := FullPath(disk.confdir, inc.text), Pushed(disk, inc);
    var names := set n | n in disk.dirs[dir] :: dir + n;
    DirectoryEntries(disk, inc, names);
    NamesAreFiles(dir, disk.dirs[dir], names);
    var ks := Sorted(names);
    assert forall k :: k in ks <==> k in names;
    SortedNames(q, ks);
    hide Less, Pushed, FullPath, EndsInSlash, Sorted, Queued, FileOf;
    NamesQueued(q, ks);
  }

  lemma NamesAreFiles(dir: string, ns: set<string>, names: set<string>)
    requires names == set n | n in ns :: dir + n
    ensures forall f :: f in names <==> FileOf(dir, ns, f)
  {
  }

  lemma NamesQueued(q: seq<QueueEntry>, ks: seq<string>)
    requires |q| == |ks| + 1 && forall i :: 0 < i < |q| ==> q[i].filename == ks[i - 1]
    ensures forall f :: Queued(q, f) <==> f in ks
  {
    forall f
      ensures Queued(q, f) <==> f in ks
    {
      if f in ks {
        var i := IndexIn(ks, f);
        assert q[i + 1].filename == f;
      }
      if Queued(q, f) {
        var i :| 0 < i < |q| && q[i].filename == f;
        assert ks[i - 1] in ks;
      }
    }
  }

  lemma IndexIn(ks: seq<string>, k: string) returns (i: nat)
    requires k in ks
    ensures i < |ks| && ks[i] == k
  {
    i :| 0 <= i < |ks| && ks[i] == k;
  }

  lemma SortedNames(q: seq<QueueEntry>, ks: seq<string>)
    requires |q| == |ks| + 1 && forall i :: 0 < i < |q| ==> q[i].filename == ks[i - 1]
    requires forall i, j :: 0 <= i < j < |ks| ==> Less(ks[i], ks[j]) && ks[i] != ks[j]
    ensures forall i, j :: 0 < i < j < |q| ==> Less(q[i].filename, q[j].filename) && q[i].filename != q[j].filename
  {
    hide Less;
  }

  lemma DirectoryEntries(disk: Disk, inc: Include, names: set<string>)
    requires inc.mark != HostSpecific && EndsInSlash(inc.text) && FullPath(disk.confdir, inc.text) in disk.dirs
    requires var dir := FullPath(disk.confdir, inc.text); names == set n | n in disk.dirs[dir] :: dir + n
    ensures var dir, q := FullPath(disk.confdir, inc.text), Pushed(disk, inc);
            && |q| == |Sorted(names)| + 1 && q[0] == QueueEntry(dir, inc.mark == IgnoreMissing, true)
            && forall i :: 0 < i < |q| ==> q[i] == QueueEntry(Sorted(names)[i - 1], inc.mark == IgnoreMissing, false)
  {
    SamePath(disk, inc.text);
    hide Less, Sorted;
  }

  /** Nothing is queued for a host file, for an empty include, and for a directory that is not there. */
  lemma NothingQueued(disk: Disk, inc: Include)
    ensures Pushed(disk, inc) == [] <==>
              inc.mark == HostSpecific || inc.text == ""
              || (EndsInSlash(inc.text) && FullPath(disk.confdir, inc.text) !in disk.dirs)
  {
    SamePath(disk, inc.text);
  }

  /** The includes of a file are queued one after the other. */
  lemma {:induction false} QueuedInOrder(disk: Disk, xs: seq<Include>, ys: seq<Include>, inc: Include)
    ensures PushedAll(disk, xs + ys) == PushedAll(disk, xs) + PushedAll(disk, ys)
    ensures PushedAll(disk, [inc]) == Pushed(disk, inc) && PushedAll(disk, []) == []
    decreases |xs|
  {
    hide Pushed;
    assert [inc][1..] == [] && Pushed(disk, inc) + [] == Pushed(disk, inc);
    if xs == [] {
      assert xs + ys == ys;
    } else {
      TailOfAppend(xs, ys);
      QueuedInOrder(disk, xs[1..], ys, inc);
      Associative(Pushed(disk, xs[0]), PushedAll(disk, xs[1..]), PushedAll(disk, ys));
    }
  }

  // The file at this entry has includes.
  ghost predicate Includes(disk: Disk, e: QueueEntry, incs: seq<Include>) {
    !e.isDir && e.filename in disk.files && disk.files[e.filename].WithMeta? && disk.files[e.filename].includes == incs
  }

  lemma IncludesQueued(disk: Disk, e: QueueEntry, incs: seq<Include>)
    ensures Includes(disk, e, incs) ==> Appended(disk, e) == PushedAll(disk, incs)
    ensures (forall xs :: !Includes(disk, e, xs)) ==> Appended(disk, e) == []
  {
    if !e.isDir && e.filename in disk.files && disk.files[e.filename].WithMeta? {
      assert Includes(disk, e, disk.files[e.filename].includes);
    }
  }

  // ---------------------------------------------------------------- the host file

  // The include can be taken: it is not empty, and a directory is there or may be missing.
  predicate Available(disk: Disk, inc: Include) {
    inc.mark == HostSpecific
    || (inc.text != ""
        && (EndsInSlash(inc.text) && FullPath(disk.confdir, inc.text) !in disk.dirs ==> inc.mark == IgnoreMissing))
  }

  // Each include can be taken, and at most one, none if a host file is known, is host-specific.
  ghost predicate AllTaken(disk: Disk, incs: seq<Include>, host: string) {
    && (forall inc :: inc in incs ==> Available(disk, inc) && (inc.mark == HostSpecific ==> host == ""))
    && AtMostOneHost(incs)
  }

  ghost predicate AtMostOneHost(incs: seq<Include>) {
    forall i, j :: 0 <= i < j < |incs| ==> !(incs[i].mark == HostSpecific && incs[j].mark == HostSpecific)
  }

  // h is the host file after these includes: the one that was known, or the one that they name.
  ghost predicate HostNow(disk: Disk, incs: seq<Include>, host: string, h: string) {
    && (host != "" ==> h == host)
    && (h != host ==> exists inc :: inc in incs && inc.mark == HostSpecific)
    && (forall inc :: inc in incs && inc.mark == HostSpecific ==> h == FullPath(disk.confdir, inc.text))
  }

  /** When the includes of one file are taken, and the host file they name. */
  lemma {:induction false} HostAfterMeans(disk: Disk, incs: seq<Include>, host: string)
    ensures var r := HostAfterAll(disk, incs, host);
            (r.Ok? <==> AllTaken(disk, incs, host)) && (r.Ok? ==> HostNow(disk, incs, host, r.value))
    decreases |incs|
  {
    if incs != [] {
      var inc, rest := incs[0], incs[1..];
      assert incs == [inc] + rest;
      OneInclude(disk, inc, host);
      var h := HostAfter(disk, inc, host);
      TakenStep(disk, inc, rest, host, if h.Ok? then h.value else "");
      hide HostAfter, AllTaken, HostNow, Available;
      if h.Ok? {
        HostAfterMeans(disk, rest, h.value);
        if HostAfterAll(disk, rest, h.value).Ok? {
          HostStep(disk, inc, rest, host, h.value, HostAfterAll(disk, rest, h.value).value);
        }
      }
    }
  }

  lemma OneInclude(disk: Disk, inc: Include, host: string)
    ensures var r := HostAfter(disk, inc, host);
            && (r.Ok? <==> Available(disk, inc) && (inc.mark == HostSpecific ==> host == ""))
            && (r.Ok? ==> r.value == if inc.mark == HostSpecific then FullPath(disk.confdir, inc.text) else host)
    ensures FullPath(disk.confdir, inc.text) != ""
  {
    SamePath(disk, inc.text);
  }

  lemma TakenStep(disk: Disk, inc: Include, rest: seq<Include>, host: string, h: string)
    requires inc.mark != HostSpecific || host == "" ==> Available(disk, inc) ==>
               h == if inc.mark == HostSpecific then FullPath(disk.confdir, inc.text) else host
    requires FullPath(disk.confdir, inc.text) != ""
    ensures AllTaken(disk, [inc] + rest, host) <==>
              Available(disk, inc) && (inc.mark == HostSpecific ==> host == "") && AllTaken(disk, rest, h)
  {
    hide Available, FullPath, AtMostOneHost;
    OneHostStep(inc, rest);
    assert forall x :: x in [inc] + rest <==> x == inc || x in rest;
  }

  lemma OneHostStep(inc: Include, rest: seq<Include>)
    ensures AtMostOneHost([inc] + rest) <==>
              AtMostOneHost(rest) && (inc.mark == HostSpecific ==> forall x :: x in rest ==> x.mark != HostSpecific)
  {
    var incs := [inc] + rest;
    assert forall i :: 0 <= i < |rest| ==> rest[i] == incs[i + 1];
    assert incs[0] == inc;
  }

  lemma HostStep(disk: Disk, inc: Include, rest: seq<Include>, host: string, h: string, r: string)
    requires HostNow(disk, rest, h, r) && FullPath(disk.confdir, inc.text) != ""
    requires inc.mark == HostSpecific ==> host == ""
    requires h == if inc.mark == HostSpecific then FullPath(disk.confdir, inc.text) else host
    ensures HostNow(disk, [inc] + rest, host, r)
  {
    hide FullPath;
    assert inc in [inc] + rest;
    assert forall x :: x in [inc] + rest <==> x == inc || x in rest;
  }

  // The file at this entry names the host file.
  ghost predicate Names(disk: Disk, e: QueueEntry, inc: Include) {
    !e.isDir && e.filename in disk.files && disk.files[e.filename].WithMeta?
    && inc in disk.files[e.filename].includes && inc.mark == HostSpecific
  }

  // What one entry does to the host file.
  lemma EntryHost(c: Conversions, disk: Disk, st: LoadState, e: QueueEntry)
    requires DiskOk(disk) && [] in st.root && LoadEntry(c, disk, st, e).Ok?
    ensures var h := LoadEntry(c, disk, st, e).value.host;
            && (st.host != "" ==> h == st.host)
            && (h != st.host ==> exists inc :: Names(disk, e, inc))
            && (forall inc :: Names(disk, e, inc) ==> h == FullPath(disk.confdir, inc.text) && st.host == "")
  {
    hide Merge, ReadRoot, FullPath;
    if !e.isDir && e.filename in disk.files && disk.files[e.filename].WithMeta? {
      HostAfterMeans(disk, disk.files[e.filename].includes, st.host);
      var incs := disk.files[e.filename].includes;
      var h := LoadEntry(c, disk, st, e).value.host;
      assert HostAfterAll(disk, incs, st.host) == Ok(h);
      if h != st.host {
        var inc :| inc in incs && inc.mark == HostSpecific;
        assert Names(disk, e, inc);
      }
    }
  }

  lemma {:induction false} ListHost(c: Conversions, disk: Disk, st: LoadState, es: seq<QueueEntry>)
    requires DiskOk(disk) && [] in st.root && LoadList(c, disk, st, es).Ok?
    ensures var h := LoadList(c, disk, st, es).value.host;
            && (st.host != "" ==> h == st.host)
            && (h != st.host ==> exists e, inc :: e in es && Names(disk, e, inc))
            && (forall e, inc :: e in es && Names(disk, e, inc) ==> h == FullPath(disk.confdir, inc.text) && st.host == "")
    decreases |es|
  {
    if es != [] {
      hide LoadEntry, DiskOk, Names, FullPath;
      EntryHost(c, disk, st, es[0]);
      var next := LoadEntry(c, disk, st, es[0]).value;
      ListHost(c, disk, next, es[1..]);
      assert es == [es[0]] + es[1..];
      PathsAreTexts(disk);
    }
  }

  lemma PathsAreTexts(disk: Disk)
    ensures forall text :: FullPath(disk.confdir, text) != ""
  {
  }

  /** A loaded configuration has a host file exactly when a file that was read names one; and it is that one. */
  lemma HostFileNamed(c: Conversions, disk: Disk, rank: string -> nat, filename: string)
    requires DiskOk(disk) && Acyclic(disk, rank) && LoadConfig(c, disk, rank, filename).Ok?
    ensures var h, es := LoadConfig(c, disk, rank, filename).value.config.hostFile, Visited(disk, rank, Start(filename).1);
            && (h != "" <==> exists e, inc :: e in es && Names(disk, e, inc))
            && (forall e, inc :: e in es && Names(disk, e, inc) ==> h == FullPath(disk.confdir, inc.text))
  {
    var q := Start(filename).1;
    HostFileKept(c, disk, rank, filename);
    QueueIsFold(c, disk, rank, Start(filename).0, q);
    hide LoadConfig, LoadQueue, LoadList, Visited, Names, FullPath, DiskOk, Acyclic;
    ListHost(c, disk, Start(filename).0, Visited(disk, rank, q));
    PathsAreTexts(disk);
  }

  // The host document does not change the host file.
  lemma HostFileKept(c: Conversions, disk: Disk, rank: string -> nat, filename: string)
    requires DiskOk(disk) && Acyclic(disk, rank) && LoadConfig(c, disk, rank, filename).Ok?
    ensures Before(c, disk, rank, filename).Ok?
    ensures LoadConfig(c, disk, rank, filename).value.config.hostFile == Before(c, disk, rank, filename).value.host
  {
    hide Merge, Before, HostDocument, DiskOk, Acyclic;
    var r := Before(c, disk, rank, filename);
    if r.Ok? && HostDocument(c, disk, r.value.host).Ok? {
      HostFileRead(c, disk, r.value.host, Null);
    }
  }

  // ---------------------------------------------------------------- the host document

  // The document of a file, if it has one.
  ghost predicate HasDocument(disk: Disk, name: string, d: Doc) {
    name in disk.files &&
    (disk.files[name] == ConfigOnly(d) || (disk.files[name].WithMeta? && disk.files[name].doc == d))
  }

  // Reading the document into an empty tree succeeds and gives t.
  ghost predicate ReadsTo(c: Conversions, d: Doc, t: Tree) {
    (d.Mapping? ==> KeysOk(d.entries)) && [] in EMPTY && ReadDoc(c, EMPTY, [], d) == Update(t, Done)
  }

  lemma DocumentOk(disk: Disk, name: string, d: Doc)
    requires DiskOk(disk) && HasDocument(disk, name, d)
    ensures d.Mapping? ==> KeysOk(d.entries)
    ensures [] in EMPTY
  {
    assert FileOk(disk.files[name]);
  }

  // Reading a host file keeps its name and gives the tree of its document, if it has one.
  lemma HostFileRead(c: Conversions, disk: Disk, h: string, d: Doc)
    requires DiskOk(disk) && HostDocument(c, disk, h).Ok?
    ensures var (t, h') := HostDocument(c, disk, h).value;
            && h' == h
            && (h != "" && HasDocument(disk, h, d) ==> t.Some? && ReadsTo(c, d, t.value) && IsTree(t.value))
            && (h == "" || (forall x :: !HasDocument(disk, h, x)) ==> t == None)
  {
    hide ReadDoc, HostAfterAll, IsTree;
    if h in disk.files && (disk.files[h].ConfigOnly? || disk.files[h].WithMeta?) {
      assert HasDocument(disk, h, disk.files[h].doc);
      DocumentOk(disk, h, disk.files[h].doc);
    }
    if h in disk.files && disk.files[h].WithMeta? {
      HostAfterMeans(disk, disk.files[h].includes, h);
    }
  }

  /** The host tree is what is read from the host file's document, merged last, and the file is the last one to be
      watched; the host file queues no other file. */
  lemma HostDocumentRead(c: Conversions, disk: Disk, rank: string -> nat, filename: string, d: Doc)
    requires DiskOk(disk) && Acyclic(disk, rank) && LoadConfig(c, disk, rank, filename).Ok?
    requires var h := LoadConfig(c, disk, rank, filename).value.config.hostFile; h != "" && HasDocument(disk, h, d)
    ensures Before(c, disk, rank, filename).Ok?
    ensures var l, st := LoadConfig(c, disk, rank, filename).value, Before(c, disk, rank, filename).value;
            && ReadsTo(c, d, l.config.host) && IsTree(l.config.host)
            && Merge(c, st.root, l.config.host) == Update(l.config.root, Done)
            && l.files == st.files + [l.config.hostFile] && l.dirs == st.dirs
  {
    hide Merge, ReadDoc, Before, HostDocument, HasDocument, ReadsTo, DiskOk, Acyclic, IsTree;
    HostFileKept(c, disk, rank, filename);
    HostFileRead(c, disk, Before(c, disk, rank, filename).value.host, d);
  }

  /** Without such a document the host tree is empty and the configuration as it was. */
  lemma NoHostDocument(c: Conversions, disk: Disk, rank: string -> nat, filename: string)
    requires DiskOk(disk) && Acyclic(disk, rank) && LoadConfig(c, disk, rank, filename).Ok?
    requires var h := LoadConfig(c, disk, rank, filename).value.config.hostFile;
             h == "" || forall d :: !HasDocument(disk, h, d)
    ensures Before(c, disk, rank, filename).Ok?
    ensures var l, st := LoadConfig(c, disk, rank, filename).value, Before(c, disk, rank, filename).value;
            && l.config.host == map[[] := Payload(UNKNOWN, "", [])] && l.config.root == st.root
            && l.files == st.files && l.dirs == st.dirs
  {
    hide Merge, ReadDoc, Before, HostDocument, HasDocument, DiskOk, Acyclic;
    HostFileKept(c, disk, rank, filename);
    HostFileRead(c, disk, Before(c, disk, rank, filename).value.host, Null);
  }

  // ---------------------------------------------------------------- the files that are read

  // The files among the entries that have a document, and the directories, in order.
  ghost function Documents(disk: Disk, es: seq<QueueEntry>): seq<string> {
    if es == [] then []
    else
      (if !es[0].isDir && es[0].filename in disk.files
          && (disk.files[es[0].filename].ConfigOnly? || disk.files[es[0].filename].WithMeta?)
       then [es[0].filename] else [])
      + Documents(disk, es[1..])
  }

  function Directories(es: seq<QueueEntry>): seq<string> {
    if es == [] then [] else (if es[0].isDir then [es[0].filename] else []) + Directories(es[1..])
  }

  // The entry can be read: the file is there and can be parsed, or it may be missing.
  ghost predicate Readable(disk: Disk, e: QueueEntry) {
    e.isDir || (if e.filename in disk.files then !disk.files[e.filename].Unparsable? else e.ignoreMissing)
  }

  lemma {:induction false} ListFiles(c: Conversions, disk: Disk, st: LoadState, es: seq<QueueEntry>)
    requires DiskOk(disk) && [] in st.root && LoadList(c, disk, st, es).Ok?
    ensures var r := LoadList(c, disk, st, es).value;
            && r.files == st.files + Documents(disk, es) && r.dirs == st.dirs + Directories(es)
            && forall e :: e in es ==> Readable(disk, e)
    decreases |es|
  {
    if es == [] {
      assert st.files + [] == st.files && st.dirs + [] == st.dirs;
    } else {
      EntryFiles(c, disk, st, es[0]);
      hide LoadEntry, DiskOk, Readable;
      var next := LoadEntry(c, disk, st, es[0]).value;
      ListFiles(c, disk, next, es[1..]);
      assert es == [es[0]] + es[1..];
      Associative(st.files, Documents(disk, [es[0]]), Documents(disk, es[1..]));
      Associative(st.dirs, Directories([es[0]]), Directories(es[1..]));
      OneEntry(disk, es[0]);
    }
  }

  lemma OneEntry(disk: Disk, e: QueueEntry)
    ensures Directories([e]) == if e.isDir then [e.filename] else []
    ensures Documents(disk, [e]) ==
            if !e.isDir && e.filename in disk.files && (disk.files[e.filename].ConfigOnly? || disk.files[e.filename].WithMeta?)
            then [e.filename] else []
  {
    assert [e][1..] == [];
  }

  lemma EntryFiles(c: Conversions, disk: Disk, st: LoadState, e: QueueEntry)
    requires DiskOk(disk) && [] in st.root && LoadEntry(c, disk, st, e).Ok?
    ensures var r := LoadEntry(c, disk, st, e).value;
            && r.files == st.files + Documents(disk, [e]) && r.dirs == st.dirs + Directories([e])
            && Readable(disk, e)
  {
    OneEntry(disk, e);
    hide Merge, ReadDoc, HostAfterAll, Documents, Directories;
  }

  /** When loading succeeds, every file that was queued could be read or may be missing, and the files and directories
      to watch are those with a document, in queue order, followed by the host file if it has one. */
  lemma LoadedFiles(c: Conversions, disk: Disk, rank: string -> nat, filename: string)
    requires DiskOk(disk) && Acyclic(disk, rank) && LoadConfig(c, disk, rank, filename).Ok?
    ensures var l, es := LoadConfig(c, disk, rank, filename).value, Visited(disk, rank, Start(filename).1);
            var h := l.config.hostFile;
            && (forall e :: e in es ==> Readable(disk, e))
            && l.dirs == Directories(es)
            && l.files == Documents(disk, es)
                          + if h != "" && (exists d :: HasDocument(disk, h, d)) then [h] else []
  {
    hide LoadConfig, Before, Visited, Documents, Directories, DiskOk, Acyclic, HasDocument, Readable;
    var l := LoadConfig(c, disk, rank, filename).value;
    var h := l.config.hostFile;
    if h != "" && exists d :: HasDocument(disk, h, d) {
      var d :| HasDocument(disk, h, d);
      HostDocumentRead(c, disk, rank, filename, d);
    } else {
      NoHostDocument(c, disk, rank, filename);
    }
    FilesBefore(c, disk, rank, filename);
  }

  lemma FilesBefore(c: Conversions, disk: Disk, rank: string -> nat, filename: string)
    requires DiskOk(disk) && Acyclic(disk, rank) && Before(c, disk, rank, filename).Ok?
    ensures var st, es := Before(c, disk, rank, filename).value, Visited(disk, rank, Start(filename).1);
            && (forall e :: e in es ==> Readable(disk, e))
            && st.dirs == Directories(es) && st.files == Documents(disk, es)
  {
    var q := Start(filename).1;
    QueueIsFold(c, disk, rank, Start(filename).0, q);
    hide LoadQueue, LoadList, Visited, Documents, Directories, DiskOk, Acyclic, Readable;
    ListFiles(c, disk, Start(filename).0, Visited(disk, rank, q));
  }

  // What the documents of these names are read to.
  ghost predicate AllReadTo(c: Conversions, disk: Disk, names: seq<string>, ts: seq<Tree>) {
    |ts| == |names| && forall i, d :: 0 <= i < |ts| && HasDocument(disk, names[i], d) ==> ReadsTo(c, d, ts[i])
  }

  /** The trees that loading lays over each other are what is read from these documents, one by one. */
  lemma {:induction false} TreesOfDocuments(c: Conversions, disk: Disk, st: LoadState, es: seq<QueueEntry>)
    requires DiskOk(disk) && [] in st.root && LoadList(c, disk, st, es).Ok?
    ensures AllReadTo(c, disk, Documents(disk, es), Trees(c, disk, es))
    decreases |es|
  {
    if es != [] {
      TreesHead(c, disk, es);
      hide LoadEntry, DiskOk, Contribution, Trees, Documents, AllReadTo, HereTrees;
      var next := LoadEntry(c, disk, st, es[0]).value;
      EntryTree(c, disk, st, es[0]);
      TreesOfDocuments(c, disk, next, es[1..]);
      ReadToBoth(c, disk, Documents(disk, [es[0]]), HereTrees(c, disk, es[0]), Documents(disk, es[1..]), Trees(c, disk, es[1..]));
    }
  }

  lemma ReadToBoth(c: Conversions, disk: Disk, xs: seq<string>, ts: seq<Tree>, ys: seq<string>, us: seq<Tree>)
    requires AllReadTo(c, disk, xs, ts) && AllReadTo(c, disk, ys, us)
    ensures AllReadTo(c, disk, xs + ys, ts + us)
  {
    hide HasDocument, ReadsTo;
    forall i, d | 0 <= i < |ts + us| && HasDocument(disk, (xs + ys)[i], d)
      ensures ReadsTo(c, d, (ts + us)[i])
    {
      if i < |ts| {
        assert (xs + ys)[i] == xs[i];
      } else {
        assert (xs + ys)[i] == ys[i - |ts|];
      }
    }
  }

  // What one entry contributes.
  ghost function HereTrees(c: Conversions, disk: Disk, e: QueueEntry): seq<Tree>
    requires DiskOk(disk)
  {
    if Contribution(c, disk, e).Some? then [Contribution(c, disk, e).value] else []
  }

  lemma TreesHead(c: Conversions, disk: Disk, es: seq<QueueEntry>)
    requires DiskOk(disk) && es != []
    ensures Trees(c, disk, es) == HereTrees(c, disk, es[0]) + Trees(c, disk, es[1..])
    ensures Documents(disk, es) == Documents(disk, [es[0]]) + Documents(disk, es[1..])
  {
    hide Contribution;
    OneEntry(disk, es[0]);
  }

  lemma EntryTree(c: Conversions, disk: Disk, st: LoadState, e: QueueEntry)
    requires DiskOk(disk) && [] in st.root && LoadEntry(c, disk, st, e).Ok?
    ensures AllReadTo(c, disk, Documents(disk, [e]), HereTrees(c, disk, e))
  {
    hide Merge, ReadDoc, HostAfterAll, Documents;
    OneEntry(disk, e);
    forall d | HasDocument(disk, e.filename, d)
      ensures Contribution(c, disk, e).Some? ==> ReadsTo(c, d, Contribution(c, disk, e).value)
    {
      DocumentOk(disk, e.filename, d);
    }
  }
}
