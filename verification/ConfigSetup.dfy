/** Reading the configuration files and the host document (read_yaml_config), and when the two trees
    that come out are consistent. */
module ConfigSetup {
  import opened Basics
  import opened ConfigPath
  import opened ConfigTree
  import opened ConfigMerge
  import opened ConfigOverlay
  import opened ConfigDocument
  import opened ConfigLoad
  import opened Configuration

  // The node without a name that loading starts from has an unknown type.
  const BLANK: Tree := map[[] := Payload(UNKNOWN, "", [])]

  // What loading yields: the two trees, and the files and directories to watch.
  datatype Setup = Setup(config: Config, files: seq<string>, dirs: seq<string>)

  // The includes that a host document would add to the queue.
  ghost function HostIncludes(disk: Disk, host: string): seq<QueueEntry> {
    Appended(disk, QueueEntry(host, true, false))
  }

  // The tree of the host document, if there is one; it must not include other files.
  ghost function HostDocument(c: Conversions, disk: Disk, host: string): (r: Loaded<(Option<Tree>, string)>)
    requires DiskOk(disk)
    ensures r.Ok? && r.value.0.Some? ==> IsTree(r.value.0.value)
  {
    if host == "" then Ok((None, ""))
    else if ReadFile(c, disk, host, true, host).Ok? && HostIncludes(disk, host) != [] then Err(IncludeInHostFile)
    else ReadFile(c, disk, host, true, host)
  }

  // The second half of loading: the host document is merged last.
  ghost function WithHost(c: Conversions, disk: Disk, st: LoadState): Loaded<Setup>
    requires DiskOk(disk) && [] in st.root
  {
    match HostDocument(c, disk, st.host)
    case Err(x) => Err(x)
    case Ok((None, h)) => Ok(Setup(Config(st.root, BLANK, h), st.files, st.dirs))
    case Ok((Some(host), h)) =>
      var m := Merge(c, st.root, host);
      if m.outcome == Done then Ok(Setup(Config(m.tree, host, h), st.files + [h], st.dirs))
      else Err(InDocument(m.outcome.error))
  }

  ghost function Start(filename: string): (r: (LoadState, seq<QueueEntry>))
    ensures [] in r.0.root
  {
    (LoadState(BLANK, "", [], []), [QueueEntry(filename, false, false)])
  }

  // The configuration read before the host document.
  ghost function Before(c: Conversions, disk: Disk, rank: string -> nat, filename: string): (r: Loaded<LoadState>)
    requires DiskOk(disk) && Acyclic(disk, rank)
    ensures r.Ok? ==> [] in r.value.root
  {
    LoadQueue(c, disk, rank, Start(filename).0, Start(filename).1)
  }

  ghost function LoadConfig(c: Conversions, disk: Disk, rank: string -> nat, filename: string): Loaded<Setup>
    requires DiskOk(disk) && Acyclic(disk, rank)
  {
    match Before(c, disk, rank, filename)
    case Err(x) => Err(x)
    case Ok(st) => WithHost(c, disk, st)
  }

  // ---------------------------------------------------------------- the tree before the host document

  // What the theorems about merging demand of the tree merged into.
  ghost predicate Ready(t: Tree) {
    Sound(t) && RootFree(t)
  }

  lemma BlankReady()
    ensures Ready(BLANK) && Leaves(BLANK) == map[]
  {
    hide Parent, Last, SlashFree, HasKids;
    assert forall p :: p in BLANK ==> p == [];
  }

  lemma MergeReady(c: Conversions, a: Tree, b: Tree)
    requires Ready(a) && IsTree(b)
    ensures Ready(Merge(c, a, b).tree)
  {
    MergeSound(c, a, [], b, []);
    MergeRootFree(c, a, [], b, []);
  }

  lemma EntryReady(c: Conversions, disk: Disk, st: LoadState, e: QueueEntry)
    requires DiskOk(disk) && Ready(st.root)
    ensures LoadEntry(c, disk, st, e).Ok? ==> Ready(LoadEntry(c, disk, st, e).value.root)
  {
    hide Ready;
    ReadyHasRoot(st.root);
    if !e.isDir {
      match ReadFile(c, disk, e.filename, e.ignoreMissing, st.host)
      case Ok((Some(sub), _)) => MergeReady(c, st.root, sub);
      case _ =>
    }
  }

  lemma ReadyHasRoot(t: Tree)
    requires Ready(t)
    ensures [] in t
  {
  }

  lemma {:induction false} QueueReady(c: Conversions, disk: Disk, rank: string -> nat, st: LoadState, q: seq<QueueEntry>)
    requires DiskOk(disk) && Acyclic(disk, rank) && Ready(st.root)
    ensures [] in st.root
    ensures LoadQueue(c, disk, rank, st, q).Ok? ==> Ready(LoadQueue(c, disk, rank, st, q).value.root)
    decreases Weight(disk, rank, q)
  {
    hide Ready, LoadEntry;
    ReadyHasRoot(st.root);
    if q != [] {
      RoundsDecrease(disk, rank, q);
      EntryReady(c, disk, st, q[0]);
      var r := LoadEntry(c, disk, st, q[0]);
      if r.Ok? {
        QueueReady(c, disk, rank, r.value, q[1..] + Appended(disk, q[0]));
      }
    }
  }

  // ---------------------------------------------------------------- consistency after loading

  /** The host document fits over the configuration: no node called "root", and every scalar leaf lies over a
      scalar, over nothing, or over a childless node that already has its text. */
  ghost predicate FitsOver(host: Tree, root: Tree) {
    && RootFree(host)
    && forall p :: p in Leaves(host) && IsScalar(host[p].typ) && p in root ==>
         IsScalar(root[p].typ) || (!HasKids(root, p) && root[p].scalar == host[p].scalar)
  }

  lemma OverlayCovers(c: Conversions, host: Tree, root: Tree, p: Path)
    requires Sound(root) && p in Leaves(host) && IsScalar(host[p].typ)
    ensures p in Overlay(c, root, host)
    ensures p in Leaves(Overlay(c, root, host)) && Overlay(c, root, host)[p].scalar == host[p].scalar <==>
            (p in root ==> IsScalar(root[p].typ) || (!HasKids(root, p) && root[p].scalar == host[p].scalar))
  {
    OverlayKids(c, root, host, p);
    NoKidsOutside(root, p);
  }

  /** A host document that merges without an exception leaves the two trees consistent exactly when it fits and
      every scalar of it that has children lies over a node that is no scalar. */
  lemma HostMergeCovered(c: Conversions, root: Tree, host: Tree)
    requires Ready(root) && IsTree(host)
    requires Merge(c, root, host).outcome == Done
    ensures Covered(host, Merge(c, root, host).tree) <==> FitsOver(host, root) && Settles(root, host)
  {
    hide Sound, HasKids;
    SoundTree(root);
    MergeKeepsPaths(c, root, host);
    if RootFree(host) && Settles(root, host) {
      MergeIsOverlay(c, root, host);
      forall p | p in Leaves(host) && IsScalar(host[p].typ)
        ensures p in Overlay(c, root, host)
        ensures p in Leaves(Overlay(c, root, host)) && Overlay(c, root, host)[p].scalar == host[p].scalar <==>
                (p in root ==> IsScalar(root[p].typ) || (!HasKids(root, p) && root[p].scalar == host[p].scalar))
      {
        OverlayCovers(c, host, root, p);
      }
    }
  }

  lemma SoundTree(t: Tree)
    requires Sound(t)
    ensures IsTree(t) && ScalarsAreLeaves(t)
  {
  }

  // What loading did with the host document.
  lemma HostMerges(c: Conversions, disk: Disk, rank: string -> nat, filename: string)
    requires DiskOk(disk) && Acyclic(disk, rank) && LoadConfig(c, disk, rank, filename).Ok?
    ensures Before(c, disk, rank, filename).Ok?
    ensures var st := Before(c, disk, rank, filename).value; var s := LoadConfig(c, disk, rank, filename).value.config;
            || (s.host == BLANK && s.root == st.root)
            || (IsTree(s.host) && Merge(c, st.root, s.host) == Update(s.root, Done))
  {
    hide HostAfterAll, Merge, LoadQueue, ReadDoc;
  }

  /** After loading, the two trees are consistent exactly when the host document fits over what was read before it
      and its scalars with children lie over nodes that are no scalars; without a host document they always are. */
  lemma LoadedConsistent(c: Conversions, disk: Disk, rank: string -> nat, filename: string)
    requires DiskOk(disk) && Acyclic(disk, rank) && LoadConfig(c, disk, rank, filename).Ok?
    ensures var s := LoadConfig(c, disk, rank, filename).value.config;
            && Before(c, disk, rank, filename).Ok?
            && var before := Before(c, disk, rank, filename).value.root;
               Consistent(s) <==> FitsOver(s.host, before) && Settles(before, s.host)
  {
    hide Ready, Covered, FitsOver, Settles, LoadQueue, LoadConfig, Merge;
    BlankReady();
    QueueReady(c, disk, rank, Start(filename).0, Start(filename).1);
    HostMerges(c, disk, rank, filename);
    var st := Before(c, disk, rank, filename).value;
    var s := LoadConfig(c, disk, rank, filename).value.config;
    ReadyTree(st.root);
    ReadyTree(BLANK);
    if s.host == BLANK && s.root == st.root {
      BlankFits(st.root);
    } else {
      HostMergeCovered(c, st.root, s.host);
      MergeReady(c, st.root, s.host);
      ReadyTree(Merge(c, st.root, s.host).tree);
    }
  }

  lemma ReadyTree(t: Tree)
    requires Ready(t)
    ensures IsTree(t)
  {
  }

  lemma BlankFits(t: Tree)
    requires [] in t
    ensures FitsOver(BLANK, t) && Settles(t, BLANK) && Covered(BLANK, t)
  {
    BlankReady();
  }

  /** From loading on, through any calm sequence of writes and erasures, every scalar of the host tree is
      what the configuration holds. */
  lemma LoadAndRun(c: Conversions, disk: Disk, rank: string -> nat, filename: string, cmds: seq<Command>)
    requires DiskOk(disk) && Acyclic(disk, rank) && LoadConfig(c, disk, rank, filename).Ok?
    requires var s := LoadConfig(c, disk, rank, filename).value.config;
             && Calm(c, s.root, cmds)
             && (Before(c, disk, rank, filename).Ok? ==>
                   && FitsOver(s.host, Before(c, disk, rank, filename).value.root)
                   && Settles(Before(c, disk, rank, filename).value.root, s.host))
    ensures var s := LoadConfig(c, disk, rank, filename).value.config;
            && IsTree(s.root) && IsTree(s.host)
            && forall i :: 0 <= i <= |cmds| ==> Consistent(Run(c, s, cmds[..i]))
  {
    hide LoadConfig, Before, Calm, FitsOver, Settles, Covered, IsTree;
    var s := LoadConfig(c, disk, rank, filename).value.config;
    LoadedConsistent(c, disk, rank, filename);
    SafeRun(c, s, cmds);
    RunKeepsConsistent(c, s, cmds);
  }

  /** A host file that holds one clean document gives a host tree without scalars that have children. */
  lemma CleanHostDocument(c: Conversions, disk: Disk, rank: string -> nat, filename: string, es: seq<Entry>)
    requires DiskOk(disk) && Acyclic(disk, rank) && LoadConfig(c, disk, rank, filename).Ok?
    requires var h := Before(c, disk, rank, filename).value.host;
             h != "" && h in disk.files && disk.files[h] == ConfigOnly(Mapping(es)) && KeysOk(es) && Clean(Flat(c, [], es))
    ensures var host := LoadConfig(c, disk, rank, filename).value.config.host;
            Sound(host) && WellTyped(c, host) && Leaves(host) == LeafMap(Flat(c, [], es))
  {
    hide Clean, Flat, Sound, WellTyped, LeafMap, Leaves, Merge, ReadDoc;
    DocumentLeafMap(c, es);
  }

  // ---------------------------------------------------------------- the overlay of all files

  // The tree that a queue entry contributes when it is read without an exception.
  ghost function Contribution(c: Conversions, disk: Disk, e: QueueEntry): Option<Tree>
    requires DiskOk(disk)
  {
    if e.isDir || e.filename !in disk.files || !(disk.files[e.filename].ConfigOnly? || disk.files[e.filename].WithMeta?)
    then None
    else
      assert FileOk(disk.files[e.filename]);
      match ReadRoot(c, disk.files[e.filename].doc)
      case Ok(t) => Some(t)
      case Err(_) => None
  }

  // The contributed trees, in order.
  ghost function Trees(c: Conversions, disk: Disk, es: seq<QueueEntry>): (ts: seq<Tree>)
    requires DiskOk(disk)
    ensures forall i :: 0 <= i < |ts| ==> IsTree(ts[i])
  {
    if es == [] then []
    else
      match Contribution(c, disk, es[0])
      case None => Trees(c, disk, es[1..])
      case Some(t) => [t] + Trees(c, disk, es[1..])
  }

  // One round of the queue: nothing, or the merge of what the entry contributes.
  lemma EntryMerges(c: Conversions, disk: Disk, st: LoadState, es: seq<QueueEntry>)
    requires DiskOk(disk) && [] in st.root
    ensures es != [] && LoadEntry(c, disk, st, es[0]).Ok? ==>
              match Contribution(c, disk, es[0])
              case None => LoadEntry(c, disk, st, es[0]).value.root == st.root
              case Some(t) => Merge(c, st.root, t) == Update(LoadEntry(c, disk, st, es[0]).value.root, Done)
  {
    hide HostAfterAll, Merge, ReadDoc;
  }

  /** What the queue has read is the merge of all contributed trees, in order. */
  lemma {:induction false} LoadListMerges(c: Conversions, disk: Disk, st: LoadState, es: seq<QueueEntry>)
    requires DiskOk(disk) && [] in st.root
    ensures LoadList(c, disk, st, es).Ok? ==>
              MergeAll(c, st.root, Trees(c, disk, es)) == Update(LoadList(c, disk, st, es).value.root, Done)
    decreases |es|
  {
    hide Contribution, LoadEntry, Merge, DiskOk;
    EntryMerges(c, disk, st, es);
    if es != [] && LoadEntry(c, disk, st, es[0]).Ok? {
      LoadListMerges(c, disk, LoadEntry(c, disk, st, es[0]).value, es[1..]);
      match Contribution(c, disk, es[0]) {
        case Some(t) => assert ([t] + Trees(c, disk, es[1..]))[1..] == Trees(c, disk, es[1..]);
        case None =>
      }
    }
  }

  // All trees that loading lays over each other, the host tree last.
  ghost function Layers(c: Conversions, disk: Disk, rank: string -> nat, filename: string, host: Tree): (ts: seq<Tree>)
    requires DiskOk(disk) && Acyclic(disk, rank) && IsTree(host)
    ensures forall i :: 0 <= i < |ts| ==> IsTree(ts[i])
  {
    Trees(c, disk, Visited(disk, rank, Start(filename).1)) + [host]
  }

  lemma LoadedMerges(c: Conversions, disk: Disk, rank: string -> nat, filename: string)
    requires DiskOk(disk) && Acyclic(disk, rank) && LoadConfig(c, disk, rank, filename).Ok?
    ensures var s := LoadConfig(c, disk, rank, filename).value.config;
            && [] in BLANK && IsTree(s.host)
            && MergeAll(c, BLANK, Layers(c, disk, rank, filename, s.host)) == Update(s.root, Done)
  {
    hide IsTree, Visited, LoadQueue, LoadConfig, LoadList, Merge, Trees, MergeAll, Ready;
    var q := Start(filename).1;
    BlankReady();
    ReadyTree(BLANK);
    HostMerges(c, disk, rank, filename);
    QueueIsFold(c, disk, rank, Start(filename).0, q);
    LoadListMerges(c, disk, Start(filename).0, Visited(disk, rank, q));
    QueueReady(c, disk, rank, Start(filename).0, q);
    var st := Before(c, disk, rank, filename).value;
    var s := LoadConfig(c, disk, rank, filename).value.config;
    MergeLast(c, BLANK, Trees(c, disk, Visited(disk, rank, q)), s.host);
    if s.host == BLANK && s.root == st.root {
      ReadyRoot(c, disk, rank, filename);
      BlankMerges(c, st.root);
    }
  }

  // The root of what is read is no scalar.
  lemma ReadyRoot(c: Conversions, disk: Disk, rank: string -> nat, filename: string)
    requires DiskOk(disk) && Acyclic(disk, rank) && Before(c, disk, rank, filename).Ok?
    ensures IsTree(Before(c, disk, rank, filename).value.root)
    ensures !IsScalar(Before(c, disk, rank, filename).value.root[[]].typ)
  {
    hide Visited, LoadQueue, LoadList, Merge, Trees, Ready;
    var q := Start(filename).1;
    BlankReady();
    QueueIsFold(c, disk, rank, Start(filename).0, q);
    LoadListMerges(c, disk, Start(filename).0, Visited(disk, rank, q));
    QueueReady(c, disk, rank, Start(filename).0, q);
    ReadyTree(Before(c, disk, rank, filename).value.root);
    MergeAllExtends(c, BLANK, Trees(c, disk, Visited(disk, rank, q)));
  }

  // Without a host document nothing is merged, which is what merging an empty tree amounts to.
  lemma BlankMerges(c: Conversions, t: Tree)
    requires IsTree(t) && IsTree(BLANK) && !IsScalar(t[[]].typ)
    ensures Merge(c, t, BLANK) == Update(t, Done)
  {
    MergeIsOverlay(c, t, BLANK);
    assert Overlay(c, t, BLANK) == t;
  }

  /** A loaded configuration holds every path of all files, and its scalar leaves are those of all files in queue
      order, laid over each other, with those of the host document on top, exactly when they can be laid over each
      other. */
  lemma LoadedLeaves(c: Conversions, disk: Disk, rank: string -> nat, filename: string)
    requires DiskOk(disk) && Acyclic(disk, rank) && LoadConfig(c, disk, rank, filename).Ok?
    ensures var s := LoadConfig(c, disk, rank, filename).value.config;
            IsTree(s.host) &&
            var ts := Layers(c, disk, rank, filename, s.host);
            AllArrived(ts, s.root) && ScalarLeaves(s.root) == LeavesOf(ts) <==> Layered(c, BLANK, ts)
  {
    hide IsTree, ScalarLeaves, Layers, LoadConfig, LeavesOf, MergeAll, Layered, AllArrived;
    BlankLeaves();
    LoadedMerges(c, disk, rank, filename);
    var ts := Layers(c, disk, rank, filename, LoadConfig(c, disk, rank, filename).value.config.host);
    MergeAllLeaves(c, BLANK, ts);
    assert map[] + LeavesOf(ts) == LeavesOf(ts);
  }

  lemma BlankLeaves()
    ensures ScalarLeaves(BLANK) == map[] && Sound(BLANK) && RootFree(BLANK)
  {
    BlankReady();
  }
}
