/** The configuration object: it loads the files into trees on the heap and changes the two trees in place. */
module YamlConfiguration {
  import opened Basics
  import opened ConfigPath
  import opened ConfigTree
  import opened ConfigNode
  import opened ConfigMerge
  import opened ConfigDocument
  import opened ConfigLoad
  import opened Configuration
  import opened ConfigSetup

  // read_config_doc on a new root node.
  method ReadDocument(c: Conversions, d: Doc) returns (r: Loaded<Node>)
    requires d.Mapping? ==> KeysOk(d.entries)
    ensures r.Ok? ==> r.value.Valid() && fresh(r.value.shape.repr) && ReadRoot(c, d) == Ok(r.value.shape.tree)
    ensures r.Err? ==> ReadRoot(c, d) == Err(r.error)
  {
    hide Holds, ReadDoc;
    var n := new Node.Root(NONE);
    RootShape(n.shape, n);
    var o;
    ghost var s;
    o, s := ReadInto(c, d, n, n.shape, n, []);
    n.Adopt(s);
    r := if o == Done then Ok(n) else Err(InDocument(o.error));
  }

  // read_yaml_file: the tree of the file's document, and the queue and host file its includes leave behind.
  method ReadYamlFile(c: Conversions, disk: Disk, filename: string, ignoreMissing: bool, queue: seq<QueueEntry>, host: string)
    returns (r: Loaded<string>, sub: Node?, queue': seq<QueueEntry>)
    requires DiskOk(disk)
    ensures r.Err? ==> ReadFile(c, disk, filename, ignoreMissing, host) == Err(r.error)
    ensures r.Ok? && sub != null ==>
              && sub.Valid() && fresh(sub.shape.repr)
              && ReadFile(c, disk, filename, ignoreMissing, host) == Ok((Some(sub.shape.tree), r.value))
    ensures r.Ok? && sub == null ==> ReadFile(c, disk, filename, ignoreMissing, host) == Ok((None, r.value))
    ensures r.Ok? ==> queue' == queue + Appended(disk, QueueEntry(filename, ignoreMissing, false))
  {
    hide Holds, ReadRoot, HostAfterAll;
    sub, queue', r := null, queue, Ok(host);
    if filename !in disk.files {
      if !ignoreMissing {
        r := Err(NoSuchFile);
      }
      return;
    }
    assert FileOk(disk.files[filename]);
    match disk.files[filename]
    case Unparsable => r := Err(BadSyntax);
    case NoDocument =>
    case ConfigOnly(d) =>
      var t := ReadDocument(c, d);
      if t.Ok? { sub := t.value; } else { r := Err(t.error); }
    case WithMeta(incs, d) =>
      r, queue' := ReadMetaDoc(disk, incs, queue, host);
      if r.Ok? {
        var t := ReadDocument(c, d);
        if t.Ok? { sub := t.value; } else { r := Err(t.error); }
      }
  }

  // One round of the queue loop of read_yaml_config.
  method ReadEntryFile(c: Conversions, disk: Disk, root: Node, e: QueueEntry, queue: seq<QueueEntry>,
                       host: string, files: seq<string>, dirs: seq<string>)
    returns (r: Loaded<string>, queue': seq<QueueEntry>, files': seq<string>, dirs': seq<string>)
    requires DiskOk(disk) && root.Valid() && [] in root.shape.tree
    modifies root.shape.repr
    ensures root.Valid() && old(root.shape.repr) <= root.shape.repr && fresh(root.shape.repr - old(root.shape.repr))
    ensures [] in root.shape.tree
    ensures var st := LoadEntry(c, disk, LoadState(old(root.shape.tree), host, files, dirs), e);
            if r.Ok? then st == Ok(LoadState(root.shape.tree, r.value, files', dirs')) else st == Err(r.error)
    ensures r.Ok? ==> queue' == queue + Appended(disk, e)
  {
    hide Holds, ReadFile, Merge, Appended;
    r, queue', files', dirs' := Ok(host), queue, files, dirs;
    if e.isDir {
      NothingAppended(disk, e);
      dirs' := dirs + [e.filename];
      return;
    }
    var sub;
    r, sub, queue' := ReadYamlFile(c, disk, e.filename, e.ignoreMissing, queue, host);
    assert e == QueueEntry(e.filename, e.ignoreMissing, false);
    if r.Ok? && sub != null {
      files' := files + [e.filename];
      RootShape(sub.shape, sub);
      var o := MergeTree(c, root, sub);
      RootShape(root.shape, root);
      if o != Done {
        r := Err(InDocument(o.error));
        return;
      }
      var freed := DeleteTree(sub, root);
    }
  }

  lemma NothingAppended(disk: Disk, e: QueueEntry)
    ensures e.isDir ==> Appended(disk, e) == []
  {
  }

  // The host document, which must not extend the queue.
  method ReadHostFile(c: Conversions, disk: Disk, host: string) returns (r: Loaded<string>, n: Node?)
    requires DiskOk(disk)
    ensures r.Err? ==> HostDocument(c, disk, host) == Err(r.error)
    ensures r.Ok? && n != null ==>
              n.Valid() && fresh(n.shape.repr) && HostDocument(c, disk, host) == Ok((Some(n.shape.tree), r.value))
    ensures r.Ok? && n == null ==> HostDocument(c, disk, host) == Ok((None, r.value))
  {
    hide Holds, ReadFile, Appended;
    r, n := Ok(host), null;
    if host != "" {
      var queue;
      r, n, queue := ReadYamlFile(c, disk, host, true, [], host);
      if r.Ok? && queue != [] {
        r := Err(IncludeInHostFile);
      }
    }
  }

  class YamlConfiguration {
    var root: Node?
    var hostRoot: Node?
    var hostFile: string

    // The objects of the tree below n.
    ghost function Objects(n: Node?): set<Node>
      reads n
    {
      if n == null then {} else n.shape.repr
    }

    ghost predicate Valid()
      reads this, root, hostRoot, Objects(root), Objects(hostRoot)
    {
      && root != null && hostRoot != null && root in root.shape.repr && hostRoot in hostRoot.shape.repr
      && root.shape.repr !! hostRoot.shape.repr && root.Valid() && hostRoot.Valid()
    }

    ghost function State(): (s: Config)
      requires Valid()
      reads this, root, hostRoot, Objects(root), Objects(hostRoot)
      ensures IsTree(s.root) && IsTree(s.host)
    {
      RootShape(root.shape, root);
      RootShape(hostRoot.shape, hostRoot);
      Config(root.shape.tree, hostRoot.shape.tree, hostFile)
    }

    constructor ()
      ensures root == null && hostRoot == null && hostFile == ""
    {
      root, hostRoot, hostFile := null, null, "";
    }

    // read_yaml_config: the files, level by level, into one tree, then the host document.
    method ReadYamlConfig(c: Conversions, disk: Disk, ghost rank: string -> nat, filename: string)
      returns (r: Loaded<(seq<string>, seq<string>)>)
      requires DiskOk(disk) && Acyclic(disk, rank)
      modifies this
      ensures r.Ok? ==>
                && Valid() && fresh(Objects(root)) && fresh(Objects(hostRoot))
                && LoadConfig(c, disk, rank, filename) == Ok(Setup(State(), r.value.0, r.value.1))
      ensures r.Err? ==> LoadConfig(c, disk, rank, filename) == Err(r.error)
    {
      hide Holds, LoadEntry, Acyclic, DiskOk, Weight, Appended;
      hostFile := "";
      var tree := new Node.Root(UNKNOWN);
      root := tree;
      RootShape(tree.shape, tree);
      var host, files, dirs := "", [], [];
      var queue := [QueueEntry(filename, false, false)];
      while queue != []
        invariant tree.Valid() && fresh(tree.shape.repr) && [] in tree.shape.tree
        invariant LoadQueue(c, disk, rank, LoadState(tree.shape.tree, host, files, dirs), queue)
                  == Before(c, disk, rank, filename)
        decreases Weight(disk, rank, queue)
      {
        RoundsDecrease(disk, rank, queue);
        var read;
        ghost var before := queue;
        read, queue, files, dirs := ReadEntryFile(c, disk, tree, queue[0], queue, host, files, dirs);
        if read.Err? {
          return Err(read.error);
        }
        host := read.value;
        TailOfAppend(before, Appended(disk, before[0]));
        queue := queue[1..];
      }
      r := ReadHost(c, disk, tree, host, files, dirs);
    }

    // The second half of read_yaml_config.
    method ReadHost(c: Conversions, disk: Disk, tree: Node, host: string, files: seq<string>, dirs: seq<string>)
      returns (r: Loaded<(seq<string>, seq<string>)>)
      requires DiskOk(disk) && tree.Valid() && [] in tree.shape.tree
      modifies this, tree.shape.repr
      ensures var l := WithHost(c, disk, LoadState(old(tree.shape.tree), host, files, dirs));
              if r.Ok? then
                && Valid() && fresh(Objects(root) - old(tree.shape.repr)) && fresh(Objects(hostRoot))
                && l == Ok(Setup(State(), r.value.0, r.value.1))
              else l == Err(r.error)
    {
      hide Holds, HostDocument, Merge;
      RootShape(tree.shape, tree);
      root, hostFile := tree, host;
      var read, hostNode := ReadHostFile(c, disk, host);
      if read.Err? {
        return Err(read.error);
      }
      hostFile := read.value;
      var files' := files;
      if hostNode != null {
        RootShape(hostNode.shape, hostNode);
        var o := MergeTree(c, tree, hostNode);
        if o != Done {
          return Err(InDocument(o.error));
        }
        files' := files + [hostFile];
      } else {
        hostNode := new Node.Root(UNKNOWN);
      }
      hostRoot := hostNode;
      r := Ok((files', dirs));
    }

    // get_string; the other getters convert the text it returns.
    method GetString(path: string) returns (q: Query)
      requires Valid()
      ensures q == Get(State().root, Split(path))
    {
      hide Holds, Split;
      var n, o := root.Find(path);
      if n == null {
        return Absent(o.error.missing);
      }
      var inner := n.HasChildren(root.shape, root, Split(path));
      if inner {
        return Inner;
      }
      var d := Inspect(n, root.shape, root, Split(path));
      q := if d.typ == SEQUENCE then IsList else Value(d.scalar);
    }

    // Once a tree operation is done: writing the host file needs a host file.
    method WriteHostFile() returns (a: Answer)
      requires Valid()
      ensures a == AfterWrite(State())
    {
      a := if hostFile == "" then NoHostFile else Stored;
    }

    // set_float, set_uint, set_int, set_bool and set_string, given the text that the value prints to.
    method SetScalar(c: Conversions, path: string, text: string) returns (a: Answer)
      requires Valid()
      modifies Objects(root), Objects(hostRoot)
      ensures Valid() && fresh(Objects(root) - old(Objects(root))) && fresh(Objects(hostRoot) - old(Objects(hostRoot)))
      ensures (State(), a) == Step(c, old(State()), PutScalar(path, text))
    {
      hide Holds, SetValue, Split, IsTree, Components;
      ghost var before := State();
      RootShape(root.shape, root);
      RootShape(hostRoot.shape, hostRoot);
      var o := root.SetValue(c, path, text);
      if o != Done {
        return Refused(o.error);
      }
      o := hostRoot.SetValue(c, path, text);
      if o != Done {
        return Refused(o.error);
      }
      a := WriteHostFile();
    }

    // The set_* operations on lists.
    method SetList(c: Conversions, path: string, values: seq<string>) returns (a: Answer)
      requires Valid()
      modifies Objects(root), Objects(hostRoot)
      ensures Valid() && fresh(Objects(root) - old(Objects(root))) && fresh(Objects(hostRoot) - old(Objects(hostRoot)))
      ensures (State(), a) == Step(c, old(State()), PutList(path, values))
    {
      hide Holds, ConfigTree.SetList, Split, IsTree, Components;
      ghost var before := State();
      RootShape(root.shape, root);
      RootShape(hostRoot.shape, hostRoot);
      var o := root.SetList(path, values);
      if o != Done {
        return Refused(o.error);
      }
      o := hostRoot.SetList(path, values);
      if o != Done {
        return Refused(o.error);
      }
      a := WriteHostFile();
    }

    method Erase(c: Conversions, path: string) returns (a: Answer)
      requires Valid()
      modifies Objects(root), Objects(hostRoot)
      ensures Valid() && fresh(Objects(root) - old(Objects(root))) && fresh(Objects(hostRoot) - old(Objects(hostRoot)))
      ensures (State(), a) == Step(c, old(State()), Remove(path))
    {
      hide Holds, ConfigTree.Erase, Split, IsTree, Components;
      ghost var before := State();
      RootShape(root.shape, root);
      RootShape(hostRoot.shape, hostRoot);
      var o := hostRoot.Erase(path);
      if o != Done {
        return Refused(o.error);
      }
      o := root.Erase(path);
      if o != Done {
        return Refused(o.error);
      }
      a := WriteHostFile();
    }
  }
}
