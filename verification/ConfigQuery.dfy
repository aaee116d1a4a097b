/** Reading the tree: enumeration of the leaves, search below a prefix, and the
    difference of two trees. All three key their results by path text. */
module ConfigQuery {
  import opened Basics
  import opened ConfigPath
  import opened ConfigTree
  import opened ConfigNode
  import opened KeyOrder

  // ---------------------------------------------------------------- keys

  // The key of leaf p in an enumeration that starts n components down the tree with this prefix.
  ghost function Key(prefix: string, n: nat, p: Path): string
    requires n <= |p|
  {
    prefix + Text(p[n..])
  }

  lemma {:induction false} TextCons(k: string, p: Path)
    ensures Text([k] + p) == "/" + k + Text(p)
    decreases |p|
  {
    var w := [k] + p;
    if p == [] {
      assert Parent(w) == [] && Last(w) == k;
      assert Text(w) == Text([]) + "/" + k;
    } else {
      assert Parent(w) == [k] + Parent(p) && Last(w) == Last(p);
      TextCons(k, Parent(p));
    }
  }

  // Descending into child k moves the child's name into the prefix.
  lemma KeyStep(prefix: string, at: Path, k: string, p: Path)
    requires Child(at, k) <= p
    ensures at < p && Key(prefix + "/" + k, |at| + 1, p) == Key(prefix, |at|, p)
  {
    assert p[|at|..] == [k] + p[|at| + 1..];
    TextCons(k, p[|at| + 1..]);
  }

  lemma TreeSlashFree(t: Tree, p: Path)
    requires IsTree(t) && p in t
    ensures forall k | k in p :: SlashFree(k)
  {
    forall i | 0 <= i < |p|
      ensures SlashFree(p[i])
    {
      PrefixIn(t, p[..i + 1], p);
      assert Last(p[..i + 1]) == p[i];
    }
  }

  /** No two nodes below the same start get the same key. */
  lemma KeyInjective(t: Tree, prefix: string, at: Path, p: Path, q: Path)
    requires IsTree(t) && p in t && q in t && at <= p && at <= q
    requires Key(prefix, |at|, p) == Key(prefix, |at|, q)
    ensures p == q
  {
    TreeSlashFree(t, p);
    TreeSlashFree(t, q);
    var a, b := p[|at|..], q[|at|..];
    assert prefix + Text(a) == prefix + Text(b);
    assert Text(a) == (prefix + Text(a))[|prefix|..] == (prefix + Text(b))[|prefix|..] == Text(b);
    TextInjective(a, b);
    assert p == at + a && q == at + b;
  }

  // ---------------------------------------------------------------- enumeration

  // The leaves strictly below at.
  ghost function LeavesBelow(t: Tree, at: Path): set<Path> {
    set p | p in t && IsLeaf(t, p) && at < p
  }

  // Those of them under one of the given children.
  ghost function LeavesUnder(t: Tree, at: Path, ks: seq<string>): set<Path> {
    set p | p in t && IsLeaf(t, p) && at < p && p[|at|] in ks
  }

  /** `found` is `before` plus one entry per path in S: the path's node under the path's key. */
  ghost predicate Listed(s: Shape, prefix: string, n: nat, S: set<Path>,
                         before: map<string, Node>, found: map<string, Node>)
  {
    && (forall p :: p in S ==>
          n <= |p| && p in s.nodes && Key(prefix, n, p) in found && found[Key(prefix, n, p)] == s.nodes[p])
    && (forall key :: key in found ==>
          || (exists p :: p in S && n <= |p| && key == Key(prefix, n, p))
          || (key in before && found[key] == before[key]))
    && before.Keys <= found.Keys
  }

  // Two enumerations one after the other list the paths of both.
  lemma ListedBoth(s: Shape, prefix: string, at: Path, S: set<Path>, T: set<Path>,
                   before: map<string, Node>, middle: map<string, Node>, found: map<string, Node>)
    requires IsTree(s.tree) && s.nodes.Keys == s.tree.Keys
    requires Listed(s, prefix, |at|, S, before, middle) && Listed(s, prefix, |at|, T, middle, found)
    requires forall p :: p in S || p in T ==> at <= p
    ensures Listed(s, prefix, |at|, S + T, before, found)
  {
    forall p | p in S
      ensures found[Key(prefix, |at|, p)] == s.nodes[p]
    {
      var key := Key(prefix, |at|, p);
      if q :| q in T && key == Key(prefix, |at|, q) {
        KeyInjective(s.tree, prefix, at, p, q);
      }
    }
  }

  // The enumeration of a child's subtree, seen from the child's parent.
  lemma ListedFromChild(s: Shape, prefix: string, at: Path, k: string, S: set<Path>,
                        before: map<string, Node>, found: map<string, Node>)
    requires forall p :: p in S ==> Child(at, k) <= p
    requires Listed(s, prefix + "/" + k, |at| + 1, S, before, found)
    ensures Listed(s, prefix, |at|, S, before, found)
  {
    forall p | p in S
      ensures Key(prefix + "/" + k, |at| + 1, p) == Key(prefix, |at|, p)
    {
      KeyStep(prefix, at, k, p);
    }
  }

  lemma UnderOneMore(t: Tree, at: Path, ks: seq<string>, k: string)
    requires IsTree(t) && Child(at, k) in t
    ensures LeavesUnder(t, at, ks + [k]) ==
            LeavesUnder(t, at, ks) + if HasKids(t, Child(at, k)) then LeavesBelow(t, Child(at, k)) else {Child(at, k)}
  {
    var q := Child(at, k);
    KidsBelow(t, q);
    forall p
      ensures p in LeavesUnder(t, at, ks + [k]) <==>
              p in LeavesUnder(t, at, ks) || (p in t && IsLeaf(t, p) && q <= p)
    {
      if at < p {
        NextPrefix(at, p);
      }
    }
    forall p
      ensures p in t && IsLeaf(t, p) && q <= p <==>
              p in if HasKids(t, q) then LeavesBelow(t, q) else {q}
    {
      if q <= p {
        assert p == q || q < p;
      }
    }
  }

  lemma UnderAll(t: Tree, at: Path, ks: seq<string>)
    requires IsTree(t) && forall k :: k in ks <==> Child(at, k) in t
    ensures LeavesUnder(t, at, ks) == LeavesBelow(t, at)
  {
    forall p | p in LeavesBelow(t, at)
      ensures p[|at|] in ks
    {
      NextPrefix(at, p);
      PrefixIn(t, Child(at, p[|at|]), p);
    }
  }

  // How many more components a path of the tree can have than p.
  ghost function Depth(t: Tree): (n: nat)
    ensures forall p :: p in t ==> |p| <= n
  {
    DepthOf(t.Keys)
  }

  ghost function DepthOf(ps: set<Path>): (n: nat)
    ensures forall p :: p in ps ==> |p| <= n
    decreases |ps|
  {
    if ps == {} then 0
    else
      var p :| p in ps;
      var n := DepthOf(ps - {p});
      if |p| <= n then n else |p|
  }

  // enum_leafs: visit the children in key order, list a childless one, descend into the others.
  method EnumLeafs(n: Node, nodes: map<string, Node>, prefix: string,
                   ghost s: Shape, ghost root: Node, ghost at: Path)
    returns (found: map<string, Node>)
    requires Holds(s, root) && at in s.nodes && s.nodes[at] == n && at in s.tree
    ensures Listed(s, prefix, |at|, LeavesBelow(s.tree, at), nodes, found)
    decreases Depth(s.tree) - |at|
  {
    hide Holds, HasKids, Listed, LeavesUnder, LeavesBelow, IsTree, Sorted, Child, Parent, Last;
    RootShape(s, root);
    var ks := n.KeysInOrder(s, root, at);
    found := nodes;
    ListedNothing(s, prefix, at, nodes);
    var i := 0;
    while i < |ks|
      invariant 0 <= i <= |ks|
      invariant Listed(s, prefix, |at|, LeavesUnder(s.tree, at, ks[..i]), nodes, found)
    {
      var k := ks[i];
      ghost var middle, q := found, Child(at, k);
      ChildLength(at, k);
      var c := n.Lookup(k, s, root, at);
      var path := prefix + "/" + k;
      var inner := c.HasChildren(s, root, q);
      ghost var part := if inner then LeavesBelow(s.tree, q) else {q};
      if inner {
        found := EnumLeafs(c, found, path, s, root, q);
      } else {
        found := found[path := c];
        ListedOne(s, path, q, middle, found);
      }
      ListedStep(s, prefix, at, ks, i, part, nodes, middle, found);
      i := i + 1;
    }
    assert ks[..i] == ks;
    UnderAll(s.tree, at, ks);
  }

  // The enumeration after child i: what its subtree contributed joins what was listed before.
  lemma ListedStep(s: Shape, prefix: string, at: Path, ks: seq<string>, i: nat, part: set<Path>,
                   before: map<string, Node>, middle: map<string, Node>, found: map<string, Node>)
    requires IsTree(s.tree) && s.nodes.Keys == s.tree.Keys && i < |ks| && Child(at, ks[i]) in s.tree
    requires part == if HasKids(s.tree, Child(at, ks[i])) then LeavesBelow(s.tree, Child(at, ks[i]))
                     else {Child(at, ks[i])}
    requires Listed(s, prefix, |at|, LeavesUnder(s.tree, at, ks[..i]), before, middle)
    requires Listed(s, prefix + "/" + ks[i], |at| + 1, part, middle, found)
    ensures Listed(s, prefix, |at|, LeavesUnder(s.tree, at, ks[..i + 1]), before, found)
  {
    hide Listed, LeavesUnder, LeavesBelow, HasKids, IsTree;
    PartBelow(s.tree, Child(at, ks[i]), part);
    ListedFromChild(s, prefix, at, ks[i], part, middle, found);
    UnderBelow(s.tree, at, ks[..i]);
    PrefixOfChild(at, at, ks[i]);
    ListedBoth(s, prefix, at, LeavesUnder(s.tree, at, ks[..i]), part, before, middle, found);
    UnderOneMore(s.tree, at, ks[..i], ks[i]);
    assert ks[..i + 1] == ks[..i] + [ks[i]];
  }

  lemma PartBelow(t: Tree, q: Path, part: set<Path>)
    requires part == LeavesBelow(t, q) || part == {q}
    ensures forall p :: p in part ==> q <= p
  {
    assert q <= q;
  }

  lemma UnderBelow(t: Tree, at: Path, ks: seq<string>)
    ensures forall p :: p in LeavesUnder(t, at, ks) ==> at <= p
  {
  }

  lemma ListedNothing(s: Shape, prefix: string, at: Path, nodes: map<string, Node>)
    ensures Listed(s, prefix, |at|, LeavesUnder(s.tree, at, []), nodes, nodes)
  {
    assert LeavesUnder(s.tree, at, []) == {};
  }

  lemma ListedOne(s: Shape, path: string, q: Path, before: map<string, Node>, found: map<string, Node>)
    requires q in s.nodes && found == before[path := s.nodes[q]]
    ensures Listed(s, path, |q|, {q}, before, found)
  {
    assert q[|q|..] == [];
    assert Key(path, |q|, q) == path + "" == path;
  }

  // ---------------------------------------------------------------- iterator and search

  /** What the whole tree's enumeration is: every leaf once, under its path text. */
  ghost predicate AllLeaves(s: Shape, found: map<string, Node>) {
    && (forall p :: p in Leaves(s.tree) ==> p in s.nodes && Text(p) in found && found[Text(p)] == s.nodes[p])
    && (forall key :: key in found ==> exists p :: p in Leaves(s.tree) && key == Text(p))
  }

  // iterator(): the leaves of the whole tree.
  method Leafs(root: Node) returns (found: map<string, Node>)
    requires root.Valid()
    ensures AllLeaves(root.shape, found)
  {
    ghost var s := root.shape;
    RootShape(s, root);
    found := EnumLeafs(root, map[], "", s, root, []);
    forall p
      ensures p in Leaves(s.tree) ==> p in LeavesBelow(s.tree, []) && Key("", 0, p) == Text(p)
      ensures p in LeavesBelow(s.tree, []) ==> p in Leaves(s.tree) && Key("", 0, p) == Text(p)
    {
      assert [] <= p && p[0..] == p && "" + Text(p) == Text(p);
    }
  }

  // The prefix that search looks up: the given text without one trailing slash.
  function Trimmed(path: string): string {
    if path != "" && path[|path| - 1] == DELIM then path[..|path| - 1] else path
  }

  /** The result of a search: the leaves below the node found, nothing when there is no such node. */
  ghost predicate Searched(s: Shape, path: string, found: map<string, Node>) {
    var at := Split(Trimmed(path));
    if at in s.tree then Listed(s, Trimmed(path), |at|, LeavesBelow(s.tree, at), map[], found) else found == map[]
  }

  method Search(root: Node, path: string) returns (found: map<string, Node>)
    requires root.Valid()
    ensures IsTree(root.shape.tree) && root.shape.nodes.Keys == root.shape.tree.Keys
    ensures Searched(root.shape, path, found)
  {
    hide Listed, Split;
    ghost var s := root.shape;
    RootShape(s, root);
    var tmp := Trimmed(path);
    var n, o := root.Find(tmp);
    if n == null {
      return map[];
    }
    found := EnumLeafs(n, map[], tmp, s, root, Split(tmp));
  }

  lemma {:induction false} TextAppend(p: Path, q: Path)
    ensures Text(p + q) == Text(p) + Text(q)
    decreases |q|
  {
    if q == [] {
      assert p + q == p && Text(p) + "" == Text(p);
    } else {
      ParentOfAppend(p, q);
      TextAppend(p, Parent(q));
      hide Parent, Last;
      Associative(Text(p), Text(Parent(q)), "/");
      Associative(Text(p), Text(Parent(q)) + "/", Last(q));
    }
  }

  /** Together with TextAppend: a path text is every component with a slash in front of it. */
  lemma TextOfOne(k: string)
    ensures Text([k]) == "/" + k && Text([]) == ""
  {
    assert Parent([k]) == [];
  }

  lemma ParentOfAppend(p: Path, q: Path)
    requires q != []
    ensures p + q != [] && Parent(p + q) == p + Parent(q) && Last(p + q) == Last(q)
  {
  }

  /** A key of a search result is the text of the leaf it stands for exactly when the prefix was
      given as the text of the node searched from: absolute, without doubled slashes. */
  lemma SearchKeyIsText(prefix: string, p: Path)
    requires Split(prefix) <= p
    ensures Key(prefix, |Split(prefix)|, p) == Text(p) <==> prefix == Text(Split(prefix))
  {
    var at := Split(prefix);
    var rest := p[|at|..];
    assert p == at + rest;
    TextAppend(at, rest);
    var a, b := prefix + Text(rest), Text(at) + Text(rest);
    if a == b {
      assert |prefix| == |Text(at)|;
      assert prefix == a[..|prefix|] == b[..|Text(at)|] == Text(at);
    }
  }

  // The text of an addressable path leads back to the path, with and without a slash at its end.
  lemma CanonicalPrefix(at: Path)
    requires Components(at)
    ensures Trimmed(Text(at)) == Text(at) == Trimmed(Text(at) + "/") && Split(Text(at)) == at
  {
    SplitText(at);
    var w := Text(at) + "/";
    assert w[..|w| - 1] == Text(at);
    if at != [] {
      assert Last(at) in at;
      var k := Last(at);
      assert Text(at)[|Text(at)| - 1] == k[|k| - 1] && k[|k| - 1] in k;
    }
  }

  /** On a canonical prefix, with or without a slash at its end, a search returns exactly the leaves of the whole
      tree whose path goes through the prefix, each under its own path text. */
  lemma SearchFilters(s: Shape, at: Path, found: map<string, Node>)
    requires IsTree(s.tree) && s.nodes.Keys == s.tree.Keys && Components(at)
    requires Searched(s, Text(at), found) || Searched(s, Text(at) + "/", found)
    ensures forall p :: p in Leaves(s.tree) && at < p ==>
              p in s.nodes && Text(p) in found && found[Text(p)] == s.nodes[p]
    ensures forall key :: key in found ==> exists p :: p in Leaves(s.tree) && at < p && key == Text(p)
  {
    CanonicalPrefix(at);
    hide Key, IsTree, Leaves, LeavesBelow, Text, Split, Trimmed;
    forall p
      ensures p in LeavesBelow(s.tree, at) <==> p in Leaves(s.tree) && at < p && at in s.tree
      ensures p in Leaves(s.tree) && at < p ==> at in s.tree
      ensures at < p ==> Key(Text(at), |at|, p) == Text(p)
    {
      LeafBelow(s.tree, at, p);
    }
  }

  // A leaf that a search on the canonical prefix of at lists, and its key.
  lemma LeafBelow(t: Tree, at: Path, p: Path)
    requires IsTree(t) && Components(at)
    ensures p in LeavesBelow(t, at) <==> p in Leaves(t) && at < p && at in t
    ensures p in Leaves(t) && at < p ==> at in t
    ensures at < p ==> Key(Text(at), |at|, p) == Text(p)
  {
    hide IsLeaf, IsTree, Split, Text;
    if at < p {
      SplitText(at);
      SearchKeyIsText(Text(at), p);
      if p in t {
        PrefixIn(t, at, p);
      }
    }
  }

  /** Looking up the key under which a leaf is enumerated finds that very node exactly when every component of its
      path can be addressed: a path text cannot name an empty key. */
  lemma FindEnumerated(s: Shape, found: map<string, Node>, p: Path)
    requires Placed(s) && AllLeaves(s, found) && p in Leaves(s.tree)
    ensures Text(p) in found
    ensures Split(Text(p)) in s.nodes && s.nodes[Split(Text(p))] == found[Text(p)] <==> Components(p)
  {
    hide IsTree, Leaves, Split, Text, Components;
    if Components(p) {
      SplitText(p);
    }
    var q := Split(Text(p));
    if q in s.nodes && s.nodes[q] == s.nodes[p] {
      assert s.nodes[q].path == q && s.nodes[p].path == p;
    }
  }

  // ---------------------------------------------------------------- diff

  // One list entry per reported path, no path twice.
  ghost predicate Reports(rv: seq<string>, a: Tree, b: Tree) {
    && (forall p :: p in Changed(a, b) ==> Text(p) in rv)
    && (forall i :: 0 <= i < |rv| ==> exists p :: p in Changed(a, b) && rv[i] == Text(p))
    && (forall i, j :: 0 <= i < j < |rv| ==> rv[i] != rv[j])
  }

  lemma {:induction false} LeafSlashFree(t: Tree, p: Path)
    requires IsTree(t) && p in Leaves(t)
    ensures forall k | k in p :: SlashFree(k)
  {
    TreeSlashFree(t, p);
  }

  // A key stands for one path only, in whichever tree.
  lemma SameKeySamePath(a: Tree, b: Tree, p: Path, q: Path)
    requires IsTree(a) && IsTree(b) && p in Leaves(a) && q in Leaves(b) && Text(p) == Text(q)
    ensures p == q
  {
    LeafSlashFree(a, p);
    LeafSlashFree(b, q);
    TextInjective(p, q);
  }

  // operator!= on nodes.
  ghost predicate Unlike(m: Node, n: Node)
    reads m, n
  {
    m.name != n.name || Differs(m.Contents(), n.Contents())
  }

  method NodesDiffer(m: Node, n: Node) returns (b: bool)
    ensures b == Unlike(m, n)
  {
    b := m.name != n.name || m.typ != n.typ || m.scalarValue != n.scalarValue;
  }

  // The list holds exactly these keys, each once.
  ghost predicate Holding(rv: seq<string>, keys: set<string>) {
    && (forall key :: key in rv <==> key in keys)
    && (forall m, n :: 0 <= m < n < |rv| ==> rv[m] != rv[n])
  }

  ghost function Firsts(ks: seq<string>, i: nat): set<string>
    requires i <= |ks|
  {
    set key | key in ks[..i]
  }

  lemma FirstsOne(ks: seq<string>, i: nat)
    requires i < |ks| && forall m :: 0 <= m < i ==> ks[m] != ks[i]
    ensures Firsts(ks, i + 1) == Firsts(ks, i) + {ks[i]} && ks[i] !in Firsts(ks, i)
  {
    assert ks[..i + 1] == ks[..i] + [ks[i]];
    forall m | 0 <= m < i
      ensures ks[..i][m] != ks[i]
    {
    }
  }

  lemma FirstsStep(keys: set<string>, i: nat)
    requires i < |Sorted(keys)|
    ensures Firsts(Sorted(keys), i + 1) == Firsts(Sorted(keys), i) + {Sorted(keys)[i]}
    ensures Sorted(keys)[i] in keys && Sorted(keys)[i] !in Firsts(Sorted(keys), i)
  {
    hide Less, Firsts;
    FirstsOne(Sorted(keys), i);
  }

  lemma FirstsAll(keys: set<string>)
    ensures Firsts(Sorted(keys), 0) == {} && Firsts(Sorted(keys), |Sorted(keys)|) == keys
  {
    assert Sorted(keys)[..|Sorted(keys)|] == Sorted(keys);
  }

  lemma HoldingOneMore(rv: seq<string>, keys: set<string>, key: string)
    requires Holding(rv, keys) && key !in keys
    ensures Holding(rv + [key], keys + {key})
  {
  }

  // The keys of the first tree that the first loop of diff reports.
  ghost function Modified(na: map<string, Node>, nb: map<string, Node>): set<string>
    reads na.Values, nb.Values
  {
    set key | key in na && (key !in nb || Unlike(na[key], nb[key]))
  }

  lemma HoldingStep(rv: seq<string>, M: set<string>, F: set<string>, key: string)
    requires Holding(rv, M * F) && key !in F
    ensures Holding(if key in M then rv + [key] else rv, M * (F + {key}))
  {
    if key in M {
      HoldingOneMore(rv, M * F, key);
      assert M * (F + {key}) == M * F + {key};
    } else {
      assert M * (F + {key}) == M * F;
    }
  }

  lemma HoldingRest(rv: seq<string>, M: set<string>, F: set<string>, N: set<string>, key: string)
    requires Holding(rv, M + (F - N)) && key !in F && M <= N
    ensures Holding(if key in N then rv else rv + [key], M + (F + {key} - N))
  {
    if key in N {
      assert M + (F + {key} - N) == M + (F - N);
    } else {
      HoldingOneMore(rv, M + (F - N), key);
      assert M + (F + {key} - N) == M + (F - N) + {key};
    }
  }

  // One round of the second loop of diff.
  lemma RestStep(rv: seq<string>, M: set<string>, keys: set<string>, i: nat, N: set<string>)
    requires i < |Sorted(keys)| && Holding(rv, M + (Firsts(Sorted(keys), i) - N)) && M <= N
    ensures var key := Sorted(keys)[i];
            Holding(if key in N then rv else rv + [key], M + (Firsts(Sorted(keys), i + 1) - N))
  {
    hide Holding, Firsts, Sorted, Less;
    FirstsStep(keys, i);
    HoldingRest(rv, M, Firsts(Sorted(keys), i), N, Sorted(keys)[i]);
  }

  lemma HoldingBefore(rv: seq<string>, M: set<string>, N: set<string>)
    requires Holding(rv, M)
    ensures Holding(rv, M + ({} - N))
  {
    assert M + ({} - N) == M;
  }

  method Diff(a: Node, b: Node) returns (rv: seq<string>)
    requires a.Valid() && b.Valid()
    ensures IsTree(a.shape.tree) && IsTree(b.shape.tree)
    ensures Reports(rv, a.shape.tree, b.shape.tree)
  {
    hide AllLeaves, Reports, Holds, Holding, IsTree, Modified, Mirrors;
    RootShape(a.shape, a);
    RootShape(b.shape, b);
    var na := Leafs(a);
    var nb := Leafs(b);
    rv := ReportModified(na, nb);
    rv := ReportAdded(na, nb, rv);
    TreeMirrors(a);
    TreeMirrors(b);
    ReportsChanged(a.shape, b.shape, na, nb, rv);
  }

  // The first loop: what the second tree lacks or holds differently.
  method ReportModified(na: map<string, Node>, nb: map<string, Node>) returns (rv: seq<string>)
    ensures Holding(rv, Modified(na, nb)) && Modified(na, nb) <= na.Keys
  {
    hide Holding, Firsts, Sorted, Unlike, Less;
    ghost var modified := Modified(na, nb);
    rv := [];
    var ks := SortKeys(na.Keys);
    HoldingNothing(modified, na.Keys);
    var i := 0;
    while i < |ks|
      invariant 0 <= i <= |ks| && Holding(rv, modified * Firsts(ks, i))
    {
      FirstsStep(na.Keys, i);
      HoldingStep(rv, modified, Firsts(ks, i), ks[i]);
      var report := IsModified(na, nb, ks[i]);
      if report {
        rv := rv + [ks[i]];
      }
      i := i + 1;
    }
    FirstsAll(na.Keys);
    assert modified * na.Keys == modified;
  }

  // The second loop: what the first tree lacks.
  method ReportAdded(na: map<string, Node>, nb: map<string, Node>, before: seq<string>) returns (rv: seq<string>)
    requires Holding(before, Modified(na, nb)) && Modified(na, nb) <= na.Keys
    ensures Holding(rv, Modified(na, nb) + (nb.Keys - na.Keys))
  {
    hide Holding, Firsts, Sorted, Modified, Less;
    ghost var modified := Modified(na, nb);
    rv := before;
    var ks := SortKeys(nb.Keys);
    FirstsAll(nb.Keys);
    HoldingBefore(rv, modified, na.Keys);
    var i := 0;
    while i < |ks|
      invariant 0 <= i <= |ks| && Holding(rv, modified + (Firsts(ks, i) - na.Keys))
    {
      RestStep(rv, modified, nb.Keys, i, na.Keys);
      if ks[i] !in na {
        rv := rv + [ks[i]];
      }
      i := i + 1;
    }
  }

  method IsModified(na: map<string, Node>, nb: map<string, Node>, key: string) returns (b: bool)
    requires key in na
    ensures b <==> key in Modified(na, nb)
  {
    if key !in nb {
      return true;
    }
    b := NodesDiffer(na[key], nb[key]);
  }

  lemma HoldingNothing(M: set<string>, keys: set<string>)
    ensures Holding([], M * Firsts(Sorted(keys), 0))
  {
  }

  // The nodes hold what the tree says, under the names that their paths give them.
  ghost predicate Mirrors(s: Shape)
    reads s.nodes.Values
  {
    forall p {:trigger s.nodes[p]} :: p in s.nodes ==>
      p in s.tree && s.nodes[p].Contents() == s.tree[p] && s.nodes[p].name == if p == [] then "root" else Last(p)
  }

  lemma TreeMirrors(root: Node)
    requires root.Valid()
    ensures Mirrors(root.shape)
  {
    hide Joined, IsTree;
  }

  lemma ReportsChanged(a: Shape, b: Shape, na: map<string, Node>, nb: map<string, Node>, rv: seq<string>)
    requires Mirrors(a) && Mirrors(b) && AllLeaves(a, na) && AllLeaves(b, nb)
    requires IsTree(a.tree) && IsTree(b.tree)
    requires Holding(rv, Modified(na, nb) + (nb.Keys - na.Keys))
    ensures Reports(rv, a.tree, b.tree)
  {
    hide Mirrors, AllLeaves, IsTree, Leaves, Changed, Modified, Text;
    var s, t := a.tree, b.tree;
    forall p | p in Changed(s, t)
      ensures Text(p) in rv
    {
      ChangedIsLeaf(s, t, p);
      KeyReported(a, b, na, nb, p);
    }
    forall i | 0 <= i < |rv|
      ensures exists p :: p in Changed(s, t) && rv[i] == Text(p)
    {
      assert rv[i] in rv;
      ModifiedIsKey(na, nb, rv[i]);
      var p := LeafOfKey(a, b, na, nb, rv[i]);
      KeyReported(a, b, na, nb, p);
      assert p in Changed(s, t);
    }
  }

  lemma ChangedIsLeaf(s: Tree, t: Tree, p: Path)
    requires p in Changed(s, t)
    ensures p in Leaves(s).Keys + Leaves(t).Keys
  {
    hide Leaves;
  }

  lemma ModifiedIsKey(na: map<string, Node>, nb: map<string, Node>, key: string)
    requires key in Modified(na, nb) + (nb.Keys - na.Keys)
    ensures key in na || key in nb
  {
  }

  // Diff reports the key of a leaf exactly when the leaf changed.
  lemma KeyReported(a: Shape, b: Shape, na: map<string, Node>, nb: map<string, Node>, p: Path)
    requires Mirrors(a) && Mirrors(b) && AllLeaves(a, na) && AllLeaves(b, nb)
    requires IsTree(a.tree) && IsTree(b.tree)
    requires p in Leaves(a.tree).Keys + Leaves(b.tree).Keys
    ensures Text(p) in Modified(na, nb) + (nb.Keys - na.Keys) <==> p in Changed(a.tree, b.tree)
  {
    hide Mirrors, AllLeaves, IsTree, Leaves, Unlike, Text;
    KeyOfLeaf(a, b, na, nb, p);
  }

  lemma LeafOfKey(s: Shape, t: Shape, na: map<string, Node>, nb: map<string, Node>, key: string) returns (p: Path)
    requires AllLeaves(s, na) && AllLeaves(t, nb) && (key in na || key in nb)
    ensures p in Leaves(s.tree).Keys + Leaves(t.tree).Keys && key == Text(p)
  {
    if key in na {
      p :| p in Leaves(s.tree) && key == Text(p);
    } else {
      p :| p in Leaves(t.tree) && key == Text(p);
    }
  }

  lemma KeyInTree(s: Shape, found: map<string, Node>, u: Tree, p: Path)
    requires AllLeaves(s, found) && IsTree(s.tree) && IsTree(u) && p in Leaves(u)
    ensures Text(p) in found <==> p in Leaves(s.tree)
    ensures Text(p) in found ==> p in s.nodes && found[Text(p)] == s.nodes[p]
  {
    if Text(p) in found {
      var q :| q in Leaves(s.tree) && Text(q) == Text(p);
      SameKeySamePath(u, s.tree, p, q);
    }
  }

  // Under the key of a leaf the two enumerations hold what the two trees hold at its path.
  lemma KeyOfLeaf(a: Shape, b: Shape, na: map<string, Node>, nb: map<string, Node>, p: Path)
    requires Mirrors(a) && Mirrors(b) && AllLeaves(a, na) && AllLeaves(b, nb)
    requires IsTree(a.tree) && IsTree(b.tree)
    requires p in Leaves(a.tree).Keys + Leaves(b.tree).Keys
    ensures Text(p) in na <==> p in Leaves(a.tree)
    ensures Text(p) in nb <==> p in Leaves(b.tree)
    ensures Text(p) in na && Text(p) in nb ==>
              && p in Leaves(a.tree) && p in Leaves(b.tree)
              && (Unlike(na[Text(p)], nb[Text(p)]) <==> Differs(Leaves(a.tree)[p], Leaves(b.tree)[p]))
  {
    hide AllLeaves, IsTree, IsLeaf;
    var u := if p in Leaves(a.tree) then a.tree else b.tree;
    KeyInTree(a, na, u, p);
    KeyInTree(b, nb, u, p);
  }
}
