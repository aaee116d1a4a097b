/** The heap nodes of the YAML configuration tree. Every node owns a map of child
    pointers; the operations walk these pointers and change the nodes in place.
    The ghost shape of a tree records which node sits at which path. */
module ConfigNode {
  import opened ConfigPath
  import opened ConfigTree
  import opened KeyOrder

  /** One tree on the heap: the node at every path, what the nodes hold, their child
      pointers, and the objects the tree may use. */
  datatype Shape = Shape(
    nodes: map<Path, Node>,
    tree: Tree,
    kids: map<Path, map<string, Node>>,
    repr: set<Node>)

  // ---------------------------------------------------------------- shapes

  // A node carries the last component of its path as its name.
  ghost predicate Placed(s: Shape) {
    && IsTree(s.tree) && s.nodes.Keys == s.tree.Keys
    && forall p {:trigger s.nodes[p]} | p in s.nodes ::
         s.nodes[p].path == p && s.nodes[p].name == if p == [] then "root" else Last(p)
  }

  // The child maps hold exactly the nodes one component further down.
  ghost predicate Joined(s: Shape) {
    && s.nodes.Keys == s.kids.Keys
    && (forall p, k {:trigger Child(p, k)} {:trigger k in s.kids[p]} | p in s.kids ::
          k in s.kids[p] <==> Child(p, k) in s.kids)
    && (forall p, k {:trigger s.kids[p][k]} | p in s.kids && k in s.kids[p] ::
          s.kids[p][k] == s.nodes[Child(p, k)])
  }

  // The heap holds what the shape says.
  ghost predicate Reflects(s: Shape)
    reads s.repr
  {
    && s.nodes.Keys == s.tree.Keys == s.kids.Keys
    && forall p {:trigger s.nodes[p]} | p in s.nodes ::
         && s.nodes[p] in s.repr && s.nodes[p].path == p
         && s.nodes[p].Contents() == s.tree[p] && s.nodes[p].children == s.kids[p]
  }

  lemma NothingBelow(s: Shape, p: Path)
    requires Placed(s) && p !in s.tree
    ensures forall j :: Child(p, j) !in s.tree
  {
    hide Child, Parent, Last;
    forall j
      ensures Child(p, j) !in s.tree
    {
      assert Parent(Child(p, j)) == p;
    }
  }

  // The shape describes the tree on the heap below this root.
  ghost predicate Holds(s: Shape, root: Node)
    reads s.repr
  {
    [] in s.nodes && s.nodes[[]] == root && Placed(s) && Joined(s) && Reflects(s)
  }

  // No node of the old shape moved.
  ghost predicate Keeps(s: Shape, s': Shape) {
    forall p :: p in s.nodes ==> p in s'.nodes && s'.nodes[p] == s.nodes[p]
  }

  lemma KeepsAll(s: Shape)
    ensures Keeps(s, s)
  {
  }

  lemma KeepsOn(s: Shape, t: Shape, u: Shape)
    requires Keeps(s, t) && Keeps(t, u)
    ensures Keeps(s, u)
  {
  }

  lemma KeepsNode(s: Shape, t: Shape, p: Path)
    requires Keeps(s, t) && p in s.nodes
    ensures p in t.nodes && t.nodes[p] == s.nodes[p]
  {
  }

  lemma KnownNode(s: Shape, root: Node, at: Path)
    requires Holds(s, root) && at in s.nodes
    ensures at in s.tree && at in s.kids && s.nodes[at] in s.repr && s.nodes[at].path == at
    ensures s.nodes[at].name == if at == [] then "root" else Last(at)
  {
    hide Joined;
  }

  lemma ChildKey(s: Shape, root: Node, at: Path, k: string)
    requires Holds(s, root) && at in s.nodes
    ensures k in s.nodes[at].children <==> Child(at, k) in s.tree
  {
    hide Placed, Child;
  }

  lemma RootShape(s: Shape, root: Node)
    requires Holds(s, root)
    ensures [] in s.nodes && s.nodes[[]] == root && root in s.repr && IsTree(s.tree)
    ensures s.nodes.Keys == s.tree.Keys
  {
  }

  // Node m, holding md, becomes child k of the node at p.
  ghost function Hang(s: Shape, p: Path, k: string, m: Node, md: Payload): Shape
    requires p in s.kids
  {
    Shape(s.nodes[Child(p, k) := m],
          s.tree[Child(p, k) := md],
          s.kids[p := s.kids[p][k := m]][Child(p, k) := map[]],
          s.repr + {m})
  }

  // The node at p holds d from now on.
  ghost function Put(s: Shape, p: Path, d: Payload): Shape {
    s.(tree := s.tree[p := d])
  }

  lemma PutKeeps(s: Shape, p: Path, d: Payload)
    requires Placed(s) && Joined(s) && p in s.tree
    ensures Placed(Put(s, p, d)) && Joined(Put(s, p, d))
  {
    hide Child, Parent, Last;
  }

  ghost function Unhang(s: Shape, p: Path, k: string): Shape
    requires p in s.kids
  {
    Shape(s.nodes - {Child(p, k)},
          s.tree - {Child(p, k)},
          s.kids[p := s.kids[p] - {k}] - {Child(p, k)},
          s.repr)
  }

  lemma HangPlaced(s: Shape, p: Path, k: string, m: Node, md: Payload)
    requires Placed(s) && p in s.tree && p in s.kids
    requires m.name == k && m.path == Child(p, k) && SlashFree(k)
    ensures Placed(Hang(s, p, k, m, md))
  {
    hide Child, Parent, Last;
  }

  lemma HangJoined(s: Shape, p: Path, k: string, m: Node, md: Payload)
    requires Joined(s) && p in s.kids && Child(p, k) !in s.kids
    requires forall j :: Child(Child(p, k), j) !in s.kids
    ensures Joined(Hang(s, p, k, m, md))
  {
    hide Child, Parent, Last;
    var at, w := Child(p, k), Hang(s, p, k, m, md);
    forall q, j | q in w.kids
      ensures j in w.kids[q] <==> Child(q, j) in w.kids
      ensures j in w.kids[q] ==> w.kids[q][j] == w.nodes[Child(q, j)]
    {
      assert Child(q, j) == at ==> q == p && j == k;
    }
  }

  lemma HangMap(s: Shape, p: Path, k: string, m: Node, md: Payload)
    requires p in s.tree && p in s.kids
    ensures Put(Hang(s, p, k, m, md), p, s.tree[p].(typ := MAP)).tree == ConfigTree.AddChild(s.tree, Child(p, k), md)
  {
    assert Parent(Child(p, k)) == p && Child(p, k) != p;
  }

  // What the smaller shape says about a node that stays.
  lemma UnhangAt(s: Shape, p: Path, k: string, q: Path)
    requires p in s.kids && s.nodes.Keys == s.tree.Keys == s.kids.Keys
    ensures var w := Unhang(s, p, k);
            && w.nodes.Keys == w.tree.Keys == w.kids.Keys && w.repr == s.repr
            && (q in w.nodes <==> q in s.nodes && q != Child(p, k))
            && (q in w.nodes ==> w.nodes[q] == s.nodes[q] && w.tree[q] == s.tree[q])
            && (q in w.nodes ==> w.kids[q] == if q == p then s.kids[p] - {k} else s.kids[q])
  {
    ChildLength(p, k);
    hide Child;
  }

  lemma UnhangPlaced(s: Shape, p: Path, k: string)
    requires Placed(s) && Joined(s) && Child(p, k) in s.kids && s.kids[Child(p, k)] == map[] && p in s.kids
    ensures Placed(Unhang(s, p, k))
  {
    hide Child, Parent, Last;
    var w := Unhang(s, p, k);
    forall q | q in w.tree && q != []
      ensures Parent(q) in w.tree
    {
      ChildOfParent(q);
    }
  }

  lemma UnhangJoined(s: Shape, p: Path, k: string)
    requires Joined(s) && p in s.kids && Child(p, k) in s.kids
    ensures Joined(Unhang(s, p, k))
  {
    hide Child, Parent, Last, Unhang;
    var w := Unhang(s, p, k);
    UnhangKeys(s, p, k);
    forall q, j | q in w.kids
      ensures j in w.kids[q] <==> Child(q, j) in w.kids
      ensures j in w.kids[q] ==> w.kids[q][j] == w.nodes[Child(q, j)]
    {
      UnhangJoinedAt(s, p, k, q, j);
    }
  }

  lemma UnhangKeys(s: Shape, p: Path, k: string)
    requires p in s.kids && s.nodes.Keys == s.kids.Keys
    ensures Unhang(s, p, k).nodes.Keys == Unhang(s, p, k).kids.Keys
  {
    ChildLength(p, k);
  }

  lemma UnhangJoinedAt(s: Shape, p: Path, k: string, q: Path, j: string)
    requires Joined(s) && p in s.kids && Child(p, k) in s.kids
    ensures var w := Unhang(s, p, k);
            q in w.kids ==>
              && (j in w.kids[q] <==> Child(q, j) in w.kids)
              && (j in w.kids[q] ==> Child(q, j) in w.nodes && w.kids[q][j] == w.nodes[Child(q, j)])
  {
    hide Child, Parent, Last;
    if Child(q, j) == Child(p, k) {
      assert q == Parent(Child(q, j)) == p && j == Last(Child(q, j)) == k;
    }
  }

  lemma KidsShape(s: Shape, p: Path)
    requires Placed(s) && Joined(s) && p in s.kids
    ensures s.kids[p].Keys == Kids(s.tree, p)
    ensures s.kids[p] != map[] <==> HasKids(s.tree, p)
  {
    assert forall k :: k in s.kids[p] <==> Child(p, k) in s.tree;
    assert s.kids[p] != map[] ==> exists k :: k in s.kids[p];
  }

  class Node {
    const name: string
    ghost const path: Path
    var typ: NodeType
    var scalarValue: string
    var listValues: seq<string>
    var children: map<string, Node>
    // The shape of the tree of which this node is the root.
    ghost var shape: Shape

    ghost function Contents(): Payload
      reads this
    {
      Payload(typ, scalarValue, listValues)
    }

    ghost predicate Valid()
      reads this, shape.repr
    {
      Holds(shape, this)
    }

    // From now on s is the shape of the tree below this root.
    ghost method Adopt(s: Shape)
      requires Holds(s, this)
      modifies this`shape
      ensures shape == s && Valid()
    {
      hide Child, Parent, Last;
      shape := s;
    }

    // The default constructor leaves the type UNKNOWN, the one that is given the name "root" sets NONE.
    constructor Root(t: NodeType)
      ensures Valid() && shape.repr == {this} && shape.tree == map[[] := Payload(t, "", [])]
    {
      name, path := "root", [];
      typ, scalarValue, listValues, children := t, "", [], map[];
      new;
      hide Child, Parent, Last;
      shape := Shape(map[[] := this], map[[] := Payload(t, "", [])], map[[] := map[]], {this});
    }

    constructor Named(name: string, ghost path: Path)
      ensures this.name == name && this.path == path && Contents() == FRESH && children == map[]
    {
      this.name, this.path := name, path;
      typ, scalarValue, listValues, children := NONE, "", [], map[];
    }

    constructor Filled(name: string, d: Payload, ghost path: Path)
      ensures this.name == name && this.path == path && Contents() == d && children == map[]
    {
      this.name, this.path := name, path;
      typ, scalarValue, listValues, children := d.typ, d.scalar, d.list, map[];
    }

    // The copy constructor copies the contents of a node, not its children.
    constructor Copy(n: Node, ghost path: Path)
      ensures name == n.name && this.path == path && Contents() == n.Contents() && children == map[]
    {
      name, this.path := n.name, path;
      typ, scalarValue, listValues, children := n.typ, n.scalarValue, n.listValues, map[];
    }

    // The new node m becomes child k; the node itself is not marked as a map.
    method Insert(k: string, m: Node, ghost s: Shape, ghost root: Node, ghost at: Path)
      returns (ghost s': Shape)
      requires Holds(s, root) && at in s.nodes && s.nodes[at] == this
      requires k !in children && SlashFree(k) && m.name == k && m.path == Child(at, k) && m.children == map[]
      modifies this
      ensures Holds(s', root) && at in s.kids && s' == Hang(s, at, k, m, m.Contents())
      ensures k in children && children[k] == m
      ensures at in s'.nodes && s'.nodes[at] == this
    {
      hide Child, Parent, Last;
      s' := Hang(s, at, k, m, m.Contents());
      NothingBelow(s, Child(at, k));
      HangPlaced(s, at, k, m, m.Contents());
      HangJoined(s, at, k, m, m.Contents());
      children := children[k := m];
      forall q | q in s'.nodes
        ensures s'.nodes[q] in s'.repr && s'.nodes[q].path == q
        ensures s'.nodes[q].Contents() == s'.tree[q] && s'.nodes[q].children == s'.kids[q]
      {
        if q != Child(at, k) && q != at {
          assert s.nodes[q].path == q && old(s.nodes[q].Contents()) == s.tree[q];
        }
      }
    }

    method AddChild(k: string, m: Node, ghost s: Shape, ghost root: Node, ghost at: Path)
      returns (ghost s': Shape)
      requires Holds(s, root) && at in s.nodes && s.nodes[at] == this
      requires k !in children && SlashFree(k) && m.name == k && m.path == Child(at, k) && m.children == map[]
      modifies this
      ensures Holds(s', root) && at in s.tree
      ensures s'.nodes == s.nodes[Child(at, k) := m] && s'.repr == s.repr + {m}
      ensures s'.tree == ConfigTree.AddChild(s.tree, Child(at, k), m.Contents())
      ensures k in children && children[k] == m
      ensures at in s'.nodes && s'.nodes[at] == this
    {
      hide Holds, Child, Parent, Last;
      KnownNode(s, root, at);
      ChildLength(at, k);
      HangMap(s, at, k, m, m.Contents());
      s' := Insert(k, m, s, root, at);
      s' := SetType(MAP, s', root, at);
    }

    method SetType(t: NodeType, ghost s: Shape, ghost root: Node, ghost at: Path) returns (ghost s': Shape)
      requires Holds(s, root) && at in s.nodes && s.nodes[at] == this
      modifies this
      ensures at in s.tree && s' == Put(s, at, s.tree[at].(typ := t))
      ensures Holds(s', root) && children == old(children)
    {
      hide Placed, Joined;
      s' := Put(s, at, s.tree[at].(typ := t));
      PutKeeps(s, at, s.tree[at].(typ := t));
      typ := t;
      forall q | q in s'.nodes
        ensures s'.nodes[q] in s'.repr && s'.nodes[q].path == q
        ensures s'.nodes[q].Contents() == s'.tree[q] && s'.nodes[q].children == s'.kids[q]
      {
        if q != at {
          assert s.nodes[q].path == q && old(s.nodes[q].Contents()) == s.tree[q];
        }
      }
    }

    // One round of the find_or_insert loop: the child pel, inserted if it is missing.
    method Descend(pel: string, ghost s: Shape, ghost root: Node, ghost at: Path)
      returns (child: Node?, ghost s': Shape)
      requires Holds(s, root) && at in s.nodes && s.nodes[at] == this && Component(pel)
      modifies this
      ensures Holds(s', root) && s.repr <= s'.repr && fresh(s'.repr - s.repr) && Keeps(s, s')
      ensures child != null
      ensures Child(at, pel) in s'.nodes && s'.nodes[Child(at, pel)] == child && child in s'.repr
      ensures at in s.tree
      ensures s'.tree == if Child(at, pel) in s.tree then s.tree
                         else ConfigTree.AddChild(s.tree, Child(at, pel), FRESH)
    {
      hide Child, Parent, Last;
      hide Holds;
      s' := s;
      child := Lookup(pel, s, root, at);
      KnownNode(s, root, at);
      RootShape(s, root);
      if child == null {
        var m := new Node.Named(pel, Child(at, pel));
        s' := AddChild(pel, m, s, root, at);
        child := m;
      }
    }

    // The find_or_insert loop, over the components still queued.
    method Walk(comps: Path, ghost s: Shape) returns (n: Node, ghost s': Shape)
      requires Holds(s, this) && Components(comps)
      requires [] in s.nodes && s.nodes[[]] == this && this in s.repr && [] in s.tree
      modifies s.repr
      ensures Holds(s', this) && s.repr <= s'.repr && fresh(s'.repr - s.repr)
      ensures comps in s'.nodes && s'.nodes[comps] == n && n in s'.repr
      ensures s'.tree == Grow(s.tree, comps)
    {
      hide Holds;
      n, s' := this, s;
      var q := comps;
      ghost var done := [];
      while q != []
        invariant comps == done + q
        invariant Holds(s', this) && s.repr <= s'.repr && fresh(s'.repr - s.repr)
        invariant done in s'.nodes && s'.nodes[done] == n && n in s'.repr
        invariant s'.tree == Grow(s.tree, done)
      {
        var pel := q[0];
        WalkOn(comps, done, q);
        n, s' := n.Descend(pel, s', this, done);
        q := q[1..];
        done := Child(done, pel);
      }
      assert comps == done;
    }

    method FindOrInsert(pathText: string) returns (n: Node)
      requires Valid()
      modifies shape.repr
      ensures Valid() && old(shape.repr) <= shape.repr && fresh(shape.repr - old(shape.repr))
      ensures Split(pathText) in shape.nodes && shape.nodes[Split(pathText)] == n
      ensures [] in old(shape.tree) && shape.tree == Grow(old(shape.tree), Split(pathText))
    {
      hide Holds, Grow, Split;
      RootShape(shape, this);
      var q := StrSplit(pathText);
      ghost var s;
      n, s := Walk(q, shape);
      Adopt(s);
    }

    // set_scalar on the node at path at.
    method SetScalar(c: Conversions, text: string, ghost s: Shape, ghost root: Node, ghost at: Path)
      returns (ok: bool, ghost s': Shape)
      requires Holds(s, root) && at in s.nodes && s.nodes[at] == this
      modifies this
      ensures at in s.tree && s' == Put(s, at, AssignScalar(c, s.tree[at], text))
      ensures Holds(s', root)
      ensures ok == !InferenceThrows(c, s.tree[at], text)
    {
      hide Placed, Joined, Infer;
      s' := Put(s, at, AssignScalar(c, s.tree[at], text));
      PutKeeps(s, at, AssignScalar(c, s.tree[at], text));
      scalarValue := text;
      var t := Infer(c, typ, scalarValue, listValues);
      ok := t.Some?;
      if ok {
        typ := t.value;
      }
      forall q | q in s'.nodes
        ensures s'.nodes[q] in s'.repr && s'.nodes[q].path == q
        ensures s'.nodes[q].Contents() == s'.tree[q] && s'.nodes[q].children == s'.kids[q]
      {
        if q != at {
          assert s.nodes[q].path == q && old(s.nodes[q].Contents()) == s.tree[q];
        }
      }
    }

    // set_scalar_list on the node at path at.
    method SetScalarList(values: seq<string>, ghost s: Shape, ghost root: Node, ghost at: Path)
      returns (ghost s': Shape)
      requires Holds(s, root) && at in s.nodes && s.nodes[at] == this
      modifies this
      ensures at in s.tree && s' == Put(s, at, s.tree[at].(typ := SEQUENCE, list := values))
      ensures Holds(s', root)
    {
      hide Placed, Joined;
      s' := Put(s, at, s.tree[at].(typ := SEQUENCE, list := values));
      PutKeeps(s, at, s'.tree[at]);
      listValues := values;
      typ := SEQUENCE;
      forall q | q in s'.nodes
        ensures s'.nodes[q] in s'.repr && s'.nodes[q].path == q
        ensures s'.nodes[q].Contents() == s'.tree[q] && s'.nodes[q].children == s'.kids[q]
      {
        if q != at {
          assert s.nodes[q].path == q && old(s.nodes[q].Contents()) == s.tree[q];
        }
      }
    }

    method HasChildren(ghost s: Shape, ghost root: Node, ghost at: Path) returns (b: bool)
      requires Holds(s, root) && at in s.nodes && s.nodes[at] == this
      ensures b <==> HasKids(s.tree, at)
    {
      hide Child, Parent, Last;
      KidsShape(s, at);
      b := children != map[];
    }

    // set_value: the text t was printed to is written at the path.
    method SetValue(c: Conversions, pathText: string, text: string) returns (o: Outcome)
      requires Valid()
      modifies shape.repr
      ensures Valid() && old(shape.repr) <= shape.repr && fresh(shape.repr - old(shape.repr))
      ensures IsTree(old(shape.tree))
      ensures Update(shape.tree, o) == ConfigTree.SetValue(c, old(shape.tree), Split(pathText), text)
    {
      RootShape(shape, this);
      hide Holds, Grow, Split, HasKids;
      GrowExisting(shape.tree, Split(pathText));
      var n := FindOrInsert(pathText);
      var inner := n.HasChildren(shape, this, Split(pathText));
      if inner {
        return Failed(NonLeaf);
      }
      var ok;
      ghost var s;
      ok, s := n.SetScalar(c, text, shape, this, Split(pathText));
      Adopt(s);
      o := if ok then Done else Failed(BadInference);
    }

    method SetList(pathText: string, values: seq<string>) returns (o: Outcome)
      requires Valid()
      modifies shape.repr
      ensures Valid() && old(shape.repr) <= shape.repr && fresh(shape.repr - old(shape.repr))
      ensures IsTree(old(shape.tree))
      ensures Update(shape.tree, o) == ConfigTree.SetList(old(shape.tree), Split(pathText), values)
    {
      RootShape(shape, this);
      hide Holds, Grow, Split, HasKids;
      GrowExisting(shape.tree, Split(pathText));
      var n := FindOrInsert(pathText);
      var inner := n.HasChildren(shape, this, Split(pathText));
      if inner {
        return Failed(NonLeaf);
      }
      ghost var s := n.SetScalarList(values, shape, this, Split(pathText));
      Adopt(s);
      o := Done;
    }

    // The child pel of the node at path at, if there is one.
    method Lookup(pel: string, ghost s: Shape, ghost root: Node, ghost at: Path) returns (child: Node?)
      requires Holds(s, root) && at in s.nodes && s.nodes[at] == this
      ensures child == null <==> Child(at, pel) !in s.tree
      ensures child == null <==> pel !in children
      ensures child != null ==> Child(at, pel) in s.nodes && s.nodes[Child(at, pel)] == child && child in s.repr
    {
      hide Child, Parent, Last;
      child := if pel in children then children[pel] else null;
    }

    // The keys of the child map in the order in which it is visited.
    method KeysInOrder(ghost s: Shape, ghost root: Node, ghost at: Path) returns (ks: seq<string>)
      requires Holds(s, root) && at in s.nodes && s.nodes[at] == this
      ensures ks == Sorted(Kids(s.tree, at))
    {
      hide Child, Parent, Last;
      KidsShape(s, at);
      ks := SortKeys(children.Keys);
    }

    method Find(pathText: string) returns (n: Node?, o: Outcome)
      requires Valid()
      ensures IsTree(shape.tree)
      ensures n == null <==> Split(pathText) !in shape.tree
      ensures n != null ==> Split(pathText) in shape.nodes && n == shape.nodes[Split(pathText)] && o == Done
      ensures n == null ==> o == Failed(NotFound(Missing(shape.tree, Split(pathText))))
    {
      RootShape(shape, this);
      hide Holds, Split;
      n, o := this, Done;
      var q := StrSplit(pathText);
      var done: Path := [];
      ghost var comps := q;
      while q != []
        invariant comps == done + q
        invariant n != null && done in shape.nodes && n == shape.nodes[done] && done in shape.tree
      {
        var pel := q[0];
        WalkOn(comps, done, q);
        var child := n.Lookup(pel, shape, this, done);
        if child == null {
          NoPathThrough(shape.tree, comps, Child(done, pel));
          return null, Failed(NotFound(Child(done, pel)));
        }
        n := child;
        q := q[1..];
        done := Child(done, pel);
      }
      assert comps == done;
    }

    // The childless child k of this node leaves its parent's map.
    method Drop(k: string, ghost s: Shape, ghost root: Node, ghost at: Path) returns (ghost s': Shape)
      requires Holds(s, root) && at in s.nodes && s.nodes[at] == this
      requires Child(at, k) in s.tree && !HasKids(s.tree, Child(at, k))
      modifies this
      ensures at in s.kids && s' == Unhang(s, at, k)
      ensures Holds(s', root)
      ensures children == map[] <==> !HasKids(s'.tree, at)
    {
      hide Placed, Joined, Parent, Last, HasKids, Child;
      KidsShape(s, Child(at, k));
      UnhangPlaced(s, at, k);
      UnhangJoined(s, at, k);
      s' := Unhang(s, at, k);
      UnhangAt(s, at, k, at);
      children := children - {k};
      hide Unhang;
      forall q | q in s'.nodes
        ensures s'.nodes[q] in s'.repr && s'.nodes[q].path == q
        ensures s'.nodes[q].Contents() == s'.tree[q] && s'.nodes[q].children == s'.kids[q]
      {
        UnhangAt(s, at, k, q);
        assert s.nodes[q].path == q && old(s.nodes[q].Contents()) == s.tree[q];
        if q != at {
          assert s.nodes[q] != this;
        }
      }
      KidsShape(s', at);
    }


    method Erase(pathText: string) returns (o: Outcome)
      requires Valid()
      modifies shape.repr
      ensures Valid() && shape.repr == old(shape.repr)
      ensures IsTree(old(shape.tree))
      ensures Update(shape.tree, o) == ConfigTree.Erase(old(shape.tree), Split(pathText))
    {
      RootShape(shape, this);
      hide Holds, Split, HasKids;
      var q := StrSplit(pathText);
      var n := this;
      var qs: seq<Node> := [];
      var done: Path := [];
      ghost var p := q;
      while q != []
        invariant shape == old(shape) && Holds(shape, this)
        invariant p == done + q && done in shape.nodes && n == shape.nodes[done] && done in shape.tree
        invariant Stacked(shape, done, qs)
      {
        var pel := q[0];
        WalkOn(p, done, q);
        var child := n.Lookup(pel, shape, this, done);
        if child == null {
          NoPathThrough(shape.tree, p, Child(done, pel));
          return Failed(NotFound(Child(done, pel)));
        }
        StackedPush(shape, done, qs, pel);
        qs := qs + [n];
        n := child;
        q := q[1..];
        done := Child(done, pel);
      }
      assert p == done;
      var inner := n.HasChildren(shape, this, p);
      if inner {
        return Failed(NonLeaf);
      }
      o := Done;
      ghost var s := PruneStack(n, qs, p, shape);
      Adopt(s);
    }

    // The second loop of erase, over the stack of the nodes on the way to the erased child.
    method PruneStack(erased: Node, stack: seq<Node>, ghost p: Path, ghost s: Shape) returns (ghost s': Shape)
      requires Holds(s, this) && Stacked(s, p, stack) && !HasKids(s.tree, p)
      requires p in s.nodes && s.nodes[p] == erased && p in s.tree && IsTree(s.tree)
      modifies s.repr
      ensures Holds(s', this) && s'.repr == s.repr
      ensures s'.tree == PruneUp(s.tree, p)
    {
      hide Holds, Stacked, HasKids;
      s' := s;
      var child, qs := erased, stack;
      ghost var at := p;
      while qs != []
        invariant Holds(s', this) && s'.repr == s.repr && Stacked(s', at, qs)
        invariant at in s'.nodes && s'.nodes[at] == child && at in s'.tree && !HasKids(s'.tree, at)
        invariant PruneUp(s'.tree, at) == PruneUp(s.tree, p)
        decreases |qs|
      {
        var en := qs[|qs| - 1];
        StackedTop(s', at, qs, this);
        ghost var before := s';
        s' := en.Drop(child.name, s', this, Parent(at));
        if en.children != map[] {
          return;
        }
        StackedPop(before, s', at, qs);
        RootShape(s', this);
        child := en;
        at := Parent(at);
        qs := qs[..|qs| - 1];
      }
      assert at == [] by { StackedLength(s', at, qs); }
    }
  }

  // The stack holds the nodes at the proper prefixes of p, the root first.
  ghost predicate Stacked(s: Shape, p: Path, qs: seq<Node>) {
    |qs| == |p| && forall i :: 0 <= i < |qs| ==> p[..i] in s.nodes && qs[i] == s.nodes[p[..i]]
  }

  lemma StackedPush(s: Shape, p: Path, qs: seq<Node>, k: string)
    requires Stacked(s, p, qs) && p in s.nodes
    ensures Stacked(s, Child(p, k), qs + [s.nodes[p]])
  {
    var at, w := Child(p, k), qs + [s.nodes[p]];
    forall i | 0 <= i < |w|
      ensures at[..i] in s.nodes && w[i] == s.nodes[at[..i]]
    {
      assert at[..i] == p[..i];
      assert p[..|p|] == p;
    }
  }

  lemma StackedLength(s: Shape, p: Path, qs: seq<Node>)
    requires Stacked(s, p, qs)
    ensures |qs| == |p|
  {
  }

  lemma StackedTop(s: Shape, p: Path, qs: seq<Node>, root: Node)
    requires Holds(s, root) && Stacked(s, p, qs) && qs != [] && p in s.nodes
    ensures p != [] && Parent(p) in s.nodes && qs[|qs| - 1] == s.nodes[Parent(p)] && qs[|qs| - 1] in s.repr
    ensures Child(Parent(p), s.nodes[p].name) == p
  {
    hide Joined;
    ChildOfParent(p);
  }

  lemma StackedPop(s: Shape, s': Shape, p: Path, qs: seq<Node>)
    requires Stacked(s, p, qs) && p != [] && s'.nodes == s.nodes - {p}
    ensures Parent(p) in s'.nodes && s'.nodes[Parent(p)] == qs[|qs| - 1]
    ensures Stacked(s', Parent(p), qs[..|qs| - 1])
  {
    forall i | 0 <= i < |p|
      ensures i < |p| - 1 ==> Parent(p)[..i] == p[..i]
      ensures p[..i] in s'.nodes && s'.nodes[p[..i]] == qs[i]
    {
      assert |p[..i]| != |p|;
    }
  }
}
