/** Overlaying one configuration tree on another (operator+=), and when that is the
    right-biased overlay of their scalar leaves. */
module ConfigMerge {
  import opened Basics
  import opened ConfigPath
  import opened ConfigTree
  import opened ConfigNode
  import opened ConfigQuery
  import opened KeyOrder

  // ---------------------------------------------------------------- the operation

  // Where the contents of a node called `name` go: a node called "root" is transparent.
  function Target(p: Path, name: string): Path {
    if name == "root" then p else Child(p, name)
  }

  function NameAt(q: Path): string {
    if q == [] then "root" else Last(q)
  }

  /** Merging the subtree of b at q into the node of a at p. */
  ghost function MergeAt(c: Conversions, a: Tree, p: Path, b: Tree, q: Path): (r: Update)
    requires p in a && q in b && IsTree(b)
    ensures a.Keys <= r.tree.Keys
    decreases Depth(b) - |q|, 1, 0
  {
    var at := Target(p, NameAt(q));
    var a1 := if at in a then a else a[at := b[q]];
    if IsScalar(a1[at].typ) then
      if IsScalar(b[q].typ) then ScalarAt(c, a1, at, b[q].scalar) else Update(a1, Failed(ScalarOverwritten))
    else MergeKids(c, a1, at, b, q, Sorted(Kids(b, q)))
  }

  // ... and the children ks of q one after the other, until one of them throws.
  ghost function MergeKids(c: Conversions, a: Tree, p: Path, b: Tree, q: Path, ks: seq<string>): (r: Update)
    requires p in a && q in b && IsTree(b)
    requires forall k :: k in ks ==> Child(q, k) in b
    ensures a.Keys <= r.tree.Keys
    decreases Depth(b) - |q|, 0, |ks|
  {
    if ks == [] then Update(a, Done)
    else
      ChildLength(q, ks[0]);
      var r := MergeAt(c, a, p, b, Child(q, ks[0]));
      if r.outcome == Done then MergeKids(c, r.tree, p, b, q, ks[1..]) else r
  }

  ghost function Merge(c: Conversions, a: Tree, b: Tree): Update
    requires [] in a && IsTree(b)
  {
    MergeAt(c, a, [], b, [])
  }

  // ---------------------------------------------------------------- conditions

  // No node below the root is called "root".
  ghost predicate RootFree(t: Tree) {
    forall p {:trigger Last(p)} :: p in t && p != [] ==> Last(p) != "root"
  }

  // Only leaves are scalars.
  ghost predicate ScalarsAreLeaves(t: Tree) {
    forall p :: p in t && IsScalar(t[p].typ) ==> !HasKids(t, p)
  }

  // Every scalar has the type that inference gives to its text.
  ghost predicate WellTyped(c: Conversions, t: Tree) {
    forall p :: p in t && IsScalar(t[p].typ) ==> Infer(c, t[p].typ, t[p].scalar, t[p].list) == Some(t[p].typ)
  }

  // The node of b at p can be merged: a scalar of a meets a scalar, and the text of a scalar that is laid over a
  // scalar, or over nothing, fits an int if it is a number.
  predicate Takes(c: Conversions, a: Tree, b: Tree, p: Path)
    requires p in b
  {
    && (p in a && IsScalar(a[p].typ) ==> IsScalar(b[p].typ))
    && (IsScalar(b[p].typ) && (p in a ==> IsScalar(a[p].typ)) ==> FitsInt(c, b[p].scalar))
  }

  // Every node of b can be merged.
  ghost predicate Accepts(c: Conversions, a: Tree, b: Tree) {
    forall p :: p in b ==> Takes(c, a, b, p)
  }

  // No scalar leaf of b meets a node of a that is no scalar.
  ghost predicate Yields(a: Tree, b: Tree) {
    forall p :: p in a && p in b && p != [] && IsScalar(b[p].typ) && !HasKids(b, p) ==> IsScalar(a[p].typ)
  }

  // A scalar of b with children meets a node of a that is no scalar: merging would drop the children otherwise.
  ghost predicate Settles(a: Tree, b: Tree) {
    forall p :: p in b && IsScalar(b[p].typ) && HasKids(b, p) ==> p in a && !IsScalar(a[p].typ)
  }

  // ---------------------------------------------------------------- what always holds

  /** Merging never touches a node of a that is no scalar, and never turns a scalar into something else
      or gives it children. */
  ghost predicate Extends(a: Tree, r: Tree) {
    && a.Keys <= r.Keys
    && (forall p :: p in a && !IsScalar(a[p].typ) ==> r[p] == a[p])
    && (forall p :: p in a && IsScalar(a[p].typ) ==> IsScalar(r[p].typ))
  }

  lemma InferScalar(c: Conversions, d: Payload, s: string)
    requires IsScalar(d.typ)
    ensures IsScalar(AssignScalar(c, d, s).typ)
  {
  }

  lemma {:induction false} MergeExtends(c: Conversions, a: Tree, p: Path, b: Tree, q: Path)
    requires p in a && q in b && IsTree(b)
    ensures Extends(a, MergeAt(c, a, p, b, q).tree)
    decreases Depth(b) - |q|, 1, 0
  {
    hide Infer, Kids, IsTree, Depth, Sorted;
    var at := Target(p, NameAt(q));
    var a1 := if at in a then a else a[at := b[q]];
    if IsScalar(a1[at].typ) {
      InferScalar(c, a1[at], b[q].scalar);
    } else {
      MergeKidsExtends(c, a1, at, b, q, Sorted(Kids(b, q)));
    }
  }

  lemma {:induction false} MergeKidsExtends(c: Conversions, a: Tree, p: Path, b: Tree, q: Path, ks: seq<string>)
    requires p in a && q in b && IsTree(b)
    requires forall k :: k in ks ==> Child(q, k) in b
    ensures Extends(a, MergeKids(c, a, p, b, q, ks).tree)
    decreases Depth(b) - |q|, 0, |ks|
  {
    if ks != [] {
      ChildLength(q, ks[0]);
      var r := MergeAt(c, a, p, b, Child(q, ks[0]));
      MergeExtends(c, a, p, b, Child(q, ks[0]));
      if r.outcome == Done {
        MergeKidsExtends(c, r.tree, p, b, q, ks[1..]);
      }
    }
  }

  lemma {:induction false} MergeRootFree(c: Conversions, a: Tree, p: Path, b: Tree, q: Path)
    requires p in a && q in b && IsTree(b) && RootFree(a)
    ensures RootFree(MergeAt(c, a, p, b, q).tree)
    decreases Depth(b) - |q|, 1, 0
  {
    var at := Target(p, NameAt(q));
    var a1 := if at in a then a else a[at := b[q]];
    if !IsScalar(a1[at].typ) {
      MergeKidsRootFree(c, a1, at, b, q, Sorted(Kids(b, q)));
    }
  }

  lemma {:induction false} MergeKidsRootFree(c: Conversions, a: Tree, p: Path, b: Tree, q: Path, ks: seq<string>)
    requires p in a && q in b && IsTree(b) && RootFree(a)
    requires forall k :: k in ks ==> Child(q, k) in b
    ensures RootFree(MergeKids(c, a, p, b, q, ks).tree)
    decreases Depth(b) - |q|, 0, |ks|
  {
    if ks != [] {
      ChildLength(q, ks[0]);
      var r := MergeAt(c, a, p, b, Child(q, ks[0]));
      MergeRootFree(c, a, p, b, Child(q, ks[0]));
      if r.outcome == Done {
        MergeKidsRootFree(c, r.tree, p, b, q, ks[1..]);
      }
    }
  }

  // What merging keeps of the tree it merges into: its shape, and that only leaves are scalars.
  ghost predicate Sound(t: Tree) {
    IsTree(t) && ScalarsAreLeaves(t)
  }

  lemma InsertSound(a: Tree, p: Path, k: string, d: Payload)
    requires Sound(a) && p in a && !IsScalar(a[p].typ) && Child(p, k) !in a && SlashFree(k)
    ensures Sound(a[Child(p, k) := d])
  {
    var w := a[Child(p, k) := d];
    forall q | q in w && IsScalar(w[q].typ)
      ensures !HasKids(w, q)
    {
      if j :| Child(q, j) in w {
        assert Parent(Child(q, j)) == q;
        assert q != p;
        assert Child(q, j) != Child(p, k);
        assert HasKids(a, q);
      }
    }
  }

  lemma ReplaceSound(a: Tree, p: Path, d: Payload)
    requires Sound(a) && p in a && IsScalar(a[p].typ)
    ensures Sound(a[p := d])
  {
    var w := a[p := d];
    forall q
      ensures HasKids(w, q) <==> HasKids(a, q)
    {
    }
  }

  lemma {:induction false} MergeSound(c: Conversions, a: Tree, p: Path, b: Tree, q: Path)
    requires p in a && q in b && IsTree(b) && Sound(a) && (NameAt(q) != "root" ==> !IsScalar(a[p].typ))
    ensures Sound(MergeAt(c, a, p, b, q).tree)
    decreases Depth(b) - |q|, 1, 0
  {
    var at := Target(p, NameAt(q));
    var a1 := if at in a then a else a[at := b[q]];
    if at !in a {
      InsertSound(a, p, NameAt(q), b[q]);
    }
    if IsScalar(a1[at].typ) {
      ReplaceSound(a1, at, AssignScalar(c, a1[at], b[q].scalar));
    } else {
      MergeKidsSound(c, a1, at, b, q, Sorted(Kids(b, q)));
    }
  }

  lemma {:induction false} MergeKidsSound(c: Conversions, a: Tree, p: Path, b: Tree, q: Path, ks: seq<string>)
    requires p in a && q in b && IsTree(b) && Sound(a) && !IsScalar(a[p].typ)
    requires forall k :: k in ks ==> Child(q, k) in b
    ensures Sound(MergeKids(c, a, p, b, q, ks).tree)
    decreases Depth(b) - |q|, 0, |ks|
  {
    if ks != [] {
      ChildLength(q, ks[0]);
      var r := MergeAt(c, a, p, b, Child(q, ks[0]));
      MergeExtends(c, a, p, b, Child(q, ks[0]));
      MergeSound(c, a, p, b, Child(q, ks[0]));
      if r.outcome == Done {
        MergeKidsSound(c, r.tree, p, b, q, ks[1..]);
      }
    }
  }

  // ---------------------------------------------------------------- the overlay

  // Merging infers the type of a scalar again.
  function Typed(c: Conversions, d: Payload): Payload {
    if IsScalar(d.typ) then AssignScalar(c, d, d.scalar) else d
  }

  /** The right-biased overlay of the part S of b on a: what only one tree holds is taken over, a
      scalar of a takes b's text, and any other node of a stays as it is. */
  ghost function Part(c: Conversions, a: Tree, b: Tree, S: set<Path>): Tree
    requires S <= b.Keys
  {
    map p | p in a.Keys + S ::
      if p !in a then Typed(c, b[p])
      else if p in S && IsScalar(a[p].typ) then AssignScalar(c, a[p], b[p].scalar)
      else a[p]
  }

  ghost function Overlay(c: Conversions, a: Tree, b: Tree): Tree {
    Part(c, a, b, b.Keys)
  }

  ghost function Subtree(b: Tree, q: Path): set<Path> {
    set p | p in b && q <= p
  }

  ghost function Subtrees(b: Tree, q: Path, ks: seq<string>): set<Path> {
    set p | p in b && q < p && p[|q|] in ks
  }

  lemma SubtreesStep(b: Tree, q: Path, ks: seq<string>)
    requires ks != []
    ensures Subtrees(b, q, ks) == Subtree(b, Child(q, ks[0])) + Subtrees(b, q, ks[1..])
  {
    assert ks == [ks[0]] + ks[1..];
    forall p | p in b
      ensures Child(q, ks[0]) <= p <==> q < p && p[|q|] == ks[0]
    {
      if q < p {
        NextPrefix(q, p);
      }
    }
  }

  lemma SubtreeParts(b: Tree, q: Path, ks: seq<string>)
    requires IsTree(b) && q in b && forall k :: k in ks <==> Child(q, k) in b
    ensures Subtree(b, q) == {q} + Subtrees(b, q, ks) && q !in Subtrees(b, q, ks)
  {
    forall p | p in b && q < p
      ensures p[|q|] in ks
    {
      NextPrefix(q, p);
      PrefixIn(b, Child(q, p[|q|]), p);
    }
    assert forall p :: p in b && q <= p ==> p == q || q < p;
  }

  lemma ScalarSubtree(a: Tree, b: Tree, q: Path)
    requires IsTree(b) && Settles(a, b) && q in b && IsScalar(b[q].typ) && (q in a ==> IsScalar(a[q].typ))
    ensures Subtree(b, q) == {q}
  {
    KidsBelow(b, q);
    assert forall p :: p in b && q <= p ==> p == q || q < p;
  }

  // What merging b into a needs to be an overlay.
  ghost predicate Mergeable(a: Tree, b: Tree) {
    IsTree(b) && RootFree(b) && Settles(a, b)
  }

  // One scalar laid over a scalar, or over nothing.
  lemma ScalarStep(c: Conversions, a: Tree, b: Tree, q: Path, S: set<Path>)
    requires S <= b.Keys && q in b && q !in S && IsScalar(b[q].typ)
    requires q in a ==> IsScalar(a[q].typ)
    ensures var a1 := if q in a then Part(c, a, b, S) else Part(c, a, b, S)[q := b[q]];
            && ScalarAt(c, a1, q, b[q].scalar).tree == Part(c, a, b, S + {q})
            && (ScalarAt(c, a1, q, b[q].scalar).outcome == Done <==> FitsInt(c, b[q].scalar))
  {
    var a1 := if q in a then Part(c, a, b, S) else Part(c, a, b, S)[q := b[q]];
    var w := Part(c, a, b, S + {q});
    hide AssignScalar;
    assert a1[q := AssignScalar(c, a1[q], b[q].scalar)] == w;
  }

  lemma NodeStep(c: Conversions, a: Tree, b: Tree, q: Path, S: set<Path>)
    requires S <= b.Keys && q in b && q !in S && if q in a then !IsScalar(a[q].typ) else !IsScalar(b[q].typ)
    ensures (if q in a then Part(c, a, b, S) else Part(c, a, b, S)[q := b[q]]) == Part(c, a, b, S + {q})
  {
    hide AssignScalar;
  }

  lemma PartAt(c: Conversions, a: Tree, b: Tree, S: set<Path>, q: Path)
    requires S <= b.Keys && q in b && q !in S
    ensures q in Part(c, a, b, S) <==> q in a
    ensures q in a ==> Part(c, a, b, S)[q] == a[q]
  {
  }

  lemma PartKeys(c: Conversions, a: Tree, b: Tree, S: set<Path>)
    requires S <= b.Keys
    ensures Part(c, a, b, S).Keys == a.Keys + S
  {
  }

  // The nodes of the part of b still to be merged can be merged.
  ghost predicate AcceptsIn(c: Conversions, a: Tree, b: Tree, S: set<Path>) {
    forall p :: p in S && p in b ==> Takes(c, a, b, p)
  }

  lemma AcceptsOne(c: Conversions, a: Tree, b: Tree, q: Path)
    requires q in b && if q in a then IsScalar(a[q].typ) else IsScalar(b[q].typ)
    ensures IsScalar(b[q].typ) ==> (AcceptsIn(c, a, b, {q}) <==> FitsInt(c, b[q].scalar))
    ensures !IsScalar(b[q].typ) ==> !AcceptsIn(c, a, b, Subtree(b, q))
  {
    assert q <= q;
  }

  lemma NodeSplit(c: Conversions, a: Tree, b: Tree, q: Path, S: set<Path>, ks: seq<string>)
    requires IsTree(b) && q in b && forall k :: k in ks <==> Child(q, k) in b
    requires Subtree(b, q) !! S && if q in a then !IsScalar(a[q].typ) else !IsScalar(b[q].typ)
    ensures Subtrees(b, q, ks) !! S + {q}
    ensures S + {q} + Subtrees(b, q, ks) == S + Subtree(b, q)
    ensures AcceptsIn(c, a, b, Subtrees(b, q, ks)) <==> AcceptsIn(c, a, b, Subtree(b, q))
  {
    SubtreeParts(b, q, ks);
    assert Takes(c, a, b, q);
  }

  lemma {:induction false} MergeAtIsPart(c: Conversions, a: Tree, b: Tree, q: Path, S: set<Path>)
    requires Mergeable(a, b) && S <= b.Keys && q in b && q !in S
    requires Subtree(b, q) !! S
    requires if q == [] then q in a else Parent(q) in a.Keys + S
    ensures var r := MergeAt(c, Part(c, a, b, S), if q == [] then [] else Parent(q), b, q);
            && (r.outcome == Done <==> AcceptsIn(c, a, b, Subtree(b, q)))
            && (r.outcome == Done ==> r.tree == Part(c, a, b, S + Subtree(b, q)))
    decreases Depth(b) - |q|, 1, 0
  {
    hide Part, Subtree, Subtrees, HasKids, AcceptsIn;
    var cur := Part(c, a, b, S);
    var ks := Sorted(Kids(b, q));
    if q != [] {
      ChildOfParent(q);
    }
    var a1 := if q in cur then cur else cur[q := b[q]];
    PartAt(c, a, b, S, q);
    PartKeys(c, a, b, S);
    PartKeys(c, a, b, S + {q});
    if IsScalar(a1[q].typ) {
      if IsScalar(b[q].typ) {
        ScalarStep(c, a, b, q, S);
        ScalarSubtree(a, b, q);
      }
      AcceptsOne(c, a, b, q);
    } else {
      NodeStep(c, a, b, q, S);
      NodeSplit(c, a, b, q, S, ks);
      MergeKidsIsPart(c, a, b, q, S + {q}, ks);
    }
  }

  lemma {:induction false} MergeKidsIsPart(c: Conversions, a: Tree, b: Tree, q: Path, S: set<Path>, ks: seq<string>)
    requires Mergeable(a, b) && S <= b.Keys && q in b && q in a.Keys + S
    requires forall k :: k in ks ==> Child(q, k) in b
    requires forall i, j :: 0 <= i < j < |ks| ==> ks[i] != ks[j]
    requires Subtrees(b, q, ks) !! S
    ensures var r := MergeKids(c, Part(c, a, b, S), q, b, q, ks);
            && (r.outcome == Done <==> AcceptsIn(c, a, b, Subtrees(b, q, ks)))
            && (r.outcome == Done ==> r.tree == Part(c, a, b, S + Subtrees(b, q, ks)))
    decreases Depth(b) - |q|, 0, |ks|
  {
    hide Part, Mergeable;
    PartKeys(c, a, b, S);
    if ks == [] {
      assert Subtrees(b, q, ks) == {};
      assert S + {} == S;
    } else {
      var k := Child(q, ks[0]);
      var first, rest := Subtree(b, k), Subtrees(b, q, ks[1..]);
      ChildLength(q, ks[0]);
      SubtreesStep(b, q, ks);
      assert k in first;
      MergeAtIsPart(c, a, b, k, S);
      assert first !! rest by {
        assert forall p :: p in first ==> p[|q|] == ks[0];
      }
      assert S + (first + rest) == (S + first) + rest;
      if AcceptsIn(c, a, b, first) {
        MergeKidsIsPart(c, a, b, q, S + first, ks[1..]);
      }
    }
  }

  /** Merging succeeds exactly when no scalar of a meets a node of b that is no scalar and every text it takes over
      fits, and then it yields the overlay. */
  lemma MergeIsOverlay(c: Conversions, a: Tree, b: Tree)
    requires IsTree(a) && Mergeable(a, b)
    ensures Merge(c, a, b).outcome == Done <==> Accepts(c, a, b)
    ensures Merge(c, a, b).outcome == Done ==> Merge(c, a, b).tree == Overlay(c, a, b)
  {
    assert Part(c, a, b, {}) == a;
    MergeAtIsPart(c, a, b, [], {});
    assert Subtree(b, []) == b.Keys by { assert forall p :: p in b ==> [] <= p; }
    assert {} + b.Keys == b.Keys;
  }

  lemma OverlayKids(c: Conversions, a: Tree, b: Tree, p: Path)
    ensures HasKids(Overlay(c, a, b), p) <==> HasKids(a, p) || HasKids(b, p)
  {
    assert forall k :: Child(p, k) in Overlay(c, a, b) <==> Child(p, k) in a || Child(p, k) in b;
  }

  lemma OverlayLeaf(c: Conversions, a: Tree, b: Tree, p: Path)
    requires Sound(a) && IsTree(b) && Accepts(c, a, b) && Yields(a, b) && Settles(a, b)
    ensures p in ScalarLeaves(Overlay(c, a, b)) <==> p in ScalarLeaves(a) || p in ScalarLeaves(b)
    ensures p in ScalarLeaves(b) ==> Overlay(c, a, b)[p].scalar == b[p].scalar
    ensures p in ScalarLeaves(a) && p !in b ==> Overlay(c, a, b)[p].scalar == a[p].scalar
    ensures p in ScalarLeaves(a) && p in b ==> p in ScalarLeaves(b)
  {
    OverlayKids(c, a, b, p);
    NoKidsOutside(a, p);
    NoKidsOutside(b, p);
  }

  lemma OverlayLeaves(c: Conversions, a: Tree, b: Tree)
    requires Sound(a) && IsTree(b) && Accepts(c, a, b) && Settles(a, b)
    ensures ScalarLeaves(Overlay(c, a, b)) == ScalarLeaves(a) + ScalarLeaves(b) <==> Yields(a, b)
  {
    if Yields(a, b) {
      forall p
        ensures p in ScalarLeaves(Overlay(c, a, b)) <==> p in ScalarLeaves(a) + ScalarLeaves(b)
        ensures p in ScalarLeaves(Overlay(c, a, b)) ==>
                  ScalarLeaves(Overlay(c, a, b))[p] == (ScalarLeaves(a) + ScalarLeaves(b))[p]
      {
        OverlayLeaf(c, a, b, p);
      }
    } else {
      var p :| p in a && p in b && p != [] && IsScalar(b[p].typ) && !HasKids(b, p) && !IsScalar(a[p].typ);
      assert p in ScalarLeaves(b);
      assert p !in ScalarLeaves(Overlay(c, a, b));
    }
  }

  // What is new in r comes from b, and is a scalar where b has one.
  ghost predicate FromArgument(a: Tree, b: Tree, r: Tree) {
    forall p :: p in r && p !in a ==> p in b && (IsScalar(b[p].typ) ==> IsScalar(r[p].typ))
  }

  lemma FromArgumentOn(a: Tree, b: Tree, r: Tree, u: Tree)
    requires FromArgument(a, b, r) && FromArgument(r, b, u) && Extends(r, u)
    ensures FromArgument(a, b, u)
  {
  }

  lemma {:induction false} MergeOrigin(c: Conversions, a: Tree, b: Tree, q: Path)
    requires IsTree(b) && RootFree(b) && q in b && if q == [] then q in a else Parent(q) in a
    ensures FromArgument(a, b, MergeAt(c, a, if q == [] then [] else Parent(q), b, q).tree)
    decreases Depth(b) - |q|, 1, 0
  {
    hide IsTree, Kids, Infer;
    if q != [] {
      ChildOfParent(q);
    }
    var a1 := if q in a then a else a[q := b[q]];
    if IsScalar(a1[q].typ) {
      InferScalar(c, a1[q], b[q].scalar);
    } else {
      MergeKidsOrigin(c, a1, b, q, Sorted(Kids(b, q)));
      MergeKidsExtends(c, a1, q, b, q, Sorted(Kids(b, q)));
      FromArgumentOn(a, b, a1, MergeKids(c, a1, q, b, q, Sorted(Kids(b, q))).tree);
    }
  }

  lemma {:induction false} MergeKidsOrigin(c: Conversions, a: Tree, b: Tree, q: Path, ks: seq<string>)
    requires IsTree(b) && RootFree(b) && q in b && q in a
    requires forall k :: k in ks ==> Child(q, k) in b
    ensures FromArgument(a, b, MergeKids(c, a, q, b, q, ks).tree)
    decreases Depth(b) - |q|, 0, |ks|
  {
    hide IsTree, FromArgument, Extends, RootFree;
    FromNothing(a, b);
    if ks != [] {
      ChildLength(q, ks[0]);
      var r := MergeAt(c, a, q, b, Child(q, ks[0]));
      MergeOrigin(c, a, b, Child(q, ks[0]));
      if r.outcome == Done {
        MergeKidsOrigin(c, r.tree, b, q, ks[1..]);
        MergeKidsExtends(c, r.tree, q, b, q, ks[1..]);
        FromArgumentOn(a, b, r.tree, MergeKids(c, r.tree, q, b, q, ks[1..]).tree);
      }
    }
  }

  lemma FromNothing(a: Tree, b: Tree)
    ensures FromArgument(a, b, a)
  {
  }

  // A scalar above p, below which nothing can be put any more.
  ghost predicate Blocked(r: Tree, p: Path) {
    exists y :: y < p && y in r && IsScalar(r[y].typ)
  }

  // Every path of S is there, or below a scalar.
  ghost predicate Arrived(S: set<Path>, r: Tree) {
    forall p :: p in S ==> p in r || Blocked(r, p)
  }

  lemma ArrivedOn(S: set<Path>, r: Tree, u: Tree)
    requires Arrived(S, r) && Extends(r, u)
    ensures Arrived(S, u)
  {
    forall p | p in S
      ensures p in u || Blocked(u, p)
    {
      if y :| y < p && y in r && IsScalar(r[y].typ) {
        assert y in u && IsScalar(u[y].typ);
      }
    }
  }

  // Where a path of the argument goes: components called "root" do not count.
  function Strip(p: Path): (s: Path)
    decreases |p|
  {
    if p == [] then [] else if Last(p) == "root" then Strip(Parent(p)) else Child(Strip(Parent(p)), Last(p))
  }

  lemma {:induction false} StripPrefix(q: Path, p: Path)
    requires q <= p
    ensures Strip(q) <= Strip(p)
    decreases |p|
  {
    if q != p {
      assert q <= Parent(p);
      StripPrefix(q, Parent(p));
    }
  }

  lemma {:induction false} StripNothing(p: Path)
    requires "root" !in p
    ensures Strip(p) == p
    decreases |p|
  {
    if p != [] {
      assert Last(p) in p;
      StripNothing(Parent(p));
      ChildOfParent(p);
    }
  }

  ghost function Stripped(S: set<Path>): set<Path> {
    set p | p in S :: Strip(p)
  }

  lemma ArrivedBelow(b: Tree, q: Path, r: Tree)
    requires Strip(q) in r && IsScalar(r[Strip(q)].typ)
    ensures Arrived(Stripped(Subtree(b, q)), r)
  {
    forall p | p in Subtree(b, q)
      ensures Strip(p) in r || Blocked(r, Strip(p))
    {
      StripPrefix(q, p);
      assert Strip(p) == Strip(q) || Strip(q) < Strip(p);
    }
  }

  // The node of r that receives the children of the parent of q.
  function Under(q: Path): Path {
    if q == [] then [] else Strip(Parent(q))
  }

  lemma TargetIsStrip(q: Path)
    ensures Target(Under(q), NameAt(q)) == Strip(q)
  {
  }

  lemma {:induction false} MergeStrips(c: Conversions, a: Tree, b: Tree, q: Path)
    requires IsTree(b) && q in b && Under(q) in a
    ensures var r := MergeAt(c, a, Under(q), b, q);
            && (r.outcome == Done ==> Arrived(Stripped(Subtree(b, q)), r.tree))
            && r.tree.Keys <= a.Keys + Stripped(Subtree(b, q))
    decreases Depth(b) - |q|, 1, 0
  {
    hide IsTree, Infer, Arrived, Subtree, Subtrees, Stripped, Strip, Under, Target;
    var at := Strip(q);
    TargetIsStrip(q);
    SubtreeHasRoot(b, q);
    var a1 := if at in a then a else a[at := b[q]];
    var ks := Sorted(Kids(b, q));
    if IsScalar(a1[at].typ) {
      InferScalar(c, a1[at], b[q].scalar);
      if IsScalar(b[q].typ) {
        ArrivedBelow(b, q, a1[at := AssignScalar(c, a1[at], b[q].scalar)]);
      }
    } else {
      MergeKidsStrip(c, a1, b, q, ks);
      SubtreeParts(b, q, ks);
      ArrivedAlso(Subtrees(b, q, ks), q, MergeKids(c, a1, at, b, q, ks).tree);
    }
  }

  lemma SubtreeHasRoot(b: Tree, q: Path)
    requires q in b
    ensures Strip(q) in Stripped(Subtree(b, q))
  {
    assert q <= q;
  }

  lemma ArrivedAlso(S: set<Path>, q: Path, r: Tree)
    requires Strip(q) in r
    ensures Stripped({q} + S) == {Strip(q)} + Stripped(S)
    ensures Arrived(Stripped(S), r) ==> Arrived(Stripped({q} + S), r)
  {
    StrippedBoth({q}, S);
    assert Stripped({q}) == {Strip(q)};
  }

  lemma StrippedBoth(S: set<Path>, T: set<Path>)
    ensures Stripped(S + T) == Stripped(S) + Stripped(T)
  {
    forall p
      ensures p in Stripped(S + T) <==> p in Stripped(S) + Stripped(T)
    {
      if p in Stripped(S + T) {
        var y :| y in S + T && p == Strip(y);
      }
    }
  }

  lemma {:induction false} MergeKidsStrip(c: Conversions, a: Tree, b: Tree, q: Path, ks: seq<string>)
    requires IsTree(b) && q in b && Strip(q) in a
    requires forall k :: k in ks ==> Child(q, k) in b
    ensures var r := MergeKids(c, a, Strip(q), b, q, ks);
            && (r.outcome == Done ==> Arrived(Stripped(Subtrees(b, q, ks)), r.tree))
            && r.tree.Keys <= a.Keys + Stripped(Subtrees(b, q, ks))
    decreases Depth(b) - |q|, 0, |ks|
  {
    hide IsTree, Arrived, Extends, Subtree, Subtrees, Stripped, Strip;
    if ks == [] {
      NothingArrives(b, q, a);
    } else {
      var k := Child(q, ks[0]);
      ChildLength(q, ks[0]);
      assert Under(k) == Strip(q);
      var r := MergeAt(c, a, Strip(q), b, k);
      MergeStrips(c, a, b, k);
      SubtreesStep(b, q, ks);
      StrippedBoth(Subtree(b, k), Subtrees(b, q, ks[1..]));
      if r.outcome == Done {
        var u := MergeKids(c, r.tree, Strip(q), b, q, ks[1..]).tree;
        MergeKidsStrip(c, r.tree, b, q, ks[1..]);
        MergeKidsExtends(c, r.tree, Strip(q), b, q, ks[1..]);
        ArrivedOn(Stripped(Subtree(b, k)), r.tree, u);
        ArrivedBoth(Stripped(Subtree(b, k)), Stripped(Subtrees(b, q, ks[1..])), u);
      }
    }
  }

  lemma NothingArrives(b: Tree, q: Path, r: Tree)
    ensures Arrived(Stripped(Subtrees(b, q, [])), r)
  {
    assert Subtrees(b, q, []) == {};
  }

  lemma ArrivedBoth(S: set<Path>, T: set<Path>, r: Tree)
    ensures Arrived(S, r) && Arrived(T, r) ==> Arrived(S + T, r)
  {
  }

  /** A node called "root" is transparent: every path of b arrives without its components called "root", or lies
      below a scalar of the result, and nothing else is new in the result. */
  lemma RootIsTransparent(c: Conversions, a: Tree, b: Tree, p: Path)
    requires [] in a && IsTree(b)
    ensures [] in b
    ensures p in b && Merge(c, a, b).outcome == Done ==>
              Strip(p) in Merge(c, a, b).tree || Blocked(Merge(c, a, b).tree, Strip(p))
    ensures p in Merge(c, a, b).tree && p !in a ==> exists y :: y in b && p == Strip(y)
  {
    MergeStrips(c, a, b, []);
    assert p in b ==> p in Subtree(b, []) by { assert [] <= p; }
  }

  lemma MergeArrives(c: Conversions, a: Tree, b: Tree)
    requires IsTree(b) && RootFree(b) && [] in a
    ensures var r := Merge(c, a, b);
            r.outcome == Done ==> Arrived(b.Keys, r.tree)
  {
    forall p | p in b
      ensures Merge(c, a, b).outcome == Done ==> p in Merge(c, a, b).tree || Blocked(Merge(c, a, b).tree, p)
    {
      RootIsTransparent(c, a, b, p);
      NoRootIn(b, p);
      StripNothing(p);
    }
  }

  lemma {:induction false} NoRootIn(t: Tree, p: Path)
    requires IsTree(t) && RootFree(t) && p in t
    ensures "root" !in p
    decreases |p|
  {
    if p != [] {
      NoRootIn(t, Parent(p));
      assert p == Parent(p) + [Last(p)];
    }
  }

  /** What a successful merge makes of every node: what only one tree holds is taken over with its text and its list,
      a scalar of a takes the text of b and keeps its list, and any other node of a stays as it is. */
  lemma MergeNodes(c: Conversions, a: Tree, b: Tree, p: Path)
    requires IsTree(a) && Mergeable(a, b) && Merge(c, a, b).outcome == Done
    ensures var r := Merge(c, a, b).tree;
            && (p in r <==> p in a || p in b)
            && (p in a && (p !in b || !IsScalar(a[p].typ)) ==> r[p] == a[p])
            && (p in a && p in b && IsScalar(a[p].typ) ==>
                  r[p].scalar == b[p].scalar && r[p].list == a[p].list
                  && Infer(c, STRING, b[p].scalar, []) == Some(r[p].typ))
            && (p in b && p !in a ==> r[p].scalar == b[p].scalar && r[p].list == b[p].list)
            && (p in b && p !in a && !IsScalar(b[p].typ) ==> r[p] == b[p])
            && (p in b && p !in a && IsScalar(b[p].typ) ==> Infer(c, STRING, b[p].scalar, []) == Some(r[p].typ))
  {
    MergeIsOverlay(c, a, b);
    OverlayNode(c, a, b, p);
    hide Merge, Overlay, Infer, AssignScalar, RootFree, Settles, IsTree;
    if p in b && IsScalar(b[p].typ) && (p in a ==> IsScalar(a[p].typ)) {
      assert Takes(c, a, b, p);
      AssignFits(c, if p in a then a[p] else b[p], b[p].scalar);
    }
    assert p in b ==> Takes(c, a, b, p);
  }

  lemma AssignFits(c: Conversions, d: Payload, s: string)
    requires IsScalar(d.typ) && FitsInt(c, s)
    ensures var w := AssignScalar(c, d, s);
            w.scalar == s && w.list == d.list && Infer(c, STRING, s, []) == Some(w.typ)
  {
  }

  lemma OverlayNode(c: Conversions, a: Tree, b: Tree, p: Path)
    ensures var o := Overlay(c, a, b);
            && (p in o <==> p in a || p in b)
            && (p in a && (p !in b || !IsScalar(a[p].typ)) ==> o[p] == a[p])
            && (p in a && p in b && IsScalar(a[p].typ) ==> o[p] == AssignScalar(c, a[p], b[p].scalar))
            && (p in b && p !in a && !IsScalar(b[p].typ) ==> o[p] == b[p])
            && (p in b && p !in a && IsScalar(b[p].typ) ==> o[p] == AssignScalar(c, b[p], b[p].scalar))
  {
    hide AssignScalar;
  }

  lemma NodeAboveIsNoScalar(t: Tree, y: Path, p: Path)
    requires Sound(t) && p in t && y < p
    ensures y in t && !IsScalar(t[y].typ)
  {
    KidsBelow(t, y);
    NoKidsOutside(t, y);
  }

  /** The paths of b can only be there, now or in any tree that grows out of the merge, when every scalar of b with
      children lies over a node of a that is no scalar. */
  lemma ArrivedSettles(c: Conversions, a: Tree, b: Tree, u: Tree)
    requires IsTree(b) && RootFree(b) && [] in a && Merge(c, a, b).outcome == Done
    requires Sound(u) && Extends(a, u) && Extends(Merge(c, a, b).tree, u) && b.Keys <= u.Keys
    ensures Settles(a, b)
  {
    var r := Merge(c, a, b).tree;
    MergeArrives(c, a, b);
    MergeOrigin(c, a, b, []);
    forall p | p in b && IsScalar(b[p].typ) && HasKids(b, p)
      ensures p in a && !IsScalar(a[p].typ)
    {
      var k :| Child(p, k) in b;
      ChildLength(p, k);
      NodeAboveIsNoScalar(u, p, Child(p, k));
      forall y | y < p
        ensures y in u && !IsScalar(u[y].typ)
      {
        NodeAboveIsNoScalar(u, y, p);
      }
      assert p in r || Blocked(r, p);
    }
  }

  /** A merge that succeeds takes over every path of b exactly when no node of b below its root is called "root",
      whose children would land one level higher, and every scalar of b with children lies over a node of a that
      is no scalar. */
  lemma MergeKeepsPaths(c: Conversions, a: Tree, b: Tree)
    requires Sound(a) && RootFree(a) && IsTree(b)
    ensures [] in a
    ensures Merge(c, a, b).outcome == Done ==>
              (b.Keys <= Merge(c, a, b).tree.Keys <==> RootFree(b) && Settles(a, b))
  {
    var r := Merge(c, a, b);
    MergeExtends(c, a, [], b, []);
    MergeSound(c, a, [], b, []);
    if !RootFree(b) {
      RootLost(c, a, b);
    } else if Settles(a, b) {
      MergeIsOverlay(c, a, b);
    } else if r.outcome == Done && b.Keys <= r.tree.Keys {
      ExtendsSelf(r.tree);
      ArrivedSettles(c, a, b, r.tree);
    }
  }

  lemma ExtendsSelf(a: Tree)
    ensures Extends(a, a)
  {
  }

  lemma RootLost(c: Conversions, a: Tree, b: Tree)
    requires [] in a && RootFree(a) && IsTree(b) && !RootFree(b)
    ensures !(b.Keys <= Merge(c, a, b).tree.Keys)
  {
    var p :| p in b && p != [] && Last(p) == "root";
    MergeRootFree(c, a, [], b, []);
    assert p !in Merge(c, a, b).tree;
  }

  /** The law of the merge, for any two trees: it succeeds, takes over every path, and its scalar leaves are those of
      a overlaid with those of b, b winning, exactly when a common path is a scalar in both trees or in neither,
      scalars with children apart, which must lie over a node that is no scalar, and no node of b below its root is
      called "root"; the texts laid over scalars, or over nothing, must fit an int if they are numbers. */
  lemma MergeScalarLeaves(c: Conversions, a: Tree, b: Tree)
    requires Sound(a) && RootFree(a) && IsTree(b)
    ensures [] in a
    ensures var r := Merge(c, a, b);
            r.outcome == Done && b.Keys <= r.tree.Keys && ScalarLeaves(r.tree) == ScalarLeaves(a) + ScalarLeaves(b)
            <==> RootFree(b) && Settles(a, b) && Accepts(c, a, b) && Yields(a, b)
  {
    hide Merge, RootFree, ScalarLeaves, Settles, Accepts, Yields, Overlay, ScalarsAreLeaves;
    MergeKeepsPaths(c, a, b);
    if RootFree(b) && Settles(a, b) {
      MergeIsOverlay(c, a, b);
      if Accepts(c, a, b) {
        OverlayLeaves(c, a, b);
      }
    }
  }

  // ---------------------------------------------------------------- on the heap

  // The node at path at is one of the tree's objects and holds what the tree says.
  method Inspect(n: Node, ghost s: Shape, ghost root: Node, ghost at: Path) returns (d: Payload)
    requires Holds(s, root) && at in s.nodes && s.nodes[at] == n
    ensures at in s.tree && d == s.tree[at] == n.Contents() && n.name == NameAt(at) && n in s.repr
  {
    hide Placed, Joined;
    KnownNode(s, root, at);
    d := Payload(n.typ, n.scalarValue, n.listValues);
  }

  // The node that receives the contents of n: the node itself, or its child of n's name, which is
  // copied from n when it is missing.
  method Receiver(addTo: Node, n: Node, ghost sa: Shape, ghost ra: Node, ghost p: Path,
                  ghost sb: Shape, ghost rb: Node, ghost q: Path)
    returns (t: Node?, ghost s: Shape)
    requires Holds(sa, ra) && p in sa.nodes && sa.nodes[p] == addTo && addTo in sa.repr
    requires Holds(sb, rb) && q in sb.nodes && sb.nodes[q] == n && sa.repr !! sb.repr
    modifies addTo
    ensures Holds(s, ra) && sa.repr <= s.repr && fresh(s.repr - sa.repr) && Keeps(sa, s)
    ensures t != null && Target(p, NameAt(q)) in s.nodes && s.nodes[Target(p, NameAt(q))] == t && t in s.repr
    ensures q in sb.tree && Target(p, NameAt(q)) in s.tree
    ensures s.tree == if Target(p, NameAt(q)) in sa.tree then sa.tree else sa.tree[Target(p, NameAt(q)) := sb.tree[q]]
  {
    hide Holds, Child, Parent, Last;
    var d := Inspect(n, sb, rb, q);
    KnownNode(sa, ra, p);
    RootShape(sa, ra);
    KnownName(sb, rb, q);
    t, s := addTo, sa;
    if n.name != "root" {
      t := addTo.Lookup(n.name, sa, ra, p);
      if t == null {
        t := new Node.Copy(n, Child(p, n.name));
        s := addTo.Insert(n.name, t, sa, ra, p);
      }
      KnownNode(s, ra, Child(p, n.name));
    }
  }

  lemma KnownName(s: Shape, root: Node, at: Path)
    requires Holds(s, root) && at in s.nodes
    ensures SlashFree(NameAt(at))
  {
    hide Joined;
    assert DELIM !in "root";
  }

  // operator+= with the node at p as receiver and the subtree of the other tree at q as argument.
  method MergeFrom(c: Conversions, addTo: Node, n: Node, ghost sa: Shape, ghost ra: Node, ghost p: Path,
                   ghost sb: Shape, ghost rb: Node, ghost q: Path)
    returns (o: Outcome, ghost s: Shape)
    requires Holds(sa, ra) && p in sa.nodes && sa.nodes[p] == addTo && addTo in sa.repr && p in sa.tree
    requires Holds(sb, rb) && q in sb.nodes && sb.nodes[q] == n && q in sb.tree && IsTree(sb.tree)
    requires sa.repr !! sb.repr
    modifies sa.repr
    ensures Holds(s, ra) && sa.repr <= s.repr && fresh(s.repr - sa.repr) && Keeps(sa, s)
    ensures Update(s.tree, o) == MergeAt(c, sa.tree, p, sb.tree, q)
    decreases Depth(sb.tree) - |q|, 1
  {
    hide Holds, Child, Parent, Last, IsTree, Kids, Sorted;
    var t;
    ghost var at := Target(p, NameAt(q));
    t, s := Receiver(addTo, n, sa, ra, p, sb, rb, q);
    var into := Inspect(t, s, ra, at);
    var from := Inspect(n, sb, rb, q);
    if IsScalar(into.typ) {
      o := Failed(ScalarOverwritten);
      if IsScalar(from.typ) {
        var ok;
        ok, s := t.SetScalar(c, from.scalar, s, ra, at);
        o := if ok then Done else Failed(BadInference);
      }
    } else {
      o, s := MergeChildren(c, t, n, s, ra, at, sb, rb, q);
    }
  }

  // The loop of operator+= over the children of n.
  method MergeChildren(c: Conversions, addTo: Node, n: Node, ghost sa: Shape, ghost ra: Node, ghost p: Path,
                       ghost sb: Shape, ghost rb: Node, ghost q: Path)
    returns (o: Outcome, ghost s: Shape)
    requires Holds(sa, ra) && p in sa.nodes && sa.nodes[p] == addTo && addTo in sa.repr && p in sa.tree
    requires Holds(sb, rb) && q in sb.nodes && sb.nodes[q] == n && q in sb.tree && IsTree(sb.tree)
    requires sa.repr !! sb.repr
    modifies sa.repr
    ensures Holds(s, ra) && sa.repr <= s.repr && fresh(s.repr - sa.repr) && Keeps(sa, s)
    ensures Update(s.tree, o) == MergeKids(c, sa.tree, p, sb.tree, q, Sorted(Kids(sb.tree, q)))
    decreases Depth(sb.tree) - |q|, 0
  {
    hide Holds, Child, Parent, Last, IsTree, Kids, Sorted, MergeAt, Keeps;
    var ks := n.KeysInOrder(sb, rb, q);
    KeepsAll(sa);
    o, s := Done, sa;
    while ks != []
      invariant Holds(s, ra) && sa.repr <= s.repr && fresh(s.repr - sa.repr) && Keeps(sa, s)
      invariant o == Done && p in s.tree && Holds(sb, rb)
      invariant forall k :: k in ks ==> Child(q, k) in sb.tree
      invariant MergeKids(c, s.tree, p, sb.tree, q, ks) == MergeKids(c, sa.tree, p, sb.tree, q, Sorted(Kids(sb.tree, q)))
      decreases |ks|
    {
      var k := ks[0];
      ChildLength(q, k);
      var child := n.Lookup(k, sb, rb, q);
      KeepsNode(sa, s, p);
      KnownNode(s, ra, p);
      ghost var before := s;
      o, s := MergeFrom(c, addTo, child, s, ra, p, sb, rb, Child(q, k));
      KeepsOn(sa, before, s);
      if o != Done {
        return;
      }
      ks := ks[1..];
    }
  }

  /** operator+= on two trees: the receiver becomes the merge of the two, the argument stays what it
      was, and afterwards the two still have no object in common. */
  method MergeTree(c: Conversions, a: Node, b: Node) returns (o: Outcome)
    requires a.Valid() && b.Valid() && a.shape.repr !! b.shape.repr
    modifies a.shape.repr
    ensures a.Valid() && b.Valid() && b.shape == old(b.shape)
    ensures old(a.shape.repr) <= a.shape.repr && fresh(a.shape.repr - old(a.shape.repr))
    ensures a.shape.repr !! b.shape.repr && a in a.shape.repr && b in b.shape.repr
    ensures IsTree(old(a.shape.tree)) && IsTree(b.shape.tree)
    ensures Update(a.shape.tree, o) == Merge(c, old(a.shape.tree), b.shape.tree)
  {
    hide Holds, IsTree;
    RootShape(a.shape, a);
    RootShape(b.shape, b);
    RootPath(a.shape.tree);
    RootPath(b.shape.tree);
    ghost var s;
    o, s := MergeFrom(c, a, b, a.shape, a, [], b.shape, b, []);
    a.Adopt(s);
  }

  lemma RootPath(t: Tree)
    requires IsTree(t)
    ensures [] in t
  {
  }

  // ---------------------------------------------------------------- destruction

  // The list names no node twice.
  ghost predicate Distinct(ns: seq<Node>) {
    forall i, j :: 0 <= i < j < |ns| ==> ns[i] != ns[j]
  }

  // The list names the nodes at the given paths, each once.
  ghost predicate FreedOnce(s: Shape, ps: set<Path>, freed: seq<Node>) {
    && Distinct(freed)
    && (forall p :: p in ps ==> p in s.nodes && s.nodes[p] in freed)
    && (forall n :: n in freed ==> n.path in ps && n.path in s.nodes && s.nodes[n.path] == n)
  }

  lemma FreedMore(s: Shape, P: set<Path>, Q: set<Path>, freed: seq<Node>, more: seq<Node>)
    requires FreedOnce(s, P, freed) && FreedOnce(s, Q, more) && P !! Q
    ensures FreedOnce(s, P + Q, freed + more)
  {
    forall i, j | 0 <= i < j < |freed + more|
      ensures (freed + more)[i] != (freed + more)[j]
    {
      if i < |freed| <= j {
        assert freed[i] in freed && more[j - |freed|] in more;
      }
    }
  }

  lemma FreedOne(s: Shape, root: Node, q: Path)
    requires Holds(s, root) && q in s.nodes
    ensures FreedOnce(s, {q}, [s.nodes[q]]) && FreedOnce(s, {}, [])
  {
    KnownNode(s, root, q);
  }

  lemma FirstKids(t: Tree, q: Path, ks: seq<string>, i: nat)
    requires IsTree(t) && q in t && i < |ks| && forall k :: k in ks <==> Child(q, k) in t
    requires forall m, n :: 0 <= m < n < |ks| ==> ks[m] != ks[n]
    ensures Subtrees(t, q, ks[..i + 1]) == Subtrees(t, q, ks[..i]) + Subtree(t, Child(q, ks[i]))
    ensures Subtrees(t, q, ks[..i]) !! Subtree(t, Child(q, ks[i]))
  {
    assert ks[..i + 1] == ks[..i] + [ks[i]];
    forall p | p in t
      ensures Child(q, ks[i]) <= p <==> q < p && p[|q|] == ks[i]
    {
      if q < p {
        NextPrefix(q, p);
      }
    }
  }

  lemma FreedFirst(s: Shape, q: Path, ks: seq<string>)
    ensures FreedOnce(s, Subtrees(s.tree, q, ks[..0]), [])
  {
  }

  lemma FreedStep(s: Shape, q: Path, ks: seq<string>, i: nat, freed: seq<Node>, below: seq<Node>)
    requires IsTree(s.tree) && q in s.tree && i < |ks| && forall k :: k in ks <==> Child(q, k) in s.tree
    requires forall m, n :: 0 <= m < n < |ks| ==> ks[m] != ks[n]
    requires FreedOnce(s, Subtrees(s.tree, q, ks[..i]), freed)
    requires FreedOnce(s, Subtree(s.tree, Child(q, ks[i])), below)
    ensures FreedOnce(s, Subtrees(s.tree, q, ks[..i + 1]), freed + below)
  {
    hide FreedOnce;
    FirstKids(s.tree, q, ks, i);
    FreedMore(s, Subtrees(s.tree, q, ks[..i]), Subtree(s.tree, Child(q, ks[i])), freed, below);
  }

  lemma FreedLast(s: Shape, root: Node, q: Path, ks: seq<string>, freed: seq<Node>)
    requires Holds(s, root) && q in s.nodes
    requires IsTree(s.tree) && q in s.tree && forall k :: k in ks <==> Child(q, k) in s.tree
    requires FreedOnce(s, Subtrees(s.tree, q, ks[..|ks|]), freed)
    ensures FreedOnce(s, Subtree(s.tree, q), freed + [s.nodes[q]])
  {
    hide FreedOnce, Holds;
    FreedOne(s, root, q);
    SubtreeParts(s.tree, q, ks);
    assert ks[..|ks|] == ks;
    FreedMore(s, Subtrees(s.tree, q, ks), {q}, freed, [s.nodes[q]]);
    assert Subtrees(s.tree, q, ks) + {q} == Subtree(s.tree, q);
  }

  // The destructor: the children are destroyed first, then the node itself is gone.
  method Destroy(n: Node, ghost s: Shape, ghost root: Node, ghost q: Path) returns (freed: seq<Node>)
    requires Holds(s, root) && q in s.nodes && s.nodes[q] == n && q in s.tree && IsTree(s.tree)
    ensures FreedOnce(s, Subtree(s.tree, q), freed)
    decreases Depth(s.tree) - |q|
  {
    hide Holds, Child, Parent, Last, IsTree, FreedOnce, Subtree, Subtrees, Less;
    var ks := n.KeysInOrder(s, root, q);
    freed := [];
    var i := 0;
    FreedFirst(s, q, ks);
    while i < |ks|
      invariant 0 <= i <= |ks|
      invariant FreedOnce(s, Subtrees(s.tree, q, ks[..i]), freed)
    {
      ChildLength(q, ks[i]);
      var child := n.Lookup(ks[i], s, root, q);
      var below := Destroy(child, s, root, Child(q, ks[i]));
      FreedStep(s, q, ks, i, freed, below);
      freed := freed + below;
      i := i + 1;
    }
    FreedLast(s, root, q, ks, freed);
    freed := freed + [n];
  }

  /** Deleting a tree after it was merged into another frees each of its nodes once and none of the other's. */
  method DeleteTree(b: Node, ghost a: Node) returns (freed: seq<Node>)
    requires a.Valid() && b.Valid() && a.shape.repr !! b.shape.repr
    ensures Distinct(freed) && forall n :: n in freed <==> n in b.shape.nodes.Values
    ensures forall n :: n in freed ==> n !in a.shape.repr
  {
    hide Placed, Joined, IsTree;
    RootShape(b.shape, b);
    RootPath(b.shape.tree);
    freed := Destroy(b, b.shape, b, []);
    forall n | n in b.shape.nodes.Values
      ensures n in freed
    {
      var p :| p in b.shape.nodes && b.shape.nodes[p] == n;
      assert [] <= p;
      assert p in Subtree(b.shape.tree, []);
    }
  }
}
