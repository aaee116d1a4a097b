/** Merging many trees one after the other, as loading does, and when that is the overlay of their scalar
    leaves. */
module ConfigOverlay {
  import opened ConfigPath
  import opened ConfigTree
  import opened ConfigMerge

  // The left fold of the merge, stopping at the first exception.
  ghost function MergeAll(c: Conversions, a: Tree, ts: seq<Tree>): (r: Update)
    requires [] in a && forall i :: 0 <= i < |ts| ==> IsTree(ts[i])
    ensures a.Keys <= r.tree.Keys
    decreases |ts|
  {
    if ts == [] then Update(a, Done)
    else
      var r := Merge(c, a, ts[0]);
      if r.outcome == Done then MergeAll(c, r.tree, ts[1..]) else r
  }

  // The scalar leaves of all trees, later ones winning.
  ghost function LeavesOf(ts: seq<Tree>): map<Path, string> {
    if ts == [] then map[] else ScalarLeaves(ts[0]) + LeavesOf(ts[1..])
  }

  // p is a scalar without children.
  ghost predicate ScalarLeafAt(t: Tree, p: Path) {
    p in t && IsScalar(t[p].typ) && !HasKids(t, p)
  }

  // A common path below the root is a scalar leaf in both trees or in neither.
  ghost predicate Agree(a: Tree, b: Tree) {
    forall p :: p in a && p in b && p != [] ==> (ScalarLeafAt(a, p) <==> ScalarLeafAt(b, p))
  }

  ghost predicate AgreeAll(a: Tree, ts: seq<Tree>) {
    && (forall i :: 0 <= i < |ts| ==> Agree(a, ts[i]))
    && (forall i, j :: 0 <= i < j < |ts| ==> Agree(ts[i], ts[j]))
  }

  // The scalars with children are known already.
  ghost predicate Anchored(known: set<Path>, b: Tree) {
    forall p :: p in b && IsScalar(b[p].typ) && HasKids(b, p) ==> p in known
  }

  ghost predicate AnchoredAll(known: set<Path>, ts: seq<Tree>)
    decreases |ts|
  {
    ts == [] || (Anchored(known, ts[0]) && AnchoredAll(known + ts[0].Keys, ts[1..]))
  }

  // No name gets in the way, and every text fits an int if it is a number.
  ghost predicate Clear(c: Conversions, b: Tree) {
    RootFree(b) && forall p :: p in ScalarLeaves(b) ==> FitsInt(c, b[p].scalar)
  }

  /** The trees can be laid over each other, told from the trees alone: no two disagree about which of their common
      paths are scalar leaves, and a scalar with children lies over a node of an earlier tree. */
  ghost predicate Layered(c: Conversions, a: Tree, ts: seq<Tree>) {
    && (forall i :: 0 <= i < |ts| ==> Clear(c, ts[i]))
    && AgreeAll(a, ts) && AnchoredAll(a.Keys, ts)
  }

  ghost predicate AllArrived(ts: seq<Tree>, r: Tree) {
    forall i :: 0 <= i < |ts| ==> ts[i].Keys <= r.Keys
  }

  lemma ExtendsOn(a: Tree, b: Tree, d: Tree)
    requires Extends(a, b) && Extends(b, d)
    ensures Extends(a, d)
  {
  }

  lemma {:induction false} MergeAllExtends(c: Conversions, a: Tree, ts: seq<Tree>)
    requires [] in a && forall i :: 0 <= i < |ts| ==> IsTree(ts[i])
    ensures Extends(a, MergeAll(c, a, ts).tree)
    decreases |ts|
  {
    if ts != [] {
      hide Merge, Extends;
      FirstExtends(c, a, ts[0]);
      var r := Merge(c, a, ts[0]);
      if r.outcome == Done {
        MergeAllExtends(c, r.tree, ts[1..]);
        ExtendsOn(a, r.tree, MergeAll(c, r.tree, ts[1..]).tree);
      }
    } else {
      ExtendsSelf(a);
    }
  }

  lemma FirstExtends(c: Conversions, a: Tree, b: Tree)
    requires [] in a && IsTree(b)
    ensures [] in b && Extends(a, Merge(c, a, b).tree)
  {
    MergeExtends(c, a, [], b, []);
  }

  lemma {:induction false} MergeAllSound(c: Conversions, a: Tree, ts: seq<Tree>)
    requires Sound(a) && RootFree(a) && forall i :: 0 <= i < |ts| ==> IsTree(ts[i])
    ensures Sound(MergeAll(c, a, ts).tree) && RootFree(MergeAll(c, a, ts).tree)
    decreases |ts|
  {
    if ts != [] {
      hide Merge, Sound, RootFree;
      FirstSound(c, a, ts[0]);
      if Merge(c, a, ts[0]).outcome == Done {
        MergeAllSound(c, Merge(c, a, ts[0]).tree, ts[1..]);
      }
    }
  }

  lemma FirstSound(c: Conversions, a: Tree, b: Tree)
    requires Sound(a) && RootFree(a) && IsTree(b)
    ensures [] in a && Sound(Merge(c, a, b).tree) && RootFree(Merge(c, a, b).tree)
  {
    MergeSound(c, a, [], b, []);
    MergeRootFree(c, a, [], b, []);
  }

  // What one merge needs, in terms of the two trees.
  lemma OneLayer(c: Conversions, a: Tree, b: Tree)
    requires Sound(a) && !IsScalar(a[[]].typ) && IsTree(b)
    ensures Clear(c, b) && Agree(a, b) && Anchored(a.Keys, b)
            <==> RootFree(b) && Settles(a, b) && Accepts(c, a, b) && Yields(a, b)
  {
    if RootFree(b) && Settles(a, b) && Accepts(c, a, b) && Yields(a, b) {
      forall p | p in ScalarLeaves(b)
        ensures FitsInt(c, b[p].scalar)
      {
        assert Takes(c, a, b, p);
      }
      forall p | p in a && p in b && p != []
        ensures ScalarLeafAt(a, p) <==> ScalarLeafAt(b, p)
      {
        assert Takes(c, a, b, p);
      }
    }
    if Clear(c, b) && Agree(a, b) && Anchored(a.Keys, b) {
      forall p | p in b
        ensures Takes(c, a, b, p)
      {
        assert p != [] && IsScalar(b[p].typ) && !HasKids(b, p) ==> p in ScalarLeaves(b);
        assert p in a && p != [] ==> (ScalarLeafAt(a, p) <==> ScalarLeafAt(b, p));
      }
      forall p | p in b && IsScalar(b[p].typ) && HasKids(b, p)
        ensures p in a && !IsScalar(a[p].typ)
      {
        assert p in a && p != [] ==> (ScalarLeafAt(a, p) <==> ScalarLeafAt(b, p));
      }
    }
  }

  // Below the root, the overlay is a scalar leaf exactly where either tree is one.
  lemma OverlayLeafAt(c: Conversions, a: Tree, b: Tree, p: Path)
    requires Sound(a) && Sound(Overlay(c, a, b)) && IsTree(b) && Agree(a, b) && Anchored(a.Keys, b) && p != []
    ensures p in a ==> (ScalarLeafAt(Overlay(c, a, b), p) <==> ScalarLeafAt(a, p))
    ensures p in b ==> (ScalarLeafAt(Overlay(c, a, b), p) <==> ScalarLeafAt(b, p))
  {
    var o := Overlay(c, a, b);
    assert p in o ==> (ScalarLeafAt(o, p) <==> IsScalar(o[p].typ));
    if p in b {
      InferScalar(c, Payload(STRING, b[p].scalar, b[p].list), b[p].scalar);
    }
  }

  lemma AgreeOverlay(c: Conversions, a: Tree, b: Tree, d: Tree)
    requires Sound(a) && Sound(Overlay(c, a, b)) && IsTree(b) && Agree(a, b) && Anchored(a.Keys, b)
    ensures Agree(Overlay(c, a, b), d) <==> Agree(a, d) && Agree(b, d)
  {
    hide ScalarLeafAt, Sound, Anchored, IsTree;
    var o := Overlay(c, a, b);
    forall p | p != []
      ensures p in o <==> p in a || p in b
      ensures p in a ==> (ScalarLeafAt(o, p) <==> ScalarLeafAt(a, p))
      ensures p in b ==> (ScalarLeafAt(o, p) <==> ScalarLeafAt(b, p))
    {
      OverlayLeafAt(c, a, b, p);
    }
  }

  lemma LayeredStep(c: Conversions, a: Tree, ts: seq<Tree>)
    requires ts != [] && Sound(a) && Sound(Overlay(c, a, ts[0])) && IsTree(ts[0])
    requires Clear(c, ts[0]) && Agree(a, ts[0]) && Anchored(a.Keys, ts[0])
    ensures Layered(c, a, ts) <==> Layered(c, Overlay(c, a, ts[0]), ts[1..])
  {
    var o, rest := Overlay(c, a, ts[0]), ts[1..];
    assert o.Keys == a.Keys + ts[0].Keys;
    hide Agree, Overlay, Clear, Sound, IsTree, Anchored;
    assert forall i :: 0 < i < |ts| ==> ts[i] == rest[i - 1];
    forall i | 0 <= i < |rest|
      ensures Agree(o, rest[i]) <==> Agree(a, ts[i + 1]) && Agree(ts[0], ts[i + 1])
    {
      AgreeOverlay(c, a, ts[0], ts[i + 1]);
    }
    if Layered(c, o, rest) {
      forall i, j | 0 <= i < j < |ts|
        ensures Agree(ts[i], ts[j]) && Agree(a, ts[j])
      {
        assert ts[j] == rest[j - 1];
        assert i > 0 ==> ts[i] == rest[i - 1];
      }
    }
  }

  // A scalar leaf laid over a node that is no scalar is missing for good.
  lemma NeverYields(c: Conversions, a: Tree, ts: seq<Tree>)
    requires [] in a && ts != [] && !Yields(a, ts[0]) && forall i :: 0 <= i < |ts| ==> IsTree(ts[i])
    ensures ScalarLeaves(MergeAll(c, a, ts).tree) != ScalarLeaves(a) + LeavesOf(ts)
  {
    var b := ts[0];
    var p :| p in a && p in b && p != [] && IsScalar(b[p].typ) && !HasKids(b, p) && !IsScalar(a[p].typ);
    MergeAllExtends(c, a, ts);
    assert p in ScalarLeaves(b) && p in LeavesOf(ts);
    assert p !in ScalarLeaves(MergeAll(c, a, ts).tree);
  }

  // Everything arrived and no scalar leaf is missing.
  ghost predicate LaidOver(c: Conversions, a: Tree, ts: seq<Tree>)
    requires [] in a && forall i :: 0 <= i < |ts| ==> IsTree(ts[i])
  {
    var r := MergeAll(c, a, ts);
    r.outcome == Done && AllArrived(ts, r.tree) && ScalarLeaves(r.tree) == ScalarLeaves(a) + LeavesOf(ts)
  }

  // The first tree of a list that was laid over completely did not lose anything.
  lemma FirstFits(c: Conversions, a: Tree, ts: seq<Tree>)
    requires Sound(a) && RootFree(a) && ts != [] && forall i :: 0 <= i < |ts| ==> IsTree(ts[i])
    requires [] in a && LaidOver(c, a, ts)
    ensures RootFree(ts[0]) && Settles(a, ts[0]) && Accepts(c, a, ts[0]) && Yields(a, ts[0])
  {
    var b, u := ts[0], MergeAll(c, a, ts).tree;
    var r := Merge(c, a, b).tree;
    MergeAllSound(c, a, ts);
    MergeAllExtends(c, a, ts);
    FirstExtends(c, a, b);
    MergeAllExtends(c, r, ts[1..]);
    hide MergeAll, Merge, Sound, IsTree, Extends, Settles, Accepts;
    assert b.Keys <= u.Keys;
    assert RootFree(b);
    ArrivedSettles(c, a, b, u);
    SoundIsTree(a);
    MergeIsOverlay(c, a, b);
    if !Yields(a, b) {
      NeverYields(c, a, ts);
    }
  }

  lemma SoundIsTree(t: Tree)
    requires Sound(t)
    ensures IsTree(t) && [] in t
  {
  }

  /** Merging any number of trees succeeds, takes over every path and yields the overlay of all scalar leaves, in
      order, exactly when they can be laid over each other. */
  lemma {:induction false} MergeAllLeaves(c: Conversions, a: Tree, ts: seq<Tree>)
    requires Sound(a) && RootFree(a) && !IsScalar(a[[]].typ) && forall i :: 0 <= i < |ts| ==> IsTree(ts[i])
    ensures [] in a && (LaidOver(c, a, ts) <==> Layered(c, a, ts))
    decreases |ts|
  {
    hide Merge, Overlay, ScalarLeaves, IsTree, Agree, Accepts, Yields, Settles, ScalarsAreLeaves, RootFree, Anchored, Clear;
    SoundIsTree(a);
    if ts == [] {
      LayNothing(ScalarLeaves(a));
    } else {
      var b := ts[0];
      OneLayer(c, a, b);
      if LaidOver(c, a, ts) {
        FirstFits(c, a, ts);
      }
      if Clear(c, b) && Agree(a, b) && Anchored(a.Keys, b) {
        var o := Overlay(c, a, b);
        MergeIsOverlay(c, a, b);
        OverlayLeaves(c, a, b);
        FirstSound(c, a, b);
        OverlayRoot(c, a, b);
        LayeredStep(c, a, ts);
        LayThree(ScalarLeaves(a), ScalarLeaves(b), LeavesOf(ts[1..]));
        MergeAllLeaves(c, o, ts[1..]);
        ArrivedStep(c, a, ts);
      }
    }
  }

  lemma OverlayRoot(c: Conversions, a: Tree, b: Tree)
    requires [] in a && !IsScalar(a[[]].typ)
    ensures [] in Overlay(c, a, b) && !IsScalar(Overlay(c, a, b)[[]].typ)
    ensures Overlay(c, a, b).Keys == a.Keys + b.Keys
  {
  }

  lemma ArrivedStep(c: Conversions, a: Tree, ts: seq<Tree>)
    requires [] in a && ts != [] && (forall i :: 0 <= i < |ts| ==> IsTree(ts[i]))
    requires Merge(c, a, ts[0]) == Update(Overlay(c, a, ts[0]), Done)
    ensures var r := MergeAll(c, a, ts).tree;
            AllArrived(ts, r) <==> AllArrived(ts[1..], r)
  {
    var r := MergeAll(c, a, ts).tree;
    FirstExtends(c, a, ts[0]);
    MergeAllExtends(c, Merge(c, a, ts[0]).tree, ts[1..]);
    OverlayKeys(c, a, ts[0]);
    assert ts[0].Keys <= r.Keys;
    forall i | 0 < i < |ts|
      ensures ts[i] == ts[1..][i - 1]
    {
    }
  }

  lemma OverlayKeys(c: Conversions, a: Tree, b: Tree)
    ensures Overlay(c, a, b).Keys == a.Keys + b.Keys
  {
  }

  lemma LayNothing(a: map<Path, string>)
    ensures a + map[] == a
  {
  }

  lemma LayThree(a: map<Path, string>, b: map<Path, string>, d: map<Path, string>)
    ensures (a + b) + d == a + (b + d)
  {
  }

  // The last tree of a list is merged last.
  lemma {:induction false} MergeLast(c: Conversions, a: Tree, ts: seq<Tree>, t: Tree)
    requires [] in a && IsTree(t) && forall i :: 0 <= i < |ts| ==> IsTree(ts[i])
    ensures var r := MergeAll(c, a, ts);
            [] in r.tree && MergeAll(c, a, ts + [t]) == if r.outcome == Done then Merge(c, r.tree, t) else r
    decreases |ts|
  {
    hide Merge, IsTree;
    if ts == [] {
      assert ts + [t] == [t] && [t][1..] == [];
    } else {
      assert (ts + [t])[1..] == ts[1..] + [t] && (ts + [t])[0] == ts[0];
      FirstExtends(c, a, ts[0]);
      if Merge(c, a, ts[0]).outcome == Done {
        MergeLast(c, Merge(c, a, ts[0]).tree, ts[1..], t);
      }
    }
  }
}
