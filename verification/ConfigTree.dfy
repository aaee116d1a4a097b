/** The configuration tree as a value: a prefix-closed map from paths to node
    contents, the operations of YamlConfigurationNode on it, and what they mean
    for the leaf map. The heap nodes of module ConfigNode refine these operations. */
module ConfigTree {
  import opened Basics
  import opened ConfigPath

  datatype NodeType = NONE | UINT32 | INT32 | FLOAT | BOOL | STRING | MAP | SEQUENCE | UNKNOWN

  // What one node holds besides its name and its children.
  datatype Payload = Payload(typ: NodeType, scalar: string, list: seq<string>)

  type Tree = map<Path, Payload>

  /** The text conversions of the C++ streams, which this model leaves uninterpreted. */
  datatype Conversions = Conversions(
    toUint: string -> Option<nat>,
    toInt: string -> Option<int>,
    isFloat: string -> bool,
    isBool: string -> bool,
    isUrl: string -> bool,
    isFrame: string -> bool)

  datatype Error =
    | NotFound(missing: Path)
    | NonLeaf
    | BadInference
    | ScalarOverwritten
    | BadPort
    | BadUrl
    | BadFrame

  datatype Outcome = Done | Failed(error: Error)

  // A changed tree, and whether the operation threw. A throwing operation may have changed the tree.
  datatype Update = Update(tree: Tree, outcome: Outcome)

  predicate IsScalar(t: NodeType) {
    t in {UINT32, INT32, FLOAT, BOOL, STRING}
  }

  // ---------------------------------------------------------------- shape

  ghost predicate IsTree(t: Tree) {
    && [] in t
    && (forall p {:trigger Parent(p)} | p in t && p != [] :: Parent(p) in t)
    && (forall p {:trigger Last(p)} | p in t && p != [] :: SlashFree(Last(p)))
  }

  ghost predicate HasKids(t: Tree, p: Path) {
    exists k :: Child(p, k) in t
  }

  ghost function Kids(t: Tree, p: Path): (ks: set<string>)
    ensures forall k :: k in ks <==> Child(p, k) in t
  {
    var ks := set q | q in t && q != [] && Parent(q) == p :: Last(q);
    assert forall k :: Child(p, k) in t ==> k in ks by {
      forall k | Child(p, k) in t
        ensures k in ks
      {
        var q := Child(p, k);
        assert q in t && q != [] && Parent(q) == p && Last(q) == k;
      }
    }
    assert forall q :: q in t && q != [] ==> Child(Parent(q), Last(q)) == q;
    ks
  }

  lemma {:induction false} PrefixIn(t: Tree, q: Path, p: Path)
    requires IsTree(t) && p in t && q <= p
    ensures q in t
    decreases |p|
  {
    if q != p {
      assert q <= Parent(p);
      PrefixIn(t, q, Parent(p));
    }
  }

  // The component after prefix q of p.
  lemma NextPrefix(q: Path, p: Path)
    requires q < p
    ensures p[..|q| + 1] == Child(q, p[|q|])
    ensures Child(q, p[|q|]) <= p
  {
  }

  /** A node has children exactly when the tree holds a longer path through it. */
  lemma KidsBelow(t: Tree, q: Path)
    requires IsTree(t)
    ensures HasKids(t, q) <==> exists p :: p in t && q < p
  {
    if p :| p in t && q < p {
      NextPrefix(q, p);
      PrefixIn(t, p[..|q| + 1], p);
      assert Child(q, p[|q|]) in t;
    }
    if k :| Child(q, k) in t {
      assert q < Child(q, k);
    }
  }

  lemma NoKidsOutside(t: Tree, p: Path)
    requires IsTree(t)
    ensures HasKids(t, p) ==> p in t
  {
    if k :| Child(p, k) in t {
      assert Parent(Child(p, k)) == p;
    }
  }

  // ---------------------------------------------------------------- leaves

  // enum_leafs never lists the node it starts from, so the root is no leaf.
  ghost predicate IsLeaf(t: Tree, p: Path) {
    p in t && p != [] && !HasKids(t, p)
  }

  ghost function Leaves(t: Tree): map<Path, Payload> {
    map p | p in t && IsLeaf(t, p) :: t[p]
  }

  ghost function ScalarLeaves(t: Tree): map<Path, string> {
    map p | p in t && IsLeaf(t, p) && IsScalar(t[p].typ) :: t[p].scalar
  }

  // ---------------------------------------------------------------- scalar type inference

  // determine_scalar_type, run while the node still has its previous type.
  function Infer(c: Conversions, typ: NodeType, scalar: string, list: seq<string>): Option<NodeType> {
    if typ == SEQUENCE && list == [] then Some(UNKNOWN)
    else
      var probe := if typ == SEQUENCE then list[0] else scalar;
      if c.toUint(probe).Some? then
        if typ == SEQUENCE || c.toInt(scalar) == None then None
        else if c.toInt(scalar).value >= 0 then Some(UINT32) else Some(INT32)
      else if c.toInt(probe).Some? then Some(INT32)
      else if c.isFloat(probe) then Some(FLOAT)
      else if c.isBool(probe) then Some(BOOL)
      else Some(STRING)
  }

  // set_scalar assigns the text first and throws, if at all, while inferring the type.
  function AssignScalar(c: Conversions, d: Payload, s: string): Payload {
    match Infer(c, d.typ, s, d.list)
    case None => d.(scalar := s)
    case Some(typ) => Payload(typ, s, d.list)
  }

  predicate InferenceThrows(c: Conversions, d: Payload, s: string) {
    Infer(c, d.typ, s, d.list) == None
  }

  /** The type of a text on a node without a list: an unsigned number that is no int throws; then the first of int,
      float, bool and string that it converts to. */
  lemma InferMeans(c: Conversions, typ: NodeType, text: string, list: seq<string>)
    requires typ != SEQUENCE
    ensures var r := Infer(c, typ, text, list); var u, i := c.toUint(text), c.toInt(text);
            && (r == None <==> u.Some? && i == None)
            && (r == Some(UINT32) <==> u.Some? && i.Some? && i.value >= 0)
            && (r == Some(INT32) <==> i.Some? && (u == None || i.value < 0))
            && (r == Some(FLOAT) <==> u == None && i == None && c.isFloat(text))
            && (r == Some(BOOL) <==> u == None && i == None && !c.isFloat(text) && c.isBool(text))
            && (r == Some(STRING) <==> u == None && i == None && !c.isFloat(text) && !c.isBool(text))
  {
  }

  /** On a node with a list the first element decides; an unsigned number throws. */
  lemma InferOverList(c: Conversions, text: string, list: seq<string>)
    ensures var r := Infer(c, SEQUENCE, text, list);
            && (r == Some(UNKNOWN) <==> list == [])
            && (r == None <==> list != [] && c.toUint(list[0]).Some?)
            && (list != [] && r.Some? ==> r == Infer(c, NONE, list[0], []) && r != Some(UINT32))
  {
  }

  function ScalarAt(c: Conversions, t: Tree, p: Path, s: string): Update
    requires p in t
  {
    Update(t[p := AssignScalar(c, t[p], s)],
           if InferenceThrows(c, t[p], s) then Failed(BadInference) else Done)
  }

  // ---------------------------------------------------------------- insertion

  const FRESH: Payload := Payload(NONE, "", [])

  // The new node p becomes a child of its parent, which becomes a map (add_child).
  function AddChild(t: Tree, p: Path, d: Payload): Tree
    requires p != [] && Parent(p) in t
  {
    t[Parent(p) := t[Parent(p)].(typ := MAP)][p := d]
  }

  ghost function Prefixes(p: Path): (ps: set<Path>)
    ensures forall q :: q in ps <==> q <= p
    decreases |p|
  {
    if p == [] then {[]}
    else
      var ps := Prefixes(Parent(p)) + {p};
      assert forall q :: q in ps <==> q <= p by {
        forall q
          ensures q in ps <==> q <= p
        {
          PrefixOfParent(q, p);
        }
      }
      ps
  }

  // find_or_insert: one missing component after the other becomes a child of the node reached so far.
  ghost function Grow(t: Tree, p: Path): (g: Tree)
    requires [] in t
    ensures p in g
    decreases |p|
  {
    if p == [] then t
    else
      var g := Grow(t, Parent(p));
      if p in g then g else AddChild(g, p, FRESH)
  }

  /** The tree in which every node on the way to p exists: a missing node is new and
      empty, and whichever node got a new child became a map. */
  ghost function Grown(t: Tree, p: Path): Tree {
    map q | q in t.Keys + Prefixes(p) :: GrownPayload(t, p, q)
  }

  ghost function GrownPayload(t: Tree, p: Path, q: Path): Payload {
    var d := if q in t then t[q] else FRESH;
    if q < p && p[..|q| + 1] !in t then d.(typ := MAP) else d
  }

  lemma GrownIsTree(t: Tree, p: Path)
    requires IsTree(t) && forall k | k in p :: SlashFree(k)
    ensures IsTree(Grown(t, p))
  {
    forall q | q in Grown(t, p) && q != []
      ensures Parent(q) in Grown(t, p) && SlashFree(Last(q))
    {
      if q !in t {
        assert Parent(q) <= p;
        assert Last(q) in p;
      }
    }
  }

  lemma GrownNothing(t: Tree, p: Path)
    requires IsTree(t) && p in t
    ensures Grown(t, p) == t
  {
    forall q | q <= p
      ensures q in t
    {
      PrefixIn(t, q, p);
    }
    assert forall q :: q < p ==> p[..|q| + 1] <= p;
  }

  lemma PrefixOfChild(q: Path, p: Path, k: string)
    ensures q < Child(p, k) <==> q <= p
    ensures q <= Child(p, k) <==> q <= p || q == Child(p, k)
    ensures q < p ==> Child(p, k)[..|q| + 1] == p[..|q| + 1]
    ensures Child(p, k)[..|p| + 1] == Child(p, k)
  {
  }

  lemma GrownAt(t: Tree, p: Path, q: Path)
    ensures q in Grown(t, p) <==> q in t || q <= p
    ensures q in Grown(t, p) ==> Grown(t, p)[q] == GrownPayload(t, p, q)
  {
  }

  lemma GrownStepAt(t: Tree, p: Path, k: string, q: Path)
    requires Child(p, k) !in t
    ensures q in Grown(t, Child(p, k)) <==> q in AddChild(Grown(t, p), Child(p, k), FRESH)
    ensures q in Grown(t, Child(p, k)) ==> Grown(t, Child(p, k))[q] == AddChild(Grown(t, p), Child(p, k), FRESH)[q]
  {
    hide Grown, Child;
    ChildLength(p, k);
    PrefixOfChild(q, p, k);
    PrefixOfChild(p, p, k);
    GrownAt(t, p, q);
    GrownAt(t, p, p);
    GrownAt(t, Child(p, k), q);
    assert q <= p ==> q < p || q == p;
  }

  // One round of the insertion loop.
  lemma GrownStep(t: Tree, p: Path, k: string)
    requires IsTree(t)
    ensures Child(p, k) in Grown(t, p) ==> Grown(t, Child(p, k)) == Grown(t, p)
    ensures Child(p, k) !in Grown(t, p) ==> Grown(t, Child(p, k)) == AddChild(Grown(t, p), Child(p, k), FRESH)
  {
    var at := Child(p, k);
    if at in t {
      GrownNothing(t, at);
      PrefixIn(t, p, at);
      GrownNothing(t, p);
    } else {
      PrefixOfChild(at, p, k);
      var added := AddChild(Grown(t, p), Child(p, k), FRESH);
      forall q
        ensures q in Grown(t, at) <==> q in added
        ensures q in added ==> Grown(t, at)[q] == added[q]
      {
        GrownStepAt(t, p, k, q);
      }
      assert Grown(t, at) == added;
    }
  }

  lemma GrownKids(t: Tree, p: Path, q: Path)
    requires IsTree(t)
    ensures HasKids(Grown(t, p), q) <==> HasKids(t, q) || q < p
  {
    if q < p {
      NextPrefix(q, p);
      assert Child(q, p[|q|]) in Grown(t, p);
    }
    if k :| Child(q, k) in t {
      assert Child(q, k) in Grown(t, p);
    }
    if k :| Child(q, k) in Grown(t, p) {
      assert Child(q, k) in t || q < p;
    }
  }

  /** Inserting component by component yields exactly the grown tree. */
  lemma {:induction false} GrowIsGrown(t: Tree, p: Path)
    requires IsTree(t)
    ensures Grow(t, p) == Grown(t, p)
    decreases |p|
  {
    if p == [] {
      GrownNothing(t, []);
    } else {
      GrowIsGrown(t, Parent(p));
      assert p == Child(Parent(p), Last(p));
      GrownStep(t, Parent(p), Last(p));
    }
  }

  // ---------------------------------------------------------------- set_value and set_list

  ghost function SetValue(c: Conversions, t: Tree, p: Path, s: string): Update
    requires [] in t
  {
    if p in t && HasKids(t, p) then Update(t, Failed(NonLeaf))
    else ScalarAt(c, Grow(t, p), p, s)
  }

  ghost function SetList(t: Tree, p: Path, vs: seq<string>): Update
    requires [] in t
  {
    if p in t && HasKids(t, p) then Update(t, Failed(NonLeaf))
    else
      var g := Grow(t, p);
      Update(g[p := g[p].(typ := SEQUENCE, list := vs)], Done)
  }

  // A text that converts to unsigned int converts to int as well: no unsigned value above INT_MAX.
  predicate FitsInt(c: Conversions, text: string) {
    c.toUint(text).Some? ==> c.toInt(text).Some?
  }

  predicate NoNumbers(c: Conversions, values: seq<string>) {
    values != [] ==> c.toUint(values[0]) == None
  }

  // The node at p holds a list whose first element converts to unsigned int.
  predicate HoldsNumbers(c: Conversions, t: Tree, p: Path) {
    p in t && t[p].typ == SEQUENCE && !NoNumbers(c, t[p].list)
  }

  /** When writing a text at p makes type inference throw: a list decides by its first element, any other node,
      or none, by the text. */
  predicate InferenceStops(c: Conversions, t: Tree, p: Path, text: string) {
    if p in t && t[p].typ == SEQUENCE then HoldsNumbers(c, t, p) else !FitsInt(c, text)
  }

  // Insertion does nothing when the path exists, and a node it inserts has no children.
  lemma GrowExisting(t: Tree, p: Path)
    requires IsTree(t)
    ensures p in t ==> Grow(t, p) == t
    ensures HasKids(Grow(t, p), p) <==> p in t && HasKids(t, p)
  {
    GrowIsGrown(t, p);
    GrownKids(t, p, p);
    NoKidsOutside(t, p);
    if p in t {
      GrownNothing(t, p);
    }
  }

  // The node is as a write of this text would make it.
  predicate AlreadyThere(c: Conversions, t: Tree, p: Path, text: string) {
    p in t && AssignScalar(c, t[p], text) == t[p]
  }

  /** What a scalar write answers, told from the tree and the text alone, and when it leaves the tree as it is. */
  lemma SetValueOutcome(c: Conversions, t: Tree, p: Path, text: string)
    requires IsTree(t)
    ensures [] in t
    ensures var r := SetValue(c, t, p, text);
            && r.outcome == (if HasKids(t, p) then Failed(NonLeaf)
                             else if InferenceStops(c, t, p, text) then Failed(BadInference) else Done)
            && (r.tree == t <==> HasKids(t, p) || AlreadyThere(c, t, p, text))
            && (!HasKids(t, p) ==> p in r.tree && r.tree[p].scalar == text)
  {
    NoKidsOutside(t, p);
    GrowExisting(t, p);
    if p !in t {
      GrowIsGrown(t, p);
      GrownAt(t, p, p);
    }
  }

  // What insertion does to every node: what got its first child on the way is a map now, nothing else changes.
  lemma GrowNodes(t: Tree, p: Path, q: Path)
    requires IsTree(t)
    ensures [] in t
    ensures q in Grow(t, p) <==> q in t || q <= p
    ensures q in t && !(q < p && p[..|q| + 1] !in t) ==> Grow(t, p)[q] == t[q]
    ensures q in t && q < p && p[..|q| + 1] !in t ==> Grow(t, p)[q] == Payload(MAP, t[q].scalar, t[q].list)
    ensures q !in t && q < p ==> Grow(t, p)[q] == Payload(MAP, "", [])
    ensures q !in t && q == p ==> Grow(t, p)[q] == Payload(NONE, "", [])
  {
    GrowIsGrown(t, p);
    GrownAt(t, p, q);
    if q < p {
      NextPrefix(q, p);
      AncestorIn(t, q, p[..|q| + 1]);
    }
  }

  lemma AncestorIn(t: Tree, q: Path, p: Path)
    requires IsTree(t) && q <= p
    ensures p in t ==> q in t
  {
    if p in t {
      PrefixIn(t, q, p);
    }
  }

  /** A scalar write that is not refused for children, node by node. The written node takes the text and keeps its
      list; its type follows from the text, or from the list it held, unless inference throws. */
  lemma SetValueNodes(c: Conversions, t: Tree, p: Path, s: string, q: Path)
    requires IsTree(t) && !HasKids(t, p)
    ensures [] in t
    ensures var w := SetValue(c, t, p, s).tree;
            && (q in w <==> q in t || q <= p)
            && (q in t && q != p && !(q < p && p[..|q| + 1] !in t) ==> w[q] == t[q])
            && (q in t && q < p && p[..|q| + 1] !in t ==> w[q] == Payload(MAP, t[q].scalar, t[q].list))
            && (q !in t && q < p ==> w[q] == Payload(MAP, "", []))
    ensures var w := SetValue(c, t, p, s).tree; var was := if p in t then t[p] else Payload(NONE, "", []);
            && p in w && w[p].scalar == s && w[p].list == was.list
            && (match Infer(c, was.typ, s, was.list)
                case Some(typ) => SetValue(c, t, p, s).outcome == Done && w[p].typ == typ
                case None => SetValue(c, t, p, s).outcome == Failed(BadInference) && w[p].typ == was.typ)
  {
    hide Grow, Infer;
    GrowNodes(t, p, q);
    GrowNodes(t, p, p);
  }

  /** A list write that is not refused, node by node. The written node keeps its text. */
  lemma SetListNodes(t: Tree, p: Path, vs: seq<string>, q: Path)
    requires IsTree(t) && !HasKids(t, p)
    ensures [] in t && SetList(t, p, vs).outcome == Done
    ensures var w := SetList(t, p, vs).tree;
            && (q in w <==> q in t || q <= p)
            && (q in t && q != p && !(q < p && p[..|q| + 1] !in t) ==> w[q] == t[q])
            && (q in t && q < p && p[..|q| + 1] !in t ==> w[q] == Payload(MAP, t[q].scalar, t[q].list))
            && (q !in t && q < p ==> w[q] == Payload(MAP, "", []))
            && p in w && w[p] == Payload(SEQUENCE, if p in t then t[p].scalar else "", vs)
  {
    hide Grow;
    GrowNodes(t, p, q);
    GrowNodes(t, p, p);
  }

  // The leaf map after d was written at p: leaves that were proper prefixes of p are inner nodes now.
  ghost function Written(leaves: map<Path, Payload>, p: Path, d: Payload): map<Path, Payload> {
    (map q | q in leaves && !(q < p) :: leaves[q])[p := d]
  }

  lemma WriteLeafMap(t: Tree, p: Path, d: Payload)
    requires IsTree(t) && p != [] && !HasKids(t, p)
    ensures Leaves(Grow(t, p)[p := d]) == Written(Leaves(t), p, d)
  {
    GrowIsGrown(t, p);
    WriteGrown(t, p, d);
  }

  lemma WriteGrown(t: Tree, p: Path, d: Payload)
    requires IsTree(t) && p != [] && !HasKids(t, p)
    ensures Leaves(Grown(t, p)[p := d]) == Written(Leaves(t), p, d)
  {
    var w := Grown(t, p)[p := d];
    forall q
      ensures q in Leaves(w) <==> q in Written(Leaves(t), p, d)
      ensures q in Leaves(w) ==> Leaves(w)[q] == Written(Leaves(t), p, d)[q]
    {
      WriteGrownAt(t, p, d, q);
    }
  }

  // The same for one path.
  lemma WriteGrownAt(t: Tree, p: Path, d: Payload, q: Path)
    requires IsTree(t) && p != [] && !HasKids(t, p)
    ensures var w := Grown(t, p)[p := d];
            && (IsLeaf(w, q) <==> q == p || (IsLeaf(t, q) && !(q < p)))
            && (IsLeaf(w, q) ==> w[q] == if q == p then d else t[q])
  {
    hide Grown;
    var w := Grown(t, p)[p := d];
    GrownAt(t, p, q);
    GrownAt(t, p, p);
    GrownKids(t, p, q);
    assert forall k :: Child(q, k) in w <==> Child(q, k) in Grown(t, p);
    assert q <= p <==> q == p || q < p;
  }

  /** A scalar write that does not throw changes the leaf map at the written path only, and
      takes away the leaves that were proper prefixes of it; on a node with children it
      throws and inserts nothing; a write to the empty path leaves every leaf alone. */
  lemma SetValueLeafMap(c: Conversions, t: Tree, p: Path, s: string)
    requires IsTree(t)
    ensures var r := SetValue(c, t, p, s);
            && (r.outcome == Failed(NonLeaf) <==> p in t && HasKids(t, p))
            && (r.outcome == Failed(NonLeaf) ==> r.tree == t)
            && (r.outcome == Done && p != [] ==>
                  && p in r.tree && r.tree[p].scalar == s
                  && Leaves(r.tree) == Written(Leaves(t), p, r.tree[p]))
            && (r.outcome == Done && p == [] ==> Leaves(r.tree) == Leaves(t))
  {
    var r := SetValue(c, t, p, s);
    if !(p in t && HasKids(t, p)) {
      if p == [] {
        assert forall q :: HasKids(r.tree, q) <==> HasKids(t, q);
      } else {
        NoKidsOutside(t, p);
        WriteLeafMap(t, p, r.tree[p]);
      }
    }
  }

  lemma SetListLeafMap(t: Tree, p: Path, vs: seq<string>)
    requires IsTree(t) && p != []
    ensures var r := SetList(t, p, vs);
            && (r.outcome == Failed(NonLeaf) <==> p in t && HasKids(t, p))
            && (r.outcome == Failed(NonLeaf) ==> r.tree == t)
            && (r.outcome == Done ==>
                  && p in r.tree && r.tree[p].typ == SEQUENCE && r.tree[p].list == vs
                  && Leaves(r.tree) == Written(Leaves(t), p, r.tree[p]))
  {
    var r := SetList(t, p, vs);
    if !(p in t && HasKids(t, p)) {
      NoKidsOutside(t, p);
      WriteLeafMap(t, p, r.tree[p]);
    }
  }

  lemma GrowPaths(t: Tree, p: Path, q: Path)
    requires IsTree(t)
    ensures q in Grow(t, p) <==> q in t || q <= p
  {
    GrowIsGrown(t, p);
  }

  lemma GrowScalars(t: Tree, p: Path)
    requires IsTree(t)
    ensures forall q :: q in Grow(t, p) && IsScalar(Grow(t, p)[q].typ) ==> q in t && Grow(t, p)[q] == t[q]
  {
    GrowIsGrown(t, p);
  }

  lemma AddChildGrows(t: Tree, p: Path, d: Payload)
    requires IsTree(t) && p !in t && p != []
    ensures AddChild(Grow(t, Parent(p)), p, d) == Grow(t, p)[p := d]
  {
    GrowPaths(t, Parent(p), p);
    NotAboveItself(p);
  }

  // A node that is made together with its missing parents and gets contents d right away.
  lemma NewNode(t: Tree, p: Path, d: Payload)
    requires IsTree(t) && p !in t && p != [] && forall k | k in p :: SlashFree(k)
    ensures AddChild(Grow(t, Parent(p)), p, d) == Grow(t, p)[p := d]
    ensures IsTree(Grow(t, p)[p := d])
    ensures forall q :: q in Grow(t, p) <==> q in t || q <= p
    ensures forall q :: q in Grow(t, p) && q != p && IsScalar(Grow(t, p)[q].typ) ==> q in t && Grow(t, p)[q] == t[q]
    ensures forall q :: q in t ==> Grow(t, p)[q] == t[q] || Grow(t, p)[q] == t[q].(typ := MAP)
    ensures Leaves(Grow(t, p)[p := d]) == Written(Leaves(t), p, d)
  {
    hide Leaves, Written, Grow, Grown;
    forall q | q in t
      ensures q in Grown(t, p) && (Grown(t, p)[q] == t[q] || Grown(t, p)[q] == t[q].(typ := MAP))
    {
      GrownAt(t, p, q);
    }
    NoKidsOutside(t, p);
    WriteLeafMap(t, p, d);
    AddChildGrows(t, p, d);
    GrowScalars(t, p);
    GrowIsGrown(t, p);
    GrownIsTree(t, p);
    forall q
      ensures q in Grow(t, p) <==> q in t || q <= p
    {
      GrowPaths(t, p, q);
    }
  }

  lemma NotAboveItself(p: Path)
    requires p != []
    ensures !(p <= Parent(p))
  {
    assert |Parent(p)| < |p|;
  }

  // ---------------------------------------------------------------- find and erase

  // The shortest prefix of p that the tree does not hold.
  ghost predicate FirstMissing(t: Tree, p: Path, m: Path) {
    m <= p && m != [] && m !in t && Parent(m) in t
  }

  lemma {:induction false} MissingPrefix(t: Tree, p: Path) returns (m: Path)
    requires IsTree(t) && p !in t
    ensures FirstMissing(t, p, m)
    decreases |p|
  {
    if Parent(p) in t {
      m := p;
    } else {
      m := MissingPrefix(t, Parent(p));
    }
  }

  lemma MissingUnique(t: Tree, p: Path, m: Path, n: Path)
    requires IsTree(t) && FirstMissing(t, p, m) && FirstMissing(t, p, n)
    ensures m == n
  {
    if |m| < |n| {
      assert m <= Parent(n);
      PrefixIn(t, m, Parent(n));
    } else if |n| < |m| {
      assert n <= Parent(m);
      PrefixIn(t, n, Parent(m));
    }
  }

  // The walk to p stops at the missing prefix m.
  lemma NoPathThrough(t: Tree, p: Path, m: Path)
    requires IsTree(t) && m <= p && m != [] && m !in t && Parent(m) in t
    ensures p !in t && Missing(t, p) == m
  {
    if p in t {
      PrefixIn(t, m, p);
    }
    MissingUnique(t, p, m, Missing(t, p));
  }

  ghost function Missing(t: Tree, p: Path): (m: Path)
    requires IsTree(t) && p !in t
    ensures FirstMissing(t, p, m)
  {
    assert exists m :: FirstMissing(t, p, m) by { var m := MissingPrefix(t, p); }
    var m :| FirstMissing(t, p, m);
    m
  }

  // erase: the node at p goes, then its parent if nothing is left below it, and so on up to the root.
  ghost function PruneUp(t: Tree, p: Path): Tree
    decreases |p|
  {
    if p == [] then t
    else
      var u := t - {p};
      if HasKids(u, Parent(p)) then u else PruneUp(u, Parent(p))
  }

  // The nodes pruned with p: those below which the tree holds nothing but the way to p.
  ghost predicate Pruned(t: Tree, p: Path, q: Path) {
    q != [] && q <= p && forall r :: r in t && q <= r ==> r <= p
  }

  ghost function Prune(t: Tree, p: Path): Tree {
    map q | q in t && !Pruned(t, p, q) :: t[q]
  }

  ghost function Erase(t: Tree, p: Path): Update
    requires IsTree(t)
  {
    if p !in t then Update(t, Failed(NotFound(Missing(t, p))))
    else if HasKids(t, p) then Update(t, Failed(NonLeaf))
    else Update(PruneUp(t, p), Done)
  }

  lemma RemoveLeaf(t: Tree, p: Path)
    requires IsTree(t) && IsLeaf(t, p)
    ensures IsTree(t - {p}) && Parent(p) in t - {p}
  {
    forall q | q in t - {p} && q != []
      ensures Parent(q) in t - {p}
    {
      if Parent(q) == p {
        ChildOfParent(q);
      }
    }
  }

  lemma PrefixOfParent(q: Path, p: Path)
    requires p != []
    ensures q <= p <==> q <= Parent(p) || q == p
  {
    ChildOfParent(p);
    PrefixOfChild(q, Parent(p), Last(p));
  }

  /** Pruning step by step removes exactly the nodes below which nothing else hangs. */
  lemma {:induction false} PruneUpIsPrune(t: Tree, p: Path)
    requires IsTree(t) && p in t && !HasKids(t, p)
    ensures PruneUp(t, p) == Prune(t, p)
    decreases |p|
  {
    if p != [] {
      var u, up := t - {p}, Parent(p);
      RemoveLeaf(t, p);
      LeafIsPruned(t, p);
      forall q
        ensures q in Prune(t, p) <==> q in if HasKids(u, up) then u else Prune(u, up)
      {
        PruneOne(t, p, q);
      }
      if !HasKids(u, up) {
        PruneUpIsPrune(u, up);
      }
    }
  }

  // One round of pruning, seen from path q.
  lemma PruneOne(t: Tree, p: Path, q: Path)
    requires IsTree(t) && IsLeaf(t, p)
    ensures q in Prune(t, p) <==> q in if HasKids(t - {p}, Parent(p)) then t - {p} else Prune(t - {p}, Parent(p))
  {
    var u, up := t - {p}, Parent(p);
    RemoveLeaf(t, p);
    LeafIsPruned(t, p);
    PrefixOfParent(q, p);
    if q in u {
      if HasKids(u, up) {
        KidsBelow(u, up);
        if q <= up {
          var r :| r in u && up < r;
          assert q <= r;
          PrefixOfParent(r, p);
        }
      } else {
        forall r | r in t
          ensures r == p || r in u
          ensures r in u ==> (r <= p <==> r <= up)
        {
          PrefixOfParent(r, p);
        }
        assert Pruned(t, p, q) <==> Pruned(u, up, q);
      }
    }
  }

  // What hangs below a pruned node is pruned with it.
  lemma PrunedBelow(t: Tree, p: Path, q: Path)
    requires q in t && q != [] && Parent(q) != [] && Pruned(t, p, Parent(q))
    ensures Pruned(t, p, q)
  {
    assert Parent(q) <= q;
    forall r | r in t && q <= r
      ensures r <= p
    {
      assert Parent(q) <= r;
    }
  }

  lemma PruneIsTree(t: Tree, p: Path)
    requires IsTree(t)
    ensures IsTree(Prune(t, p))
  {
    forall q | q in Prune(t, p) && q != []
      ensures Parent(q) in Prune(t, p)
    {
      if Parent(q) != [] && Pruned(t, p, Parent(q)) {
        PrunedBelow(t, p, q);
      }
    }
  }

  // Pruning empties no node that it keeps.
  lemma PruneKids(t: Tree, p: Path, q: Path)
    requires IsTree(t) && p in t && !HasKids(t, p)
    requires q in Prune(t, p) && q != [] && HasKids(t, q)
    ensures HasKids(Prune(t, p), q)
  {
    if q <= p {
      var r :| r in t && q <= r && !(r <= p);
      assert q < r;
      NextPrefix(q, r);
      var k := Child(q, r[|q|]);
      PrefixIn(t, k, r);
      if Pruned(t, p, k) {
        assert false;
      }
      assert k in Prune(t, p);
    } else {
      var k :| Child(q, k) in t;
      assert !(Child(q, k) <= p);
      assert Child(q, k) in Prune(t, p);
    }
  }

  // The other leaves are not on the way to p, so pruning leaves them as they are.
  lemma PruneKeepsLeaf(t: Tree, p: Path, q: Path)
    requires IsTree(t) && p in t && IsLeaf(t, q) && q != p
    ensures IsLeaf(Prune(t, p), q)
  {
    KidsBelow(t, q);
    assert forall k :: Child(q, k) in Prune(t, p) ==> Child(q, k) in t;
  }

  lemma LeafIsPruned(t: Tree, p: Path)
    requires IsTree(t) && IsLeaf(t, p)
    ensures Pruned(t, p, p)
  {
    KidsBelow(t, p);
    forall r | r in t && p <= r
      ensures r <= p
    {
      assert p == r || p < r;
    }
  }

  /** Erasing a leaf removes exactly that path from the leaf map: no other leaf is lost and no
      emptied ancestor is left behind as a new leaf. An erase that throws changes nothing. */
  lemma EraseLeafMap(t: Tree, p: Path)
    requires IsTree(t)
    ensures var r := Erase(t, p);
            && (r.outcome == Done <==> p in t && !HasKids(t, p))
            && (r.outcome == Done ==> Leaves(r.tree) == Leaves(t) - {p})
            && (r.outcome != Done ==> r.tree == t)
  {
    var r := Erase(t, p);
    if r.outcome == Done {
      PruneUpIsPrune(t, p);
      forall q
        ensures q in Leaves(Prune(t, p)) <==> q in Leaves(t) - {p}
      {
        if q in Leaves(t) && q != p {
          PruneKeepsLeaf(t, p, q);
        }
        if q in Leaves(Prune(t, p)) {
          if HasKids(t, q) {
            PruneKids(t, p, q);
          }
          if IsLeaf(t, p) {
            LeafIsPruned(t, p);
          }
        }
      }
    }
  }

  /** What erasing answers, and node by node what it leaves: the root, and unchanged every node that is not on the way
      to p or has something else below it. */
  lemma EraseNodes(t: Tree, p: Path, q: Path)
    requires IsTree(t)
    ensures var r := Erase(t, p);
            && (r.outcome == Failed(NonLeaf) <==> HasKids(t, p))
            && (r.outcome == Done || r.outcome == Failed(NonLeaf)
                || exists m :: r.outcome == Failed(NotFound(m)) && m <= p && m != [] && m !in t && Parent(m) in t)
            && (r.outcome == Done ==>
                  && (q in r.tree <==> q in t && (q == [] || !(q <= p) || exists o :: o in t && q <= o && !(o <= p)))
                  && (q in r.tree ==> r.tree[q] == t[q]))
  {
    NoKidsOutside(t, p);
    if p in t && !HasKids(t, p) {
      PruneUpIsPrune(t, p);
    }
  }

  lemma SetValueIsTree(c: Conversions, t: Tree, p: Path, s: string)
    requires IsTree(t) && Components(p)
    ensures IsTree(SetValue(c, t, p, s).tree)
  {
    GrowIsGrown(t, p);
    GrownIsTree(t, p);
  }

  /** Erasing the path just written restores the leaf map exactly when the path was no leaf
      and had no leaf among its proper prefixes. */
  lemma EraseAfterSet(c: Conversions, t: Tree, p: Path, s: string)
    requires IsTree(t) && Components(p) && p != []
    requires SetValue(c, t, p, s).outcome == Done
    ensures var w := SetValue(c, t, p, s).tree;
            && IsTree(w)
            && Erase(w, p).outcome == Done
            && (Leaves(Erase(w, p).tree) == Leaves(t) <==> forall q :: q <= p ==> !IsLeaf(t, q))
  {
    var w := SetValue(c, t, p, s).tree;
    SetValueIsTree(c, t, p, s);
    SetValueLeafMap(c, t, p, s);
    assert p in Leaves(w);
    EraseLeafMap(w, p);
    WrittenAndRemoved(Leaves(t), p, w[p]);
    assert Erase(w, p).outcome == Done;
    assert forall q :: q in Leaves(t) <==> IsLeaf(t, q);
  }

  lemma WrittenAndRemoved(leaves: map<Path, Payload>, p: Path, d: Payload)
    ensures Written(leaves, p, d) - {p} == leaves <==> forall q :: q <= p ==> q !in leaves
  {
    var e := Written(leaves, p, d) - {p};
    forall q
      ensures q in e <==> q in leaves && !(q <= p)
    {
      assert q <= p && !(q < p) ==> q == p;
    }
    if forall q :: q <= p ==> q !in leaves {
      assert e == leaves;
    }
  }

  // ---------------------------------------------------------------- diff

  // operator!= on two nodes at the same path: the list elements are not compared.
  predicate Differs(a: Payload, b: Payload) {
    a.typ != b.typ || a.scalar != b.scalar
  }

  /** The paths that diff is meant to report. */
  ghost function Changed(a: Tree, b: Tree): set<Path> {
    set p | p in Leaves(a).Keys + Leaves(b).Keys &&
            (p !in Leaves(a) || p !in Leaves(b) || Differs(Leaves(a)[p], Leaves(b)[p]))
  }

  lemma ChangedSymmetric(a: Tree, b: Tree)
    ensures Changed(a, b) == Changed(b, a)
  {
    forall p
      ensures p in Changed(a, b) <==> p in Changed(b, a)
    {
    }
  }

  /** One write is reported at the written path, unless the node was already as written, and at a leaf that was a
      prefix of it, nowhere else. */
  lemma ChangedBySet(c: Conversions, t: Tree, p: Path, s: string)
    requires IsTree(t) && p != []
    requires SetValue(c, t, p, s).outcome == Done
    ensures p in Changed(t, SetValue(c, t, p, s).tree) <==> !AlreadyThere(c, t, p, s)
    ensures forall q :: q in Changed(t, SetValue(c, t, p, s).tree) && q != p ==> q < p && IsLeaf(t, q)
    ensures forall q :: q < p && IsLeaf(t, q) ==> q in Changed(t, SetValue(c, t, p, s).tree)
  {
    hide AlreadyThere, SetValue, IsTree;
    SetValueLeafMap(c, t, p, s);
    WrittenSeen(c, t, p, s);
  }

  lemma WrittenSeen(c: Conversions, t: Tree, p: Path, s: string)
    requires IsTree(t) && p != [] && SetValue(c, t, p, s).outcome == Done
    ensures p in Changed(t, SetValue(c, t, p, s).tree) <==> !AlreadyThere(c, t, p, s)
  {
    hide Grow;
    var w := SetValue(c, t, p, s).tree;
    SetValueLeafMap(c, t, p, s);
    SetValueOutcome(c, t, p, s);
    GrowExisting(t, p);
    NoKidsOutside(t, p);
    assert p in Leaves(w) && Leaves(w)[p] == w[p];
    assert p in Leaves(t) <==> p in t;
  }

  /** diff sees a list write exactly when the path held no list before. */
  lemma ListWriteSeen(t: Tree, p: Path, vs: seq<string>)
    requires IsTree(t) && p != [] && SetList(t, p, vs).outcome == Done
    ensures p in Changed(t, SetList(t, p, vs).tree) <==> !(p in t && t[p].typ == SEQUENCE)
  {
    hide Grown;
    SetListLeafMap(t, p, vs);
    NoKidsOutside(t, p);
    GrowIsGrown(t, p);
    GrownAt(t, p, p);
    GrowExisting(t, p);
    var w := SetList(t, p, vs).tree;
    assert p in Leaves(w) && Leaves(w)[p] == w[p];
    assert p in Leaves(t) <==> p in t;
  }

  lemma ListChangeUnseen()
    ensures exists a: Tree, b: Tree ::
              IsTree(a) && IsTree(b) && Leaves(a) != Leaves(b) && Changed(a, b) == {}
  {
    var a: Tree := map[[] := FRESH, ["x"] := Payload(SEQUENCE, "", ["1"])];
    var b: Tree := map[[] := FRESH, ["x"] := Payload(SEQUENCE, "", ["2"])];
    forall q | q in a && q != []
      ensures q == ["x"] && Parent(q) == []
    {
    }
    assert IsTree(a) && IsTree(b);
    assert forall k :: Child(["x"], k) !in a && Child(["x"], k) !in b;
    assert IsLeaf(a, ["x"]) && IsLeaf(b, ["x"]);
    assert Leaves(a)[["x"]] != Leaves(b)[["x"]];
    assert Leaves(a).Keys == {["x"]} && Leaves(b).Keys == {["x"]};
    forall p
      ensures p !in Changed(a, b)
    {
    }
  }
}
