/** The two trees of YamlConfiguration: the effective configuration and the host overrides. Every write
    goes to both; the theorems say when the two stay consistent. */
module Configuration {
  import opened Basics
  import opened ConfigPath
  import opened ConfigTree
  import opened ConfigMerge

  // ---------------------------------------------------------------- consistency

  /** Every path of the host tree exists in the effective tree, and every scalar leaf of the host tree is a
      leaf of the effective tree with the same text. */
  ghost predicate Covered(host: Tree, root: Tree) {
    && host.Keys <= root.Keys
    && forall p :: p in Leaves(host) && IsScalar(host[p].typ) ==>
         p in Leaves(root) && root[p].scalar == host[p].scalar
  }

  // ---------------------------------------------------------------- commands

  datatype Command =
    | PutScalar(path: string, text: string)
    | PutList(path: string, values: seq<string>)
    | Remove(path: string)

  datatype Config = Config(root: Tree, host: Tree, hostFile: string)

  // Refused: a tree operation threw. NoHostFile: both trees took the change, writing the host file threw.
  datatype Answer = Stored | NoHostFile | Refused(error: Error)

  function AfterWrite(s: Config): Answer {
    if s.hostFile == "" then NoHostFile else Stored
  }

  // The second tree operation, after the first one succeeded with state s1.
  function Second(s2: Config, o: Outcome): (Config, Answer) {
    (s2, if o == Done then AfterWrite(s2) else Refused(o.error))
  }

  /** One command: set_* writes the effective tree first, erase the host tree first; an exception of the
      first tree operation leaves out the second. */
  ghost function Step(c: Conversions, s: Config, cmd: Command): (Config, Answer)
    requires IsTree(s.root) && IsTree(s.host)
  {
    match cmd
    case PutScalar(path, text) =>
      var r := SetValue(c, s.root, Split(path), text);
      if r.outcome != Done then (s.(root := r.tree), Refused(r.outcome.error))
      else
        var h := SetValue(c, s.host, Split(path), text);
        Second(s.(root := r.tree, host := h.tree), h.outcome)
    case PutList(path, values) =>
      var r := SetList(s.root, Split(path), values);
      if r.outcome != Done then (s.(root := r.tree), Refused(r.outcome.error))
      else
        var h := SetList(s.host, Split(path), values);
        Second(s.(root := r.tree, host := h.tree), h.outcome)
    case Remove(path) =>
      var h := Erase(s.host, Split(path));
      if h.outcome != Done then (s.(host := h.tree), Refused(h.outcome.error))
      else
        var r := Erase(s.root, Split(path));
        Second(s.(root := r.tree, host := h.tree), r.outcome)
  }

  // ---------------------------------------------------------------- one step

  ghost predicate Consistent(s: Config) {
    IsTree(s.root) && IsTree(s.host) && Covered(s.host, s.root)
  }

  lemma CoveredKids(s: Config, p: Path)
    requires Consistent(s)
    ensures HasKids(s.host, p) ==> HasKids(s.root, p)
  {
  }

  // The effective tree accepts the path but cannot infer a type.
  ghost predicate RootThrows(c: Conversions, s: Config, p: Path, text: string) {
    !HasKids(s.root, p) && InferenceStops(c, s.root, p, text)
  }

  // The effective tree takes the text, then the host tree cannot infer a type.
  ghost predicate HostThrows(c: Conversions, s: Config, p: Path, text: string) {
    !HasKids(s.root, p) && !InferenceStops(c, s.root, p, text) && InferenceStops(c, s.host, p, text)
  }

  /** A scalar write is refused exactly when the path has children in the effective tree or inference throws in
      one of the trees. It then leaves something changed behind exactly when one of the trees throws during
      inference and the text was not there before; the effective tree, and when it is the host tree that throws
      both trees, hold the new text. */
  lemma SetIsAtomic(c: Conversions, s: Config, path: string, text: string)
    requires Consistent(s)
    ensures var p := Split(path); var (s', a) := Step(c, s, PutScalar(path, text));
            && (a.Refused? <==> HasKids(s.root, p) || InferenceStops(c, s.root, p, text) || InferenceStops(c, s.host, p, text))
            && (a == Refused(NonLeaf) <==> HasKids(s.root, p))
            && (a == Refused(BadInference) <==> RootThrows(c, s, p, text) || HostThrows(c, s, p, text))
            && (a.Refused? && s' != s <==>
                  || (RootThrows(c, s, p, text) && !AlreadyThere(c, s.root, p, text))
                  || (HostThrows(c, s, p, text)
                      && !(AlreadyThere(c, s.root, p, text) && AlreadyThere(c, s.host, p, text))))
            && (RootThrows(c, s, p, text) ==> s'.host == s.host && p in s'.root && s'.root[p].scalar == text)
            && (HostThrows(c, s, p, text) ==>
                  p in s'.root && p in s'.host && s'.root[p].scalar == text && s'.host[p].scalar == text)
  {
    hide SetValue, AlreadyThere, InferenceStops, IsTree;
    CoveredKids(s, Split(path));
    SetValueOutcome(c, s.root, Split(path), text);
    SetValueOutcome(c, s.host, Split(path), text);
  }

  // Consistency in terms of the leaf maps alone.
  ghost predicate SameScalars(host: map<Path, Payload>, root: map<Path, Payload>) {
    forall p :: p in host && IsScalar(host[p].typ) ==> p in root && root[p].scalar == host[p].scalar
  }

  lemma CoveredLeaves(host: Tree, root: Tree)
    ensures Covered(host, root) <==> host.Keys <= root.Keys && SameScalars(Leaves(host), Leaves(root))
  {
  }

  lemma WrittenBoth(host: map<Path, Payload>, root: map<Path, Payload>, p: Path, e: Payload, d: Payload)
    requires SameScalars(host, root) && (IsScalar(e.typ) ==> d.scalar == e.scalar)
    ensures SameScalars(Written(host, p, e), Written(root, p, d))
  {
  }

  // The host leaves that a write to the effective tree alone would contradict.
  ghost predicate Untouched(host: map<Path, Payload>, p: Path, text: string) {
    forall q :: q in host && IsScalar(host[q].typ) ==> !(q < p) && (q == p ==> host[q].scalar == text)
  }

  lemma WrittenRootOnly(host: map<Path, Payload>, root: map<Path, Payload>, p: Path, d: Payload)
    requires SameScalars(host, root)
    ensures SameScalars(host, Written(root, p, d)) <==> Untouched(host, p, d.scalar)
  {
    if q :| q in host && IsScalar(host[q].typ) && (q < p || (q == p && host[q].scalar != d.scalar)) {
      assert q !in Written(root, p, d) || Written(root, p, d)[q].scalar != host[q].scalar;
    }
  }

  // What a write that is not refused for children does to the leaves, whether or not inference throws.
  lemma SetLeaves(c: Conversions, t: Tree, p: Path, text: string)
    requires IsTree(t) && SetValue(c, t, p, text).outcome != Failed(NonLeaf)
    ensures var w := SetValue(c, t, p, text).tree;
            && p in w && w[p].scalar == text
            && (forall q :: q in w <==> q in t || q <= p)
            && Leaves(w) == if p == [] then Leaves(t) else Written(Leaves(t), p, w[p])
  {
    var w := SetValue(c, t, p, text).tree;
    GrowIsGrown(t, p);
    NoKidsOutside(t, p);
    if p == [] {
      assert forall q :: HasKids(w, q) <==> HasKids(t, q);
      assert Leaves(w) == Leaves(t);
    } else {
      WriteLeafMap(t, p, w[p]);
    }
  }

  /** A scalar write keeps the two trees consistent exactly when it does not throw in the middle of the
      effective tree's type inference, or no scalar of the host tree disagrees with what was written there. */
  lemma SetKeepsCovered(c: Conversions, s: Config, path: string, text: string)
    requires Consistent(s)
    ensures var (s', a) := Step(c, s, PutScalar(path, text));
            && IsTree(s'.root) && IsTree(s'.host)
            && (Covered(s'.host, s'.root) <==>
                  !RootThrows(c, s, Split(path), text) || Untouched(Leaves(s.host), Split(path), text))
  {
    hide IsTree, Leaves, Covered;
    var p := Split(path);
    SetValueOutcome(c, s.root, p, text);
    SetValueOutcome(c, s.host, p, text);
    var r, h := SetValue(c, s.root, p, text), SetValue(c, s.host, p, text);
    CoveredKids(s, p);
    CoveredLeaves(s.host, s.root);
    if r.outcome != Failed(NonLeaf) {
      SetValueIsTree(c, s.root, p, text);
      SetLeaves(c, s.root, p, text);
      if r.outcome == Done {
        SetValueIsTree(c, s.host, p, text);
        SetLeaves(c, s.host, p, text);
        CoveredLeaves(h.tree, r.tree);
        WrittenBoth(Leaves(s.host), Leaves(s.root), p, h.tree[p], r.tree[p]);
      } else {
        CoveredLeaves(s.host, r.tree);
        WrittenRootOnly(Leaves(s.host), Leaves(s.root), p, r.tree[p]);
        if p == [] {
          NoEmptyLeaf(s.host);
        }
      }
    }
  }

  lemma NoEmptyLeaf(t: Tree)
    ensures forall q :: q in Leaves(t) ==> q != [] && !(q < [])
  {
  }

  // What a list write does to the leaves.
  lemma ListLeaves(t: Tree, p: Path, vs: seq<string>)
    requires IsTree(t) && Components(p) && !HasKids(t, p)
    ensures var w := SetList(t, p, vs).tree;
            && IsTree(w) && p in w && w[p].typ == SEQUENCE
            && (forall q :: q in w <==> q in t || q <= p)
            && Leaves(w) == if p == [] then Leaves(t) else Written(Leaves(t), p, w[p])
  {
    var w := SetList(t, p, vs).tree;
    GrowIsGrown(t, p);
    GrownIsTree(t, p);
    if p == [] {
      assert forall q :: HasKids(w, q) <==> HasKids(t, q);
      assert Leaves(w) == Leaves(t);
    } else {
      WriteLeafMap(t, p, w[p]);
    }
  }

  /** A list write keeps the two trees consistent; it is refused by both trees or by none. */
  lemma ListKeepsCovered(c: Conversions, s: Config, path: string, values: seq<string>)
    requires Consistent(s)
    ensures var (s', a) := Step(c, s, PutList(path, values));
            && Consistent(s')
            && (a.Refused? <==> HasKids(s.root, Split(path)))
            && (a.Refused? ==> s' == s)
  {
    hide IsTree, Leaves, Covered, Grow, HasKids;
    var p := Split(path);
    CoveredKids(s, p);
    RootPath(s.root);
    RootPath(s.host);
    NoKidsOutside(s.root, p);
    NoKidsOutside(s.host, p);
    if !HasKids(s.root, p) {
      ListLeaves(s.root, p, values);
      ListLeaves(s.host, p, values);
      var r, h := SetList(s.root, p, values).tree, SetList(s.host, p, values).tree;
      CoveredLeaves(s.host, s.root);
      CoveredLeaves(h, r);
      WrittenBoth(Leaves(s.host), Leaves(s.root), p, h[p], r[p]);
    }
  }

  // What is pruned from the effective tree is pruned from the smaller host tree as well.
  lemma PruneBoth(host: Tree, root: Tree, p: Path)
    requires host.Keys <= root.Keys
    ensures Prune(host, p).Keys <= Prune(root, p).Keys
  {
  }

  lemma EraseIsTree(t: Tree, p: Path)
    requires IsTree(t)
    ensures IsTree(Erase(t, p).tree)
    ensures Erase(t, p).outcome == Done ==> Erase(t, p).tree == Prune(t, p)
  {
    if p in t && !HasKids(t, p) {
      PruneUpIsPrune(t, p);
      PruneIsTree(t, p);
    }
  }

  lemma ListIsTree(t: Tree, p: Path, vs: seq<string>)
    requires IsTree(t) && Components(p)
    ensures IsTree(SetList(t, p, vs).tree)
  {
    GrowIsGrown(t, p);
    GrownIsTree(t, p);
  }

  lemma FewerHostLeaves(host: map<Path, Payload>, root: map<Path, Payload>, p: Path)
    requires SameScalars(host, root)
    ensures SameScalars(host - {p}, root) && SameScalars(host - {p}, root - {p})
  {
  }

  lemma PruneShrinks(t: Tree, p: Path)
    ensures Prune(t, p).Keys <= t.Keys
  {
  }

  /** Erasing keeps the two trees consistent. It is refused halfway, the host tree changed and the
      effective tree not, exactly when the path is a leaf of the host tree only. */
  lemma EraseKeepsCovered(c: Conversions, s: Config, path: string)
    requires Consistent(s)
    ensures var (s', a) := Step(c, s, Remove(path));
            && Consistent(s')
            && (a.Refused? && s' != s <==> IsLeaf(s.host, Split(path)) && HasKids(s.root, Split(path)))
            && (!a.Refused? ==> Leaves(s'.host) == Leaves(s.host) - {Split(path)}
                                && Leaves(s'.root) == Leaves(s.root) - {Split(path)})
  {
    hide IsTree, Leaves, Covered, Prune, HasKids, PruneUp;
    var p := Split(path);
    EraseLeafMap(s.host, p);
    EraseLeafMap(s.root, p);
    EraseIsTree(s.host, p);
    EraseIsTree(s.root, p);
    CoveredLeaves(s.host, s.root);
    var h := Erase(s.host, p);
    if h.outcome == Done {
      var r := Erase(s.root, p);
      PruneBoth(s.host, s.root, p);
      PruneShrinks(s.host, p);
      FewerHostLeaves(Leaves(s.host), Leaves(s.root), p);
      CoveredLeaves(h.tree, r.tree);
      EraseChanges(s.host, p);
    }
  }

  lemma EraseChanges(t: Tree, p: Path)
    requires IsTree(t) && p in t && !HasKids(t, p)
    ensures Erase(t, p).tree != t <==> p != []
  {
    EraseIsTree(t, p);
    if p != [] {
      LeafIsPruned(t, p);
      assert p !in Prune(t, p);
    }
  }

  /** Erasing a scalar of the host tree is never refused. */
  lemma EraseOfScalar(c: Conversions, s: Config, path: string)
    requires Consistent(s) && IsLeaf(s.host, Split(path)) && IsScalar(s.host[Split(path)].typ)
    ensures Step(c, s, Remove(path)).1 == AfterWrite(s)
  {
    assert Split(path) in Leaves(s.root);
  }

  // ---------------------------------------------------------------- runs

  lemma StepIsTree(c: Conversions, s: Config, cmd: Command)
    requires IsTree(s.root) && IsTree(s.host)
    ensures IsTree(Step(c, s, cmd).0.root) && IsTree(Step(c, s, cmd).0.host)
  {
    hide IsTree, SetValue, Erase;
    RootPath(s.root);
    RootPath(s.host);
    match cmd
    case PutScalar(path, text) =>
      SetValueIsTree(c, s.root, Split(path), text);
      SetValueIsTree(c, s.host, Split(path), text);
    case PutList(path, values) =>
      ListIsTree(s.root, Split(path), values);
      ListIsTree(s.host, Split(path), values);
    case Remove(path) =>
      EraseIsTree(s.root, Split(path));
      EraseIsTree(s.host, Split(path));
  }

  ghost function Run(c: Conversions, s: Config, cmds: seq<Command>): Config
    requires IsTree(s.root) && IsTree(s.host)
    decreases |cmds|
  {
    if cmds == [] then s
    else
      StepIsTree(c, s, cmds[0]);
      Run(c, Step(c, s, cmds[0]).0, cmds[1..])
  }

  // The command does not leave a scalar of the host tree behind that the effective tree contradicts.
  ghost predicate Faithful(c: Conversions, s: Config, cmd: Command)
  {
    cmd.PutScalar? ==>
      !RootThrows(c, s, Split(cmd.path), cmd.text) || Untouched(Leaves(s.host), Split(cmd.path), cmd.text)
  }

  ghost predicate FaithfulRun(c: Conversions, s: Config, cmds: seq<Command>)
    requires IsTree(s.root) && IsTree(s.host)
    decreases |cmds|
  {
    cmds == [] ||
    (StepIsTree(c, s, cmds[0]);
     Faithful(c, s, cmds[0]) && FaithfulRun(c, Step(c, s, cmds[0]).0, cmds[1..]))
  }

  lemma StepKeepsConsistent(c: Conversions, s: Config, cmd: Command)
    requires Consistent(s)
    ensures Consistent(Step(c, s, cmd).0) <==> Faithful(c, s, cmd)
  {
    hide IsTree, Leaves, Covered, Step, RootThrows, Untouched;
    match cmd
    case PutScalar(path, text) => SetKeepsCovered(c, s, path, text);
    case PutList(path, values) => ListKeepsCovered(c, s, path, values);
    case Remove(path) => EraseKeepsCovered(c, s, path);
  }

  lemma RunStep(c: Conversions, s: Config, cmds: seq<Command>, i: nat)
    requires IsTree(s.root) && IsTree(s.host) && 0 < i <= |cmds|
    ensures IsTree(Step(c, s, cmds[0]).0.root) && IsTree(Step(c, s, cmds[0]).0.host)
    ensures Run(c, s, cmds[..i]) == Run(c, Step(c, s, cmds[0]).0, cmds[1..][..i - 1])
  {
    hide Step, IsTree;
    StepIsTree(c, s, cmds[0]);
    assert cmds[..i][0] == cmds[0] && cmds[..i][1..] == cmds[1..][..i - 1];
  }

  /** Over a whole run the two trees are consistent after every command exactly when every command is
      faithful: the only danger is a scalar write that throws inside the effective tree. */
  lemma {:induction false} RunKeepsConsistent(c: Conversions, s: Config, cmds: seq<Command>)
    requires Consistent(s)
    ensures FaithfulRun(c, s, cmds) <==> forall i :: 0 <= i <= |cmds| ==> Consistent(Run(c, s, cmds[..i]))
    decreases |cmds|
  {
    assert cmds[..0] == [];
    if cmds != [] {
      hide Step, Faithful, Consistent, IsTree;
      ConsistentTrees(s);
      StepIsTree(c, s, cmds[0]);
      StepKeepsConsistent(c, s, cmds[0]);
      var next, rest := Step(c, s, cmds[0]).0, cmds[1..];
      forall i | 0 < i <= |cmds|
        ensures Run(c, s, cmds[..i]) == Run(c, next, rest[..i - 1])
      {
        RunStep(c, s, cmds, i);
      }
      assert rest[..0] == [] && Consistent(Run(c, s, cmds[..1])) == Consistent(next);
      if Consistent(next) {
        RunKeepsConsistent(c, next, rest);
        forall i | 0 <= i <= |rest|
          ensures Consistent(Run(c, next, rest[..i])) <==> Consistent(Run(c, s, cmds[..i + 1]))
        {
          RunStep(c, s, cmds, i + 1);
        }
      }
    }
  }

  lemma ConsistentTrees(s: Config)
    requires Consistent(s)
    ensures IsTree(s.root) && IsTree(s.host)
  {
  }

  // ---------------------------------------------------------------- when inference does not throw

  // The command stores a list at p whose first element converts to unsigned int.
  predicate StoresNumbers(c: Conversions, cmd: Command, p: Path) {
    cmd.PutList? && Split(cmd.path) == p && !NoNumbers(c, cmd.values)
  }

  /** Every scalar write has a text that fits an int, and neither the tree nor an earlier command of the run has
      put a list of numbers at its path. Lists at other paths do not matter. */
  ghost predicate Calm(c: Conversions, t: Tree, cmds: seq<Command>) {
    forall i :: 0 <= i < |cmds| && cmds[i].PutScalar? ==>
      && FitsInt(c, cmds[i].text) && !HoldsNumbers(c, t, Split(cmds[i].path))
      && forall j :: 0 <= j < i ==> !StoresNumbers(c, cmds[j], Split(cmds[i].path))
  }

  lemma NumbersInGrown(c: Conversions, t: Tree, p: Path, q: Path)
    requires IsTree(t)
    ensures HoldsNumbers(c, Grow(t, p), q) ==> HoldsNumbers(c, t, q)
  {
    GrowIsGrown(t, p);
    GrownAt(t, p, q);
  }

  // A list of numbers was there before, or the command has just stored it.
  lemma NumbersAfter(c: Conversions, s: Config, cmd: Command, q: Path)
    requires IsTree(s.root) && IsTree(s.host)
    ensures var s' := Step(c, s, cmd).0;
            && (HoldsNumbers(c, s'.root, q) ==> HoldsNumbers(c, s.root, q) || StoresNumbers(c, cmd, q))
            && (HoldsNumbers(c, s'.host, q) ==> HoldsNumbers(c, s.host, q) || StoresNumbers(c, cmd, q))
  {
    hide IsTree, HasKids, Grow, Prune, PruneUp;
    RootPath(s.root);
    RootPath(s.host);
    match cmd
    case Remove(path) =>
      EraseKeepsPayloads(s.root, Split(path), q);
      EraseKeepsPayloads(s.host, Split(path), q);
    case _ =>
      NumbersInGrown(c, s.root, Split(cmd.path), q);
      NumbersInGrown(c, s.host, Split(cmd.path), q);
      NumbersInGrown(c, s.root, Split(cmd.path), Split(cmd.path));
      NumbersInGrown(c, s.host, Split(cmd.path), Split(cmd.path));
  }

  lemma EraseKeepsPayloads(t: Tree, p: Path, q: Path)
    requires IsTree(t)
    ensures q in Erase(t, p).tree ==> q in t && Erase(t, p).tree[q] == t[q]
  {
    EraseIsTree(t, p);
  }

  lemma CalmStep(c: Conversions, s: Config, cmds: seq<Command>)
    requires IsTree(s.root) && IsTree(s.host) && cmds != []
    ensures Calm(c, s.root, cmds) ==> Calm(c, Step(c, s, cmds[0]).0.root, cmds[1..])
    ensures Calm(c, s.host, cmds) ==> Calm(c, Step(c, s, cmds[0]).0.host, cmds[1..])
  {
    hide IsTree, Step, HoldsNumbers, StoresNumbers;
    var next := Step(c, s, cmds[0]).0;
    forall q
      ensures HoldsNumbers(c, next.root, q) ==> HoldsNumbers(c, s.root, q) || StoresNumbers(c, cmds[0], q)
      ensures HoldsNumbers(c, next.host, q) ==> HoldsNumbers(c, s.host, q) || StoresNumbers(c, cmds[0], q)
    {
      NumbersAfter(c, s, cmds[0], q);
    }
    assert forall i :: 0 <= i < |cmds[1..]| ==> cmds[1..][i] == cmds[i + 1];
  }

  /** No scalar write of a calm run throws inside the effective tree, whatever lists are written elsewhere and
      whatever is erased in between. */
  lemma {:induction false} SafeRun(c: Conversions, s: Config, cmds: seq<Command>)
    requires IsTree(s.root) && IsTree(s.host) && Calm(c, s.root, cmds)
    ensures FaithfulRun(c, s, cmds)
    decreases |cmds|
  {
    if cmds != [] {
      StepIsTree(c, s, cmds[0]);
      CalmStep(c, s, cmds);
      hide Step, IsTree;
      SafeRun(c, Step(c, s, cmds[0]).0, cmds[1..]);
    }
  }

  /** In a run that is calm for both trees every scalar write is all-or-nothing: it is refused only for children in
      the effective tree, and then changes neither tree. */
  lemma {:induction false} SafeRunIsAtomic(c: Conversions, s: Config, cmds: seq<Command>, i: nat)
    requires Consistent(s) && Calm(c, s.root, cmds) && Calm(c, s.host, cmds)
    requires i < |cmds| && cmds[i].PutScalar?
    ensures var s1 := Run(c, s, cmds[..i]);
            Consistent(s1) &&
            var (s2, a) := Step(c, s1, cmds[i]);
            && Consistent(s2) && (a.Refused? <==> HasKids(s1.root, Split(cmds[i].path)))
            && (a.Refused? ==> s2 == s1)
    decreases i
  {
    StepKeepsConsistent(c, s, cmds[0]);
    if i == 0 {
      SetIsAtomic(c, s, cmds[0].path, cmds[0].text);
    } else {
      StepIsTree(c, s, cmds[0]);
      CalmStep(c, s, cmds);
      assert cmds[..i][0] == cmds[0] && cmds[..i][1..] == cmds[1..][..i - 1] && cmds[1..][i - 1] == cmds[i];
      hide Step, Calm, Consistent;
      SafeRunIsAtomic(c, Step(c, s, cmds[0]).0, cmds[1..], i - 1);
    }
  }

  // ---------------------------------------------------------------- reading a value

  // The text that get_string returns and the other getters convert.
  datatype Query = Value(text: string) | Absent(missing: Path) | Inner | IsList

  ghost function Get(t: Tree, p: Path): Query
    requires IsTree(t)
  {
    if p !in t then Absent(Missing(t, p))
    else if HasKids(t, p) then Inner
    else if t[p].typ == SEQUENCE then IsList
    else Value(t[p].scalar)
  }

  /** A value that was written is read back, and every other leaf reads as before unless the new path goes
      through it. */
  lemma GetAfterSet(c: Conversions, t: Tree, p: Path, text: string, q: Path)
    requires IsTree(t) && Components(p) && SetValue(c, t, p, text).outcome == Done && IsLeaf(t, q) && q != p
    ensures var w := SetValue(c, t, p, text).tree;
            IsTree(w) && Get(w, p) == Value(text) && (Get(w, q) == Get(t, q) <==> !(q < p))
  {
    hide Get, Grow, Leaves, HasKids, AssignScalar, Components;
    var w := SetValue(c, t, p, text).tree;
    NoKidsOutside(t, p);
    SetValueIsTree(c, t, p, text);
    SetLeaves(c, t, p, text);
    GetLeaf(t, q);
    GetLeaf(w, q);
    WrittenType(c, t, p, text);
    if p == [] {
      GetRoot(c, t, text);
    } else {
      GetLeaf(w, p);
    }
  }

  lemma GetLeaf(t: Tree, q: Path)
    requires IsTree(t)
    ensures q in Leaves(t) <==> IsLeaf(t, q)
    ensures q in Leaves(t) ==>
              q in t && Leaves(t)[q] == t[q] && Get(t, q) == if t[q].typ == SEQUENCE then IsList else Value(t[q].scalar)
    ensures q in t && q != [] && q !in Leaves(t) ==> Get(t, q) == Inner
  {
  }

  // Inference never yields a list type.
  lemma WrittenType(c: Conversions, t: Tree, p: Path, text: string)
    requires [] in t && SetValue(c, t, p, text).outcome == Done
    ensures p in SetValue(c, t, p, text).tree && SetValue(c, t, p, text).tree[p].typ != SEQUENCE
  {
  }

  lemma GetRoot(c: Conversions, t: Tree, text: string)
    requires IsTree(t) && SetValue(c, t, [], text).outcome == Done
    ensures IsTree(SetValue(c, t, [], text).tree) && Get(SetValue(c, t, [], text).tree, []) == Value(text)
  {
    WrittenType(c, t, [], text);
    SetValueIsTree(c, t, [], text);
    var w := SetValue(c, t, [], text).tree;
    assert forall k :: Child([], k) in w <==> Child([], k) in t;
  }

  /** What the host tree sets is what the configuration reads. */
  lemma HostWins(s: Config, p: Path)
    requires Consistent(s) && IsLeaf(s.host, p) && IsScalar(s.host[p].typ)
    ensures p in s.root && (Get(s.root, p) == Get(s.host, p) <==> s.root[p].typ != SEQUENCE)
  {
    assert p in Leaves(s.host);
  }

  /** Refusal apart, the answer tells whether a host file is known, and no command changes which one that is. */
  lemma AnswerMeans(c: Conversions, s: Config, cmd: Command)
    requires IsTree(s.root) && IsTree(s.host)
    ensures var (s', a) := Step(c, s, cmd);
            && s'.hostFile == s.hostFile
            && (a == Stored <==> !a.Refused? && s.hostFile != "")
            && (a == NoHostFile <==> !a.Refused? && s.hostFile == "")
  {
    hide SetValue, SetList, Erase, IsTree;
  }

  // The leaf p holds this text in the tree, or this list, and other leaves stay unless p goes through them.
  ghost predicate TextTaken(before: Tree, after: Tree, p: Path, text: string) {
    p in after && after[p].scalar == text && after[p].typ != SEQUENCE && !HasKids(before, p)
    && Leaves(after) == Written(Leaves(before), p, after[p])
  }

  ghost predicate ListTaken(before: Tree, after: Tree, p: Path, values: seq<string>) {
    p in after && after[p].list == values && after[p].typ == SEQUENCE && !HasKids(before, p)
    && Leaves(after) == Written(Leaves(before), p, after[p])
  }

  /** A write that is not refused is taken by both trees, and the configuration then reads it. */
  lemma BothTake(c: Conversions, s: Config, cmd: Command)
    requires Consistent(s) && !Step(c, s, cmd).1.Refused? && Split(cmd.path) != []
    ensures var (s', p) := (Step(c, s, cmd).0, Split(cmd.path));
            && IsTree(s'.root)
            && (cmd.PutScalar? ==>
                  TextTaken(s.root, s'.root, p, cmd.text) && TextTaken(s.host, s'.host, p, cmd.text)
                  && Get(s'.root, p) == Value(cmd.text))
            && (cmd.PutList? ==>
                  ListTaken(s.root, s'.root, p, cmd.values) && ListTaken(s.host, s'.host, p, cmd.values)
                  && Get(s'.root, p) == IsList)
  {
    hide IsTree, Leaves, HasKids, Get, Grow, Covered;
    StepIsTree(c, s, cmd);
    CoveredKids(s, Split(cmd.path));
    RootPath(s.root);
    RootPath(s.host);
    NoKidsOutside(s.root, Split(cmd.path));
    NoKidsOutside(s.host, Split(cmd.path));
    match cmd
    case PutScalar(path, text) =>
      TakesText(c, s.root, Split(path), text);
      TakesText(c, s.host, Split(path), text);
    case PutList(path, values) =>
      TakesList(s.root, Split(path), values);
      TakesList(s.host, Split(path), values);
    case Remove(_) =>
  }

  lemma TakesText(c: Conversions, t: Tree, p: Path, text: string)
    requires IsTree(t) && p != [] && Components(p) && SetValue(c, t, p, text).outcome == Done
    ensures var w := SetValue(c, t, p, text).tree;
            TextTaken(t, w, p, text) && IsTree(w) && Get(w, p) == Value(text)
  {
    hide Get, Grow, Leaves, HasKids, IsTree, AssignScalar, Components;
    NoKidsOutside(t, p);
    RootPath(t);
    SetValueIsTree(c, t, p, text);
    SetLeaves(c, t, p, text);
    WrittenType(c, t, p, text);
    GetLeaf(SetValue(c, t, p, text).tree, p);
  }

  lemma TakesList(t: Tree, p: Path, vs: seq<string>)
    requires IsTree(t) && p != [] && Components(p) && !HasKids(t, p)
    ensures var w := SetList(t, p, vs).tree;
            ListTaken(t, w, p, vs) && IsTree(w) && Get(w, p) == IsList
  {
    hide Get, Leaves, IsTree;
    ListLeaves(t, p, vs);
    SetListNodes(t, p, vs, p);
    GetLeaf(SetList(t, p, vs).tree, p);
  }

  /** Why a value cannot be read: the first part of the path that is missing, children, or a list. */
  lemma GetTells(t: Tree, p: Path)
    requires IsTree(t)
    ensures var g := Get(t, p);
            && (g.Absent? <==> p !in t)
            && (g.Absent? ==> g.missing <= p && g.missing !in t && forall q :: q < g.missing ==> q in t)
            && (g == Inner <==> exists q :: q in t && p < q)
            && (p != [] ==> (g.Value? <==> p in Leaves(t) && t[p].typ != SEQUENCE) && (g == IsList <==> p in Leaves(t) && t[p].typ == SEQUENCE))
            && (g.Value? ==> p in t && g.text == t[p].scalar)
  {
    NoKidsOutside(t, p);
    KidsBelow(t, p);
    if p !in t {
      var m := Missing(t, p);
      forall q | q < m
        ensures q in t
      {
        PrefixIn(t, q, Parent(m));
      }
    }
  }

  // ---------------------------------------------------------------- what can go wrong

  const PAIR: Tree := map[[] := Payload(MAP, "", []), ["a"] := Payload(UINT32, "1", [])]

  lemma PairIsTree()
    ensures IsTree(PAIR) && Leaves(PAIR) == map[["a"] := Payload(UINT32, "1", [])]
    ensures Split("/a") == ["a"]
  {
    assert Parent(["a"]) == [] && Last(["a"]) == "a";
    assert forall k :: Child(["a"], k) !in PAIR;
    assert Child([], "a") in PAIR;
    assert Text(["a"]) == "/a" by { assert Text([]) == ""; }
    SplitText(["a"]);
  }

  /** set_uint with a value above INT_MAX throws after the effective tree took the new text: the host tree
      keeps the old one. */
  lemma LargeUnsignedBreaks(c: Conversions, text: string)
    requires c.toUint(text).Some? && c.toInt(text) == None && text != "1"
    ensures var s := Config(PAIR, PAIR, "host.yaml");
            && Consistent(s)
            && Step(c, s, PutScalar("/a", text)).1 == Refused(BadInference)
            && !Covered(Step(c, s, PutScalar("/a", text)).0.host, Step(c, s, PutScalar("/a", text)).0.root)
  {
    hide Leaves;
    PairIsTree();
    var s := Config(PAIR, PAIR, "host.yaml");
    CoveredLeaves(PAIR, PAIR);
    GrowExisting(PAIR, ["a"]);
    assert ["a"] in PAIR && !HasKids(PAIR, ["a"]);
    var w := SetValue(c, PAIR, ["a"], text).tree;
    SetLeaves(c, PAIR, ["a"], text);
    CoveredLeaves(PAIR, w);
    assert Leaves(PAIR)[["a"]].scalar != Leaves(w)[["a"]].scalar;
  }

  const INNER: Tree := map[[] := Payload(MAP, "", []), ["a"] := Payload(MAP, "", []), ["a", "b"] := Payload(UINT32, "1", [])]
  const OVER: Tree := map[[] := Payload(MAP, "", []), ["a"] := Payload(SEQUENCE, "", ["1"])]
  const EMPTYNODE: Tree := map[[] := Payload(MAP, "", []), ["a"] := FRESH]

  /** A host document with a list over a node with children of the configuration loads; erasing the list is then
      refused after the host tree lost it. */
  lemma HalfErased(c: Conversions)
    ensures IsTree(INNER) && IsTree(OVER) && Merge(c, INNER, OVER) == Update(INNER, Done)
    ensures var s := Config(INNER, OVER, "host.yaml");
            && Consistent(s)
            && Step(c, s, Remove("/a")) == (s.(host := Prune(OVER, ["a"])), Refused(NonLeaf))
            && Prune(OVER, ["a"]) != OVER
  {
    ExamplesAreTrees();
    MergeOver(c, INNER);
    EraseIsTree(OVER, ["a"]);
    EraseChanges(OVER, ["a"]);
  }

  /** A host document with a list of numbers over an empty node of the configuration loads; writing a plain text
      there is then refused by the host tree alone, after both trees took the text. */
  lemma HostAloneThrows(c: Conversions, text: string)
    requires c.toUint("1").Some? && FitsInt(c, text) && text != ""
    ensures IsTree(EMPTYNODE) && IsTree(OVER) && Merge(c, EMPTYNODE, OVER) == Update(EMPTYNODE, Done)
    ensures var s := Config(EMPTYNODE, OVER, "host.yaml");
            && Consistent(s) && HostThrows(c, s, ["a"], text)
            && Step(c, s, PutScalar("/a", text)).1 == Refused(BadInference)
            && Step(c, s, PutScalar("/a", text)).0 != s
  {
    hide IsTree, Covered, SetValue, Step, Merge;
    ExamplesAreTrees();
    MergeOver(c, EMPTYNODE);
    SetIsAtomic(c, Config(EMPTYNODE, OVER, "host.yaml"), "/a", text);
  }

  lemma MergeOver(c: Conversions, t: Tree)
    requires IsTree(t) && IsTree(OVER) && OVER.Keys <= t.Keys && !IsScalar(t[[]].typ) && !IsScalar(t[["a"]].typ)
    ensures Merge(c, t, OVER) == Update(t, Done)
  {
    hide Merge, Overlay;
    OverMergeable(c, t);
    assert Accepts(c, t, OVER);
    MergeIsOverlay(c, t, OVER);
    OverlayNothing(c, t);
  }

  lemma OverMergeable(c: Conversions, t: Tree)
    requires IsTree(OVER)
    ensures Mergeable(t, OVER)
  {
    assert Last(["a"]) == "a";
  }

  lemma OverlayNothing(c: Conversions, t: Tree)
    requires OVER.Keys <= t.Keys && !IsScalar(t[[]].typ) && !IsScalar(t[["a"]].typ)
    ensures Overlay(c, t, OVER) == t
  {
    var o := Overlay(c, t, OVER);
    forall p
      ensures p in o <==> p in t
      ensures p in t ==> o[p] == t[p]
    {
    }
  }

  lemma ExamplesAreTrees()
    ensures IsTree(INNER) && IsTree(OVER) && IsTree(EMPTYNODE) && Split("/a") == ["a"]
    ensures HasKids(INNER, ["a"]) && !HasKids(OVER, ["a"]) && !HasKids(EMPTYNODE, ["a"])
    ensures Covered(OVER, INNER) && Covered(OVER, EMPTYNODE)
  {
    PairIsTree();
    InnerIsTree();
    assert Parent(["a"]) == [] && Last(["a"]) == "a";
    assert forall k :: Child(["a"], k) !in OVER && Child(["a"], k) !in EMPTYNODE;
    ListsOnly(OVER, INNER);
    ListsOnly(OVER, EMPTYNODE);
  }

  lemma ExampleKeys()
    ensures Parent(["a"]) == [] && Last(["a"]) == "a" && SlashFree("a")
    ensures Parent(["a", "b"]) == ["a"] && Last(["a", "b"]) == "b" && SlashFree("b")
    ensures Child(["a"], "b") == ["a", "b"]
  {
  }

  lemma InnerIsTree()
    ensures IsTree(INNER) && HasKids(INNER, ["a"])
  {
    ExampleKeys();
    hide Parent, Last, Child, SlashFree;
    assert forall p :: p in INNER && p != [] ==> p == ["a"] || p == ["a", "b"];
  }

  // A host tree without scalars only has to be covered path by path.
  lemma ListsOnly(host: Tree, root: Tree)
    requires host.Keys <= root.Keys && forall p :: p in host ==> !IsScalar(host[p].typ)
    ensures Covered(host, root)
  {
  }
}
