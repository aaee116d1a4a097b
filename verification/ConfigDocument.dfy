/** Reading a parsed YAML document into a configuration tree (read_config_doc). */
module ConfigDocument {
  import opened Basics
  import opened ConfigPath
  import opened ConfigTree
  import opened ConfigNode
  import opened ConfigMerge
  import opened ConfigQuery

  datatype Tag = NoTag | TcpPort | UdpPort | Url | Frame

  /** A parsed document. The items of a sequence are scalars; mappings keep the document's order. */
  datatype Doc =
    | Null
    | Scalar(text: string, tag: Tag)
    | Sequence(items: seq<string>)
    | Mapping(entries: seq<Entry>)

  datatype Entry = Entry(key: string, value: Doc)

  // ---------------------------------------------------------------- the operation

  function KeyPath(key: string): (p: Path)
    ensures forall k | k in p :: SlashFree(k)
  {
    if DELIM in key then Split(key) else [key]
  }

  // No key consists of slashes only: the source has no component to insert then.
  ghost predicate KeysOk(es: seq<Entry>) {
    forall i :: 0 <= i < |es| ==> KeyPath(es[i].key) != [] && (es[i].value.Mapping? ==> KeysOk(es[i].value.entries))
  }

  function ScalarText(d: Doc): string {
    if d.Scalar? then d.text else ""
  }

  // The node constructor; it throws when the scalar's type cannot be inferred.
  function NewPayload(c: Conversions, d: Doc): Option<Payload> {
    match d
    case Null => Some(FRESH)
    case Sequence(items) => Some(Payload(SEQUENCE, "", items))
    case Mapping(_) => Some(Payload(MAP, "", []))
    case Scalar(text, _) =>
      match Infer(c, UNKNOWN, text, [])
      case None => None
      case Some(t) => Some(Payload(t, text, []))
  }

  // The checks on tagged scalars; text is what the node holds.
  function CheckTag(c: Conversions, text: string, d: Doc): Outcome
    requires d.Scalar?
  {
    match d.tag
    case TcpPort => CheckPort(c, text)
    case UdpPort => CheckPort(c, text)
    case Url => if c.isUrl(d.text) then Done else Failed(BadUrl)
    case Frame => if c.isFrame(d.text) then Done else Failed(BadFrame)
    case NoTag => Done
  }

  function CheckPort(c: Conversions, text: string): Outcome {
    match c.toUint(text)
    case None => Failed(BadPort)
    case Some(p) => if p <= 0 || p >= 65535 then Failed(BadPort) else Done
  }

  ghost function ReadDoc(c: Conversions, t: Tree, at: Path, d: Doc): (r: Update)
    requires [] in t && at in t && (d.Mapping? ==> KeysOk(d.entries))
    ensures t.Keys <= r.tree.Keys
    decreases d, 1
  {
    match d
    case Mapping(es) => ReadEntries(c, t, at, es)
    case Scalar(_, _) => Update(t, CheckTag(c, t[at].scalar, d))
    case Null => Update(t, Done)
    case Sequence(_) => Update(t, Done)
  }

  ghost function ReadEntries(c: Conversions, t: Tree, at: Path, es: seq<Entry>): (r: Update)
    requires [] in t && at in t && KeysOk(es)
    ensures t.Keys <= r.tree.Keys
    decreases es, 0
  {
    if es == [] then Update(t, Done)
    else
      var r := ReadEntry(c, t, at, es[0]);
      if r.outcome == Done then ReadEntries(c, r.tree, at, es[1..]) else r
  }

  ghost function ReadEntry(c: Conversions, t: Tree, at: Path, e: Entry): (r: Update)
    requires [] in t && at in t && KeysOk([e])
    ensures t.Keys <= r.tree.Keys
    decreases e, 2
  {
    assert [e][0] == e;
    var p := at + KeyPath(e.key);
    if p in t then
      if IsScalar(t[p].typ) && !e.value.Scalar? then Update(t, Failed(ScalarOverwritten))
      else ScalarAt(c, t, p, ScalarText(e.value))
    else
      GrowKeys(t, Parent(p));
      var g := Grow(t, Parent(p));
      match NewPayload(c, e.value)
      case None => Update(g, Failed(BadInference))
      case Some(d) => ReadDoc(c, AddChild(g, p, d), p, e.value)
  }

  lemma {:induction false} GrowKeys(t: Tree, p: Path)
    requires [] in t
    ensures t.Keys <= Grow(t, p).Keys
    decreases |p|
  {
    if p != [] {
      GrowKeys(t, Parent(p));
    }
  }

  /** An entry whose key resolves to an existing node adds no node: a mapping or a sequence under such a key is
      lost. It is refused when it would replace a scalar; otherwise it overwrites that one node with the text of
      the value, the empty one unless the value is a scalar, and retypes it. A node with children thereby becomes
      a scalar, unless it held an empty list. */
  lemma ExistingKeyOverwrites(c: Conversions, t: Tree, at: Path, e: Entry)
    requires IsTree(t) && ScalarsAreLeaves(t) && [] in t && at in t && KeysOk([e]) && at + KeyPath(e.key) in t
    ensures var p, r := at + KeyPath(e.key), ReadEntry(c, t, at, e);
            && (r.outcome == Failed(ScalarOverwritten) <==> IsScalar(t[p].typ) && !e.value.Scalar?)
            && (r.outcome == Failed(ScalarOverwritten) ==> r.tree == t)
            && (r.outcome != Failed(ScalarOverwritten) ==>
                  && r.tree == t[p := r.tree[p]] && r.tree[p].scalar == ScalarText(e.value)
                  && (r.outcome == Done <==> !InferenceStops(c, t, p, ScalarText(e.value))))
            && (r.outcome == Done ==>
                  (ScalarsAreLeaves(r.tree) <==> !HasKids(t, p) || (t[p].typ == SEQUENCE && t[p].list == [])))
  {
    var p, r := at + KeyPath(e.key), ReadEntry(c, t, at, e);
    if r.outcome == Done {
      assert forall q :: HasKids(r.tree, q) <==> HasKids(t, q);
      assert IsScalar(r.tree[p].typ) <==> !(t[p].typ == SEQUENCE && t[p].list == []);
      if HasKids(t, p) && IsScalar(r.tree[p].typ) {
        assert !ScalarsAreLeaves(r.tree);
      }
    }
  }

  // Whatever the document, the result is a tree.
  lemma {:induction false} ReadDocIsTree(c: Conversions, t: Tree, at: Path, d: Doc)
    requires IsTree(t) && [] in t && at in t && (d.Mapping? ==> KeysOk(d.entries))
    ensures IsTree(ReadDoc(c, t, at, d).tree)
    decreases d, 1
  {
    if d.Mapping? {
      ReadEntriesIsTree(c, t, at, d.entries);
    }
  }

  lemma {:induction false} ReadEntriesIsTree(c: Conversions, t: Tree, at: Path, es: seq<Entry>)
    requires IsTree(t) && [] in t && at in t && KeysOk(es)
    ensures IsTree(ReadEntries(c, t, at, es).tree)
    decreases es, 0
  {
    if es != [] {
      KeysOkParts(es);
      ReadEntryIsTree(c, t, at, es[0]);
      var r := ReadEntry(c, t, at, es[0]);
      if r.outcome == Done {
        RootPath(r.tree);
        ReadEntriesIsTree(c, r.tree, at, es[1..]);
      }
    }
  }

  lemma {:induction false} ReadEntryIsTree(c: Conversions, t: Tree, at: Path, e: Entry)
    requires IsTree(t) && [] in t && at in t && KeysOk([e])
    ensures IsTree(ReadEntry(c, t, at, e).tree)
    decreases e, 2
  {
    hide Grow, KeyPath, Infer;
    assert [e][0] == e;
    var p := at + KeyPath(e.key);
    if p !in t {
      PathSlashFree(t, at, e.key);
      assert forall k :: k in Parent(p) ==> k in p;
      GrowIsTree(t, Parent(p));
      if NewPayload(c, e.value) != None {
        var d := NewPayload(c, e.value).value;
        NewNode(t, p, d);
        RootPath(AddChild(Grow(t, Parent(p)), p, d));
        ReadDocIsTree(c, AddChild(Grow(t, Parent(p)), p, d), p, e.value);
      }
    }
  }

  lemma GrowIsTree(t: Tree, p: Path)
    requires IsTree(t) && forall k | k in p :: SlashFree(k)
    ensures IsTree(Grow(t, p))
  {
    GrowIsGrown(t, p);
    GrownIsTree(t, p);
  }

  // ---------------------------------------------------------------- the flattened document

  /** One entry of the flattened document, in reading order: its full path, the contents its node gets,
      and whether it is a leaf of the document. */
  datatype Item = Item(path: Path, data: Payload, leaf: bool)

  function Flat(c: Conversions, at: Path, es: seq<Entry>): seq<Item>
    decreases es, 0
  {
    if es == [] then [] else FlatEntry(c, at, es[0]) + Flat(c, at, es[1..])
  }

  function FlatEntry(c: Conversions, at: Path, e: Entry): seq<Item>
    decreases e, 1
  {
    var p := at + KeyPath(e.key);
    var d := if NewPayload(c, e.value) == None then FRESH else NewPayload(c, e.value).value;
    [Item(p, d, !HasEntries(e.value))] + if e.value.Mapping? then Flat(c, p, e.value.entries) else []
  }

  predicate HasEntries(d: Doc) {
    d.Mapping? && d.entries != []
  }

  // Every scalar of the document has an inferable type and passes the check of its tag.
  predicate ScalarsOk(c: Conversions, es: seq<Entry>) {
    forall i :: 0 <= i < |es| ==> ScalarOk(c, es[i].value)
  }

  predicate ScalarOk(c: Conversions, d: Doc) {
    match d
    case Scalar(text, tag) => FitsInt(c, text) && TagOk(c, text, tag)
    case Mapping(es) => ScalarsOk(c, es)
    case Null => true
    case Sequence(_) => true
  }

  // A port is a number from 1 to 65534; urls and frames have their form.
  predicate TagOk(c: Conversions, text: string, tag: Tag) {
    && (tag == TcpPort || tag == UdpPort ==> c.toUint(text).Some? && 1 <= c.toUint(text).value <= 65534)
    && (tag == Url ==> c.isUrl(text))
    && (tag == Frame ==> c.isFrame(text))
  }

  // What the reader checks is what the document has to satisfy.
  lemma ScalarChecked(c: Conversions, d: Doc)
    ensures NewPayload(c, d) == None <==> d.Scalar? && !FitsInt(c, d.text)
    ensures d.Scalar? ==> (CheckTag(c, d.text, d) == Done <==> TagOk(c, d.text, d.tag))
    ensures d.Scalar? && !TagOk(c, d.text, d.tag) ==>
              CheckTag(c, d.text, d) == Failed(if d.tag == Url then BadUrl else if d.tag == Frame then BadFrame else BadPort)
  {
  }

  /** A key with slashes is split, any other key is one component; the empty key is one, too. */
  lemma KeyPathMeans(key: string)
    ensures KeyPath(key) == if key == "" then [""] else Split(key)
  {
    if DELIM !in key {
      SplitLaws("", "", key);
    }
  }

  /** No key resolves to a node that an earlier entry made, and no leaf is a prefix of a later entry:
      the leaf paths are prefix-free and nothing is read twice. */
  ghost predicate Clean(xs: seq<Item>) {
    forall i, j :: 0 <= i < j < |xs| ==>
      !(xs[j].path <= xs[i].path) && (xs[i].leaf ==> !(xs[i].path <= xs[j].path))
  }

  ghost function LeafMap(xs: seq<Item>): map<Path, Payload> {
    if xs == [] then map[]
    else (if xs[0].leaf then map[xs[0].path := xs[0].data] else map[]) + LeafMap(xs[1..])
  }

  // ---------------------------------------------------------------- what reading makes of it

  // None of the items exists yet, all lie below at, and no other leaf is in their way.
  ghost predicate Fits(t: Tree, at: Path, xs: seq<Item>) {
    forall i :: 0 <= i < |xs| ==>
      at < xs[i].path && xs[i].path !in t && forall q :: IsLeaf(t, q) && q != at ==> !(q <= xs[i].path)
  }

  ghost predicate Above(xs: seq<Item>, q: Path) {
    exists i :: 0 <= i < |xs| && q <= xs[i].path
  }

  /** r is t with the items planted below at: the items' paths are there, the leaves are those of t
      (but for at, which has children now) and those of the items, and every scalar is an old one or
      one of the items' leaves; old nodes stay or become maps, and the inner items are as the document says. */
  ghost predicate Planted(t: Tree, at: Path, xs: seq<Item>, r: Tree) {
    && IsTree(r) && at in r
    && (forall q :: q in r <==> q in t || Above(xs, q))
    && Leaves(r) == (Leaves(t) - if xs == [] then {} else {at}) + LeafMap(xs)
    && (forall q :: q in r && IsScalar(r[q].typ) ==> (q in t && r[q] == t[q]) || q in LeafMap(xs))
    && (forall q :: q in t ==> r[q] == t[q] || r[q] == t[q].(typ := MAP))
    && (forall i :: 0 <= i < |xs| && !xs[i].leaf ==> InnerItem(xs[i], r))
  }

  // A mapping with entries is a map node with nothing else in it.
  ghost predicate InnerItem(x: Item, r: Tree) {
    x.path in r && r[x.path] == x.data && x.data.typ == MAP
  }

  lemma {:induction false} LeafMapItem(xs: seq<Item>, q: Path)
    ensures q in LeafMap(xs) ==> exists i :: 0 <= i < |xs| && xs[i].leaf && xs[i].path == q && xs[i].data == LeafMap(xs)[q]
  {
    if xs != [] && q in LeafMap(xs) {
      if q in LeafMap(xs[1..]) {
        LeafMapItem(xs[1..], q);
        var i :| 0 <= i < |xs| - 1 && xs[1..][i].leaf && xs[1..][i].path == q && xs[1..][i].data == LeafMap(xs[1..])[q];
        assert xs[i + 1] == xs[1..][i];
      } else {
        assert xs[0].leaf && xs[0].path == q;
      }
    }
  }

  lemma {:induction false} LeafMapAppend(xs: seq<Item>, ys: seq<Item>)
    ensures LeafMap(xs + ys) == LeafMap(xs) + LeafMap(ys)
  {
    if xs == [] {
      assert xs + ys == ys;
    } else {
      TailOfAppend(xs, ys);
      LeafMapAppend(xs[1..], ys);
      var first: map<Path, Payload> := if xs[0].leaf then map[xs[0].path := xs[0].data] else map[];
      assert first + (LeafMap(xs[1..]) + LeafMap(ys)) == first + LeafMap(xs[1..]) + LeafMap(ys);
    }
  }

  lemma AboveAppend(xs: seq<Item>, ys: seq<Item>, q: Path)
    ensures Above(xs + ys, q) <==> Above(xs, q) || Above(ys, q)
  {
    var zs := xs + ys;
    if Above(xs, q) {
      var i :| 0 <= i < |xs| && q <= xs[i].path;
      assert zs[i] == xs[i];
    }
    if Above(ys, q) {
      var i :| 0 <= i < |ys| && q <= ys[i].path;
      assert zs[|xs| + i] == ys[i];
    }
  }

  lemma CleanParts(xs: seq<Item>, ys: seq<Item>)
    requires Clean(xs + ys)
    ensures Clean(xs) && Clean(ys)
    ensures forall i, j :: 0 <= i < |xs| && 0 <= j < |ys| ==>
              !(ys[j].path <= xs[i].path) && (xs[i].leaf ==> !(xs[i].path <= ys[j].path))
  {
    var zs := xs + ys;
    assert forall i :: 0 <= i < |xs| ==> zs[i] == xs[i];
    assert forall j :: 0 <= j < |ys| ==> zs[|xs| + j] == ys[j];
  }

  lemma FitsParts(t: Tree, at: Path, xs: seq<Item>, ys: seq<Item>)
    requires Fits(t, at, xs + ys)
    ensures Fits(t, at, xs) && Fits(t, at, ys)
  {
    var zs := xs + ys;
    assert forall i :: 0 <= i < |xs| ==> zs[i] == xs[i];
    assert forall j :: 0 <= j < |ys| ==> zs[|xs| + j] == ys[j];
  }

  // The later items still fit after the earlier ones were planted.
  lemma FitsRest(t: Tree, at: Path, xs: seq<Item>, ys: seq<Item>, r: Tree)
    requires Fits(t, at, xs + ys) && Clean(xs + ys) && Planted(t, at, xs, r)
    ensures Fits(r, at, ys)
  {
    FitsParts(t, at, xs, ys);
    CleanParts(xs, ys);
    forall j | 0 <= j < |ys|
      ensures ys[j].path !in r
      ensures forall q :: IsLeaf(r, q) && q != at ==> !(q <= ys[j].path)
    {
      forall q | IsLeaf(r, q) && q != at
        ensures !(q <= ys[j].path)
      {
        assert q in Leaves(r);
        LeafMapItem(xs, q);
      }
    }
  }

  lemma LeavesBoth(A: map<Path, Payload>, B: map<Path, Payload>, C: map<Path, Payload>, at: Path, ys: seq<Item>)
    requires at !in B
    ensures ((A - {at}) + B) - (if ys == [] then {} else {at}) + C == (A - {at}) + (B + C)
  {
  }

  lemma PlantedBoth(t: Tree, at: Path, xs: seq<Item>, r: Tree, ys: seq<Item>, u: Tree)
    requires xs != [] && Fits(t, at, xs) && Planted(t, at, xs, r) && Planted(r, at, ys, u)
    ensures Planted(t, at, xs + ys, u)
  {
    hide Leaves, IsTree, LeafMap, Above;
    LeafMapAppend(xs, ys);
    forall q
      ensures Above(xs + ys, q) <==> Above(xs, q) || Above(ys, q)
    {
      AboveAppend(xs, ys, q);
    }
    LeafMapItem(xs, at);
    LeavesBoth(Leaves(t), LeafMap(xs), LeafMap(ys), at, ys);
    forall i | 0 <= i < |xs + ys| && !(xs + ys)[i].leaf
      ensures InnerItem((xs + ys)[i], u)
    {
      if i < |xs| {
        assert InnerItem(xs[i], r);
      } else {
        assert InnerItem(ys[i - |xs|], u);
      }
    }
  }

  lemma PlantedNothing(t: Tree, at: Path)
    requires IsTree(t) && at in t
    ensures Planted(t, at, [], t)
  {
    assert Leaves(t) - {} == Leaves(t);
  }

  // The node of one entry is made: its parents exist and it holds d.
  lemma PlantOne(t: Tree, at: Path, x: Item)
    requires IsTree(t) && at in t && Fits(t, at, [x]) && x.path != [] && forall k | k in x.path :: SlashFree(k)
    ensures [] in t && Parent(x.path) in Grow(t, Parent(x.path))
    ensures var w := AddChild(Grow(t, Parent(x.path)), x.path, x.data);
            && IsTree(w) && x.path in w && w[x.path] == x.data
            && (forall q :: q in w <==> q in t || q <= x.path)
            && Leaves(w) == (Leaves(t) - {at})[x.path := x.data]
            && (forall q :: q in w && IsScalar(w[q].typ) ==> (q in t && w[q] == t[q]) || q == x.path)
            && (forall q :: q in t ==> w[q] == t[q] || w[q] == t[q].(typ := MAP))
  {
    hide Grow, IsTree;
    assert [x][0] == x;
    assert forall q :: q in Leaves(t) && q != at ==> IsLeaf(t, q);
    WrittenBelow(Leaves(t), at, x.path, x.data);
    hide Leaves, Written;
    NewNode(t, x.path, x.data);
    RootPath(t);
  }

  lemma WrittenBelow(leaves: map<Path, Payload>, at: Path, p: Path, d: Payload)
    requires at < p && forall q :: q in leaves && q != at ==> !(q <= p)
    ensures Written(leaves, p, d) == (leaves - {at})[p := d]
  {
  }

  lemma KeysOkParts(es: seq<Entry>)
    requires KeysOk(es) && es != []
    ensures KeysOk([es[0]]) && KeysOk(es[1..])
    ensures KeyPath(es[0].key) != [] && (es[0].value.Mapping? ==> KeysOk(es[0].value.entries))
  {
    assert forall i :: 0 <= i < |es| - 1 ==> es[1..][i] == es[i + 1];
  }

  lemma ScalarsOkParts(c: Conversions, es: seq<Entry>)
    requires es != []
    ensures ScalarsOk(c, es) <==> ScalarOk(c, es[0].value) && ScalarsOk(c, es[1..])
  {
    assert forall i :: 0 <= i < |es| - 1 ==> es[1..][i] == es[i + 1];
  }

  lemma PathSlashFree(t: Tree, at: Path, key: string)
    requires IsTree(t) && at in t
    ensures forall k | k in at + KeyPath(key) :: SlashFree(k)
  {
    TreeSlashFree(t, at);
  }

  lemma FlatNonEmpty(c: Conversions, at: Path, e: Entry)
    ensures FlatEntry(c, at, e) != [] && FlatEntry(c, at, e)[0].path == at + KeyPath(e.key)
  {
  }

  // What follows from planting the head of an entry and then the entries of its mapping.
  lemma PlantedHead(t: Tree, at: Path, x: Item, w: Tree, ys: seq<Item>, r: Tree)
    requires IsTree(w) && Fits(t, at, [x] + ys) && Clean([x] + ys) && at in t
    requires x.path in w && w[x.path] == x.data
    requires forall q :: q in w <==> q in t || q <= x.path
    requires Leaves(w) == (Leaves(t) - {at})[x.path := x.data]
    requires forall q :: q in w && IsScalar(w[q].typ) ==> (q in t && w[q] == t[q]) || q == x.path
    requires forall q :: q in t ==> w[q] == t[q] || w[q] == t[q].(typ := MAP)
    requires Planted(w, x.path, ys, r) && x.leaf == (ys == []) && (!x.leaf ==> x.data.typ == MAP)
    ensures Planted(t, at, [x] + ys, r)
  {
    hide IsTree, Leaves, LeafMap, Fits, Clean, InnerItem, Above, KeysOk;
    InnerHead(x, ys, w, r);
    FitsHeadNew(t, at, x, ys);
    AboveHead(x, ys);
    LeafInTree(t, x.path);
    LeavesHead(Leaves(t), at, x, ys);
    LeafMapHead(x, ys);
  }

  lemma InnerHead(x: Item, ys: seq<Item>, w: Tree, r: Tree)
    requires forall i :: 0 <= i < |ys| && !ys[i].leaf ==> InnerItem(ys[i], r)
    requires x.path in w && w[x.path] == x.data && x.path in r && (!x.leaf ==> x.data.typ == MAP)
    requires r[x.path] == w[x.path] || r[x.path] == w[x.path].(typ := MAP)
    ensures forall i :: 0 <= i < |[x] + ys| && !([x] + ys)[i].leaf ==> InnerItem(([x] + ys)[i], r)
  {
    forall i | 0 <= i < |[x] + ys| && !([x] + ys)[i].leaf
      ensures InnerItem(([x] + ys)[i], r)
    {
      assert i > 0 ==> ([x] + ys)[i] == ys[i - 1];
    }
  }

  lemma AboveHead(x: Item, ys: seq<Item>)
    ensures forall q :: Above([x] + ys, q) <==> q <= x.path || Above(ys, q)
  {
    forall q
      ensures Above([x] + ys, q) <==> q <= x.path || Above(ys, q)
    {
      AboveAppend([x], ys, q);
      assert [x][0] == x;
    }
  }

  lemma FitsHeadNew(t: Tree, at: Path, x: Item, ys: seq<Item>)
    requires Fits(t, at, [x] + ys)
    ensures x.path !in t && at < x.path
  {
    assert ([x] + ys)[0] == x;
  }

  lemma LeafMapHead(x: Item, ys: seq<Item>)
    ensures LeafMap([x] + ys) == (if x.leaf then map[x.path := x.data] else map[]) + LeafMap(ys)
  {
    TailOfAppend([x], ys);
  }

  lemma LeavesHead(L: map<Path, Payload>, at: Path, x: Item, ys: seq<Item>)
    requires x.path !in L && x.leaf == (ys == [])
    ensures ((L - {at})[x.path := x.data] - (if ys == [] then {} else {x.path})) + LeafMap(ys)
            == (L - {at}) + LeafMap([x] + ys)
  {
    LeafMapHead(x, ys);
    if ys == [] {
      assert LeafMap(ys) == map[];
    }
  }

  lemma LeafInTree(t: Tree, p: Path)
    ensures p in Leaves(t) ==> p in t
  {
  }

  lemma FitsHead(t: Tree, at: Path, x: Item, w: Tree, ys: seq<Item>)
    requires Fits(t, at, [x] + ys) && Clean([x] + ys)
    requires forall i :: 0 <= i < |ys| ==> x.path < ys[i].path
    requires forall q :: q in w <==> q in t || q <= x.path
    requires Leaves(w) == (Leaves(t) - {at})[x.path := x.data]
    ensures Fits(w, x.path, ys)
  {
    FitsParts(t, at, [x], ys);
    CleanParts([x], ys);
    assert [x][0] == x;
    forall i, q | 0 <= i < |ys| && IsLeaf(w, q) && q != x.path
      ensures !(q <= ys[i].path)
    {
      assert q in Leaves(w);
      assert IsLeaf(t, q);
    }
  }

  lemma {:induction false} FlatBelow(c: Conversions, at: Path, es: seq<Entry>)
    requires KeysOk(es)
    ensures forall i :: 0 <= i < |Flat(c, at, es)| ==> at < Flat(c, at, es)[i].path
    ensures es == [] <==> Flat(c, at, es) == []
    decreases es, 0
  {
    if es != [] {
      KeysOkParts(es);
      FlatEntryBelow(c, at, es[0]);
      FlatBelow(c, at, es[1..]);
    }
  }

  lemma {:induction false} FlatEntryBelow(c: Conversions, at: Path, e: Entry)
    requires KeysOk([e])
    ensures forall i :: 0 <= i < |FlatEntry(c, at, e)| ==> at < FlatEntry(c, at, e)[i].path
    decreases e, 1
  {
    assert [e][0] == e;
    var p := at + KeyPath(e.key);
    assert at < p;
    if e.value.Mapping? {
      FlatBelow(c, p, e.value.entries);
      forall i | 0 <= i < |Flat(c, p, e.value.entries)|
        ensures at < Flat(c, p, e.value.entries)[i].path
      {
        assert p < Flat(c, p, e.value.entries)[i].path;
      }
    }
  }

  /** Reading the entries of a clean mapping succeeds exactly when every scalar of it converts and passes
      its check, and then plants exactly the flattened document. */
  lemma {:induction false} ReadEntriesPlants(c: Conversions, t: Tree, at: Path, es: seq<Entry>)
    requires IsTree(t) && [] in t && at in t && KeysOk(es)
    requires Fits(t, at, Flat(c, at, es)) && Clean(Flat(c, at, es))
    ensures var r := ReadEntries(c, t, at, es);
            && (r.outcome == Done <==> ScalarsOk(c, es))
            && (r.outcome == Done ==> Planted(t, at, Flat(c, at, es), r.tree))
    decreases es, 0
  {
    if es == [] {
      PlantedNothing(t, at);
    } else {
      var xs, ys := FlatEntry(c, at, es[0]), Flat(c, at, es[1..]);
      KeysOkParts(es);
      ScalarsOkParts(c, es);
      FitsParts(t, at, xs, ys);
      CleanParts(xs, ys);
      FlatNonEmpty(c, at, es[0]);
      ReadEntryPlants(c, t, at, es[0]);
      var r := ReadEntry(c, t, at, es[0]);
      if r.outcome == Done {
        RootPath(r.tree);
        FitsRest(t, at, xs, ys, r.tree);
        ReadEntriesPlants(c, r.tree, at, es[1..]);
        if ScalarsOk(c, es[1..]) {
          PlantedBoth(t, at, xs, r.tree, ys, ReadEntries(c, r.tree, at, es[1..]).tree);
        }
      }
    }
  }

  lemma {:induction false} ReadEntryPlants(c: Conversions, t: Tree, at: Path, e: Entry)
    requires IsTree(t) && [] in t && at in t && KeysOk([e])
    requires Fits(t, at, FlatEntry(c, at, e)) && Clean(FlatEntry(c, at, e))
    ensures var r := ReadEntry(c, t, at, e);
            && (r.outcome == Done <==> ScalarOk(c, e.value))
            && (r.outcome == Done ==> Planted(t, at, FlatEntry(c, at, e), r.tree))
    decreases e, 1
  {
    hide Fits, Clean, Planted, Leaves, Grow, IsTree, Infer, CheckTag, FitsInt, TagOk;
    ScalarChecked(c, e.value);
    assert [e][0] == e;
    var p := at + KeyPath(e.key);
    var xs := FlatEntry(c, at, e);
    var x, ys := xs[0], xs[1..];
    assert xs == [x] + ys;
    FitsParts(t, at, [x], ys);
    FitsHeadNew(t, at, x, ys);
    if NewPayload(c, e.value) != None {
      PathSlashFree(t, at, e.key);
      PlantOne(t, at, x);
      var w := AddChild(Grow(t, Parent(p)), p, x.data);
      RootPath(w);
      if e.value.Mapping? {
        FlatBelow(c, p, e.value.entries);
        FitsHead(t, at, x, w, ys);
        CleanParts([x], ys);
        ReadEntriesPlants(c, w, p, e.value.entries);
        if ScalarsOk(c, e.value.entries) {
          PlantedHead(t, at, x, w, ys, ReadEntries(c, w, p, e.value.entries).tree);
        }
      } else {
        PlantedNothing(w, p);
        PlantedHead(t, at, x, w, [], w);
        assert xs == [x];
      }
    }
  }

  // ---------------------------------------------------------------- whole documents

  const EMPTY: Tree := map[[] := FRESH]

  predicate ItemTyped(c: Conversions, x: Item) {
    IsScalar(x.data.typ) ==> Infer(c, x.data.typ, x.data.scalar, x.data.list) == Some(x.data.typ)
  }

  lemma {:induction false} FlatTyped(c: Conversions, at: Path, es: seq<Entry>)
    ensures forall i :: 0 <= i < |Flat(c, at, es)| ==> ItemTyped(c, Flat(c, at, es)[i])
    decreases es, 0
  {
    if es != [] {
      FlatEntryTyped(c, at, es[0]);
      FlatTyped(c, at, es[1..]);
    }
  }

  lemma {:induction false} FlatEntryTyped(c: Conversions, at: Path, e: Entry)
    ensures forall i :: 0 <= i < |FlatEntry(c, at, e)| ==> ItemTyped(c, FlatEntry(c, at, e)[i])
    decreases e, 1
  {
    if e.value.Mapping? {
      FlatTyped(c, at + KeyPath(e.key), e.value.entries);
    }
  }

  lemma EmptyTree()
    ensures IsTree(EMPTY) && Leaves(EMPTY) == map[]
  {
  }

  /** Slash keys and nested mappings may mix: when the flattened document is clean, reading it succeeds
      exactly when every scalar converts and passes its check, and the leaf map of the tree is then the
      leaf map of the flattened document. The tree is then fit to be merged, unless a key contains the
      component "root". */
  lemma DocumentLeafMap(c: Conversions, es: seq<Entry>)
    requires KeysOk(es) && Clean(Flat(c, [], es))
    ensures var r := ReadDoc(c, EMPTY, [], Mapping(es));
            && (r.outcome == Done <==> ScalarsOk(c, es))
            && (r.outcome == Done ==>
                  && Leaves(r.tree) == LeafMap(Flat(c, [], es))
                  && Sound(r.tree) && WellTyped(c, r.tree)
                  && (RootFree(r.tree) <==> forall i :: 0 <= i < |Flat(c, [], es)| ==> "root" !in Flat(c, [], es)[i].path))
  {
    hide Flat, Fits, Clean, Planted, Leaves, LeafMap, IsTree, Sound, WellTyped, RootFree, ItemTyped;
    var xs := Flat(c, [], es);
    EmptyTree();
    FlatBelow(c, [], es);
    FitsEmpty(xs);
    ReadEntriesPlants(c, EMPTY, [], es);
    var r := ReadEntries(c, EMPTY, [], es);
    if r.outcome == Done {
      FlatTyped(c, [], es);
      PlantedSound(c, xs, r.tree);
      PlantedRootFree(xs, r.tree);
    }
  }

  /** The document has value d at path p, at whatever level of nesting. */
  ghost predicate Says(es: seq<Entry>, at: Path, p: Path, d: Doc) {
    exists i :: 0 <= i < |es| && EntrySays(es[i], at, p, d)
  }

  ghost predicate EntrySays(e: Entry, at: Path, p: Path, d: Doc) {
    var q := at + KeyPath(e.key);
    (p == q && d == e.value) || (e.value.Mapping? && Says(e.value.entries, q, p, d))
  }

  // What a node holds for a value of the document.
  ghost predicate Holding(x: Payload, d: Doc) {
    match d
    case Null => x == Payload(NONE, "", [])
    case Scalar(text, _) => x.scalar == text && IsScalar(x.typ) && x.list == []
    case Sequence(items) => x == Payload(SEQUENCE, "", items)
    case Mapping(_) => x == Payload(MAP, "", [])
  }

  ghost predicate Itemized(xs: seq<Item>, p: Path, d: Doc) {
    exists i :: 0 <= i < |xs| && xs[i].path == p && Holding(xs[i].data, d) && xs[i].leaf == !HasEntries(d)
  }

  lemma {:induction false} EntryItemized(c: Conversions, at: Path, e: Entry, p: Path, d: Doc)
    requires ScalarOk(c, e.value) && EntrySays(e, at, p, d)
    ensures Itemized(FlatEntry(c, at, e), p, d)
    decreases e, 1
  {
    var q := at + KeyPath(e.key);
    var xs := FlatEntry(c, at, e);
    if p == q && d == e.value {
      assert xs[0].path == p && Holding(xs[0].data, d);
    } else {
      SaysItemized(c, q, e.value.entries, p, d);
      var ys := Flat(c, q, e.value.entries);
      assert xs == [xs[0]] + ys;
      var i :| 0 <= i < |ys| && ys[i].path == p && Holding(ys[i].data, d) && ys[i].leaf == !HasEntries(d);
      assert xs[i + 1] == ys[i];
    }
  }

  lemma {:induction false} SaysItemized(c: Conversions, at: Path, es: seq<Entry>, p: Path, d: Doc)
    requires ScalarsOk(c, es) && Says(es, at, p, d)
    ensures Itemized(Flat(c, at, es), p, d)
    decreases es, 0
  {
    var k :| 0 <= k < |es| && EntrySays(es[k], at, p, d);
    var xs, ys := FlatEntry(c, at, es[0]), Flat(c, at, es[1..]);
    ScalarsOkParts(c, es);
    if k == 0 {
      EntryItemized(c, at, es[0], p, d);
      var i :| 0 <= i < |xs| && xs[i].path == p && Holding(xs[i].data, d) && xs[i].leaf == !HasEntries(d);
      assert (xs + ys)[i] == xs[i];
    } else {
      assert es[1..][k - 1] == es[k];
      SaysItemized(c, at, es[1..], p, d);
      var i :| 0 <= i < |ys| && ys[i].path == p && Holding(ys[i].data, d) && ys[i].leaf == !HasEntries(d);
      assert (xs + ys)[|xs| + i] == ys[i];
    }
  }

  lemma {:induction false} LeafMapHas(xs: seq<Item>, i: nat)
    requires i < |xs| && xs[i].leaf && forall j :: i < j < |xs| ==> xs[j].path != xs[i].path
    ensures xs[i].path in LeafMap(xs) && LeafMap(xs)[xs[i].path] == xs[i].data
  {
    if i > 0 {
      LeafMapHas(xs[1..], i - 1);
    } else if xs[0].path in LeafMap(xs[1..]) {
      LeafMapItem(xs[1..], xs[0].path);
    }
  }

  /** When a clean document is read, every value of it, at every level, sits at its path: a sequence with all its
      items, a scalar with its text and a scalar type, null as an empty node, a mapping as a map. */
  lemma DocumentRead(c: Conversions, es: seq<Entry>, p: Path, d: Doc)
    requires KeysOk(es) && Clean(Flat(c, [], es)) && ReadDoc(c, EMPTY, [], Mapping(es)).outcome == Done
    requires Says(es, [], p, d)
    ensures var t := ReadDoc(c, EMPTY, [], Mapping(es)).tree;
            && p in t
            && (match d
                case Null => t[p] == Payload(NONE, "", [])
                case Scalar(text, _) => t[p].scalar == text && IsScalar(t[p].typ) && t[p].list == []
                case Sequence(items) => t[p] == Payload(SEQUENCE, "", items)
                case Mapping(_) => t[p] == Payload(MAP, "", []))
            && (HasEntries(d) <==> HasKids(t, p))
  {
    hide Flat, ReadDoc, ReadEntries, Planted, Clean, ScalarsOk, Says, HasKids;
    DocumentPlanted(c, es);
    SaysItemized(c, [], es, p, d);
    FlatBelow(c, [], es);
    var xs := Flat(c, [], es);
    var i :| 0 <= i < |xs| && xs[i].path == p && Holding(xs[i].data, d) && xs[i].leaf == !HasEntries(d);
    ItemPlanted(xs, ReadDoc(c, EMPTY, [], Mapping(es)).tree, i);
  }

  lemma DocumentPlanted(c: Conversions, es: seq<Entry>)
    requires KeysOk(es) && Clean(Flat(c, [], es)) && ReadDoc(c, EMPTY, [], Mapping(es)).outcome == Done
    ensures ScalarsOk(c, es) && Planted(EMPTY, [], Flat(c, [], es), ReadDoc(c, EMPTY, [], Mapping(es)).tree)
  {
    hide Flat, Fits, Clean, Planted, IsTree, ReadEntries, ScalarsOk;
    EmptyTree();
    FlatBelow(c, [], es);
    FitsEmpty(Flat(c, [], es));
    ReadEntriesPlants(c, EMPTY, [], es);
  }

  lemma ItemPlanted(xs: seq<Item>, t: Tree, i: nat)
    requires Clean(xs) && Planted(EMPTY, [], xs, t) && i < |xs| && [] < xs[i].path
    ensures var p := xs[i].path;
            p in t && t[p] == xs[i].data && (xs[i].leaf <==> !HasKids(t, p))
  {
    hide IsTree, LeafMap, HasKids;
    EmptyTree();
    LeafMapItem(xs, xs[i].path);
    LeafInTree(t, xs[i].path);
    if xs[i].leaf {
      LeafMapHas(xs, i);
    } else {
      assert InnerItem(xs[i], t);
    }
  }

  // Every item of the flattened document is a value of the document.
  lemma {:induction false} ItemSaid(c: Conversions, at: Path, es: seq<Entry>, i: nat) returns (d: Doc)
    requires i < |Flat(c, at, es)|
    ensures Says(es, at, Flat(c, at, es)[i].path, d) && Flat(c, at, es)[i].leaf == !HasEntries(d)
    decreases es, 0
  {
    var xs := FlatEntry(c, at, es[0]);
    var k := 0;
    if i < |xs| {
      d := EntryItemSaid(c, at, es[0], i);
    } else {
      d := ItemSaid(c, at, es[1..], i - |xs|);
      k :| 0 <= k < |es[1..]| && EntrySays(es[1..][k], at, Flat(c, at, es)[i].path, d);
      k := k + 1;
    }
    assert EntrySays(es[k], at, Flat(c, at, es)[i].path, d);
  }

  lemma {:induction false} EntryItemSaid(c: Conversions, at: Path, e: Entry, i: nat) returns (d: Doc)
    requires i < |FlatEntry(c, at, e)|
    ensures EntrySays(e, at, FlatEntry(c, at, e)[i].path, d) && FlatEntry(c, at, e)[i].leaf == !HasEntries(d)
    decreases e, 1
  {
    hide Flat, FlatEntry, NewPayload, Says, KeyPath, HasEntries;
    FlatEntryParts(c, at, e);
    if i == 0 {
      d := e.value;
    } else {
      d := ItemSaid(c, at + KeyPath(e.key), e.value.entries, i - 1);
    }
  }

  lemma FlatEntryParts(c: Conversions, at: Path, e: Entry)
    ensures var xs, q := FlatEntry(c, at, e), at + KeyPath(e.key);
            && xs != [] && xs[0].path == q && xs[0].leaf == !HasEntries(e.value)
            && (!e.value.Mapping? ==> |xs| == 1)
            && (e.value.Mapping? ==> xs[1..] == Flat(c, q, e.value.entries))
  {
    hide Flat, NewPayload, KeyPath, HasEntries;
  }

  /** ... and every leaf of the tree is such a value. */
  lemma DocumentLeavesSaid(c: Conversions, es: seq<Entry>, p: Path)
    requires KeysOk(es) && Clean(Flat(c, [], es)) && ReadDoc(c, EMPTY, [], Mapping(es)).outcome == Done
    requires p in Leaves(ReadDoc(c, EMPTY, [], Mapping(es)).tree)
    ensures exists d :: Says(es, [], p, d) && !HasEntries(d)
  {
    var xs := Flat(c, [], es);
    DocumentLeafMap(c, es);
    LeafMapItem(xs, p);
    var i :| 0 <= i < |xs| && xs[i].leaf && xs[i].path == p;
    var d := ItemSaid(c, [], es, i);
  }

  /** A document with an empty key is read, and its leaf is enumerated under a text that does not lead back to it. */
  lemma EmptyKeyUnreachable(c: Conversions)
    requires FitsInt(c, "x")
    ensures var es := [Entry("", Scalar("x", NoTag))]; var r := (assert KeysOk(es); ReadDoc(c, EMPTY, [], Mapping(es)));
            r.outcome == Done && [""] in Leaves(r.tree) && Split(Text([""])) != [""]
  {
    hide ReadDoc, Leaves, ScalarsAreLeaves, Sound, WellTyped, RootFree;
    var e := Entry("", Scalar("x", NoTag));
    var es := [e];
    assert KeyPath("") == [""];
    assert [] + [""] == [""];
    assert Flat(c, [], es) == FlatEntry(c, [], e) + Flat(c, [], es[1..]) && es[1..] == [];
    assert ScalarsOk(c, es);
    var xs := Flat(c, [], es);
    assert xs[0].path == [""] && xs[0].leaf;
    DocumentLeafMap(c, es);
    assert [""] in LeafMap(xs);
    assert Components(Split(Text([""]))) && !Component("") && "" in [""];
  }

  lemma FitsEmpty(xs: seq<Item>)
    requires forall i :: 0 <= i < |xs| ==> [] < xs[i].path
    ensures Fits(EMPTY, [], xs)
  {
  }

  lemma PlantedSound(c: Conversions, xs: seq<Item>, r: Tree)
    requires Planted(EMPTY, [], xs, r)
    requires forall i :: 0 <= i < |xs| ==> ItemTyped(c, xs[i])
    ensures Leaves(r) == LeafMap(xs) && Sound(r) && WellTyped(c, r)
  {
    EmptyTree();
    assert Leaves(r) == LeafMap(xs);
    forall q | q in r && IsScalar(r[q].typ)
      ensures !HasKids(r, q) && Infer(c, r[q].typ, r[q].scalar, r[q].list) == Some(r[q].typ)
    {
      assert q in LeafMap(xs) && q in Leaves(r);
      LeafMapItem(xs, q);
    }
  }

  lemma PlantedRootFree(xs: seq<Item>, r: Tree)
    requires Planted(EMPTY, [], xs, r)
    ensures RootFree(r) <==> forall i :: 0 <= i < |xs| ==> "root" !in xs[i].path
  {
    if i, j :| 0 <= i < |xs| && 0 <= j < |xs[i].path| && xs[i].path[j] == "root" {
      var q := xs[i].path[..j + 1];
      assert Above(xs, q) && q in r && Last(q) == "root";
    } else {
      forall q | q in r && q != []
        ensures Last(q) != "root"
      {
        var i :| 0 <= i < |xs| && q <= xs[i].path;
        assert Last(q) == xs[i].path[|q| - 1];
      }
    }
  }

  // ---------------------------------------------------------------- on the heap

  // read_config_doc on the node at path at.
  method ReadInto(c: Conversions, d: Doc, n: Node, ghost s: Shape, ghost root: Node, ghost at: Path)
    returns (o: Outcome, ghost s': Shape)
    requires Holds(s, root) && at in s.nodes && s.nodes[at] == n && n in s.repr
    requires [] in s.tree && at in s.tree && (d.Mapping? ==> KeysOk(d.entries))
    modifies s.repr
    ensures Holds(s', root) && s.repr <= s'.repr && fresh(s'.repr - s.repr) && Keeps(s, s')
    ensures Update(s'.tree, o) == ReadDoc(c, s.tree, at, d)
    decreases d, 2
  {
    hide Holds, Keeps, Child, Parent, Last, Infer;
    o, s' := Done, s;
    KeepsAll(s);
    match d
    case Mapping(entries) =>
      var es := entries;
      while es != []
        invariant Holds(s', root) && s.repr <= s'.repr && fresh(s'.repr - s.repr) && Keeps(s, s')
        invariant o == Done && [] in s'.tree && at in s'.tree && KeysOk(es) && |es| <= |entries|
        invariant forall e :: e in es ==> e in entries
        invariant ReadEntries(c, s'.tree, at, es) == ReadEntries(c, s.tree, at, entries)
        decreases |es|
      {
        KeysOkParts(es);
        KeepsNode(s, s', at);
        KnownNode(s', root, at);
        ghost var before := s';
        assert es[0] in entries;
        o, s' := ReadOne(c, es[0], n, s', root, at);
        KeepsOn(s, before, s');
        if o != Done {
          return;
        }
        es := es[1..];
      }
    case Scalar(_, _) =>
      var held := Inspect(n, s, root, at);
      o := CheckTag(c, held.scalar, d);
    case Null =>
    case Sequence(_) =>
  }

  // One entry of a mapping.
  method ReadOne(c: Conversions, e: Entry, n: Node, ghost s: Shape, ghost root: Node, ghost at: Path)
    returns (o: Outcome, ghost s': Shape)
    requires Holds(s, root) && at in s.nodes && s.nodes[at] == n && n in s.repr
    requires [] in s.tree && at in s.tree && KeysOk([e])
    modifies s.repr
    ensures Holds(s', root) && s.repr <= s'.repr && fresh(s'.repr - s.repr) && Keeps(s, s')
    ensures Update(s'.tree, o) == ReadEntry(c, s.tree, at, e)
    decreases e, 3
  {
    hide Holds, Keeps, Child, Parent, Last, Infer, Split, ReadDoc, Grow, IsTree, ScalarAt;
    assert [e][0] == e;
    var pel := [e.key];
    if DELIM in e.key {
      pel := StrSplit(e.key);
    }
    assert pel == KeyPath(e.key);
    var key := pel[|pel| - 1];
    ghost var p := at + pel;
    RootShape(s, root);
    LastComponent(at, pel);
    var into: Node?;
    into, s' := InsertionNode(n, pel[..|pel| - 1], s, root, at);
    RootShape(s', root);
    GrowParent(s.tree, p);
    var tmp := into.Lookup(key, s', root, Parent(p));
    ghost var before := s';
    if tmp != null {
      KnownNode(s', root, p);
      o, s' := Overwrite(c, e.value, tmp, s', root, p);
      KeepsSame(before, s');
      KeepsOn(s, before, s');
    } else {
      KnownNode(s', root, Parent(p));
      o, s' := Append(c, key, e.value, into, s', root, Parent(p));
      KeepsOn(s, before, s');
    }
  }

  // The entry's key is new below the node `into`: its node is made, added and read into.
  method Append(c: Conversions, key: string, value: Doc, into: Node, ghost s: Shape, ghost root: Node, ghost at: Path)
    returns (o: Outcome, ghost s': Shape)
    requires Holds(s, root) && at in s.nodes && s.nodes[at] == into && into in s.repr && at in s.tree && [] in s.tree
    requires Child(at, key) !in s.tree && SlashFree(key) && (value.Mapping? ==> KeysOk(value.entries))
    modifies s.repr
    ensures Holds(s', root) && s.repr <= s'.repr && fresh(s'.repr - s.repr) && Keeps(s, s')
    ensures Update(s'.tree, o) ==
            match NewPayload(c, value)
            case None => Update(s.tree, Failed(BadInference))
            case Some(d) => ReadDoc(c, AddChild(s.tree, Child(at, key), d), Child(at, key), value)
    decreases value, 3
  {
    hide Holds, Keeps, Child, Parent, Last, Infer, ReadDoc;
    RootShape(s, root);
    KeepsAll(s);
    var d := NewPayload(c, value);
    if d == None {
      return Failed(BadInference), s;
    }
    var tmp := new Node.Filled(key, d.value, Child(at, key));
    ChildKey(s, root, at, key);
    s' := into.AddChild(key, tmp, s, root, at);
    KeepsAdded(s, s', at, key, tmp);
    ghost var before := s';
    o, s' := ReadInto(c, value, tmp, s', root, Child(at, key));
    KeepsOn(s, before, s');
  }

  // The entry's key resolved to the node tmp at path p.
  method Overwrite(c: Conversions, value: Doc, tmp: Node, ghost s: Shape, ghost root: Node, ghost p: Path)
    returns (o: Outcome, ghost s': Shape)
    requires Holds(s, root) && p in s.nodes && s.nodes[p] == tmp && p in s.tree
    modifies tmp
    ensures Holds(s', root) && s'.repr == s.repr && s'.nodes == s.nodes
    ensures Update(s'.tree, o) ==
            if IsScalar(s.tree[p].typ) && !value.Scalar? then Update(s.tree, Failed(ScalarOverwritten))
            else ScalarAt(c, s.tree, p, ScalarText(value))
  {
    hide Holds, Infer;
    var held := Inspect(tmp, s, root, p);
    if IsScalar(held.typ) && !value.Scalar? {
      return Failed(ScalarOverwritten), s;
    }
    var ok;
    ok, s' := tmp.SetScalar(c, ScalarText(value), s, root, p);
    o := if ok then Done else Failed(BadInference);
  }

  lemma LastComponent(at: Path, pel: Path)
    requires pel != []
    ensures at + pel != [] && Parent(at + pel) == at + pel[..|pel| - 1]
    ensures Last(at + pel) == pel[|pel| - 1] && Child(Parent(at + pel), pel[|pel| - 1]) == at + pel
  {
  }

  lemma KeepsSame(s: Shape, t: Shape)
    requires t.nodes == s.nodes
    ensures Keeps(s, t)
  {
  }

  lemma KeepsAdded(s: Shape, t: Shape, p: Path, k: string, m: Node)
    requires t.nodes == s.nodes[Child(p, k) := m] && Child(p, k) !in s.nodes
    ensures Keeps(s, t) && Child(p, k) in t.nodes && t.nodes[Child(p, k)] == m
  {
  }

  // The way to p is there before p is looked up.
  lemma GrowParent(t: Tree, p: Path)
    requires IsTree(t) && p != []
    ensures [] in t && Parent(p) in Grow(t, Parent(p))
    ensures p in Grow(t, Parent(p)) <==> p in t
    ensures p in t ==> Grow(t, Parent(p)) == t
  {
    GrowPaths(t, Parent(p), p);
    GrowExisting(t, Parent(p));
    NotAboveItself(p);
  }

  // The node that receives the entry: the components before the last are walked, missing ones inserted.
  method InsertionNode(n: Node, comps: Path, ghost s: Shape, ghost root: Node, ghost at: Path)
    returns (into: Node?, ghost s': Shape)
    requires Holds(s, root) && at in s.nodes && s.nodes[at] == n && n in s.repr && at in s.tree && IsTree(s.tree)
    requires Components(comps)
    modifies s.repr
    ensures Holds(s', root) && s.repr <= s'.repr && fresh(s'.repr - s.repr) && Keeps(s, s')
    ensures at + comps in s'.nodes && into != null && s'.nodes[at + comps] == into && into in s'.repr
    ensures [] in s.tree && s'.tree == Grow(s.tree, at + comps)
  {
    hide Holds, Keeps, Child, Parent, Last;
    into, s' := n, s;
    GrowExisting(s.tree, at);
    KeepsAll(s);
    var i := 0;
    assert at + comps[..0] == at;
    while i < |comps|
      invariant 0 <= i <= |comps| && into != null
      invariant Holds(s', root) && s.repr <= s'.repr && fresh(s'.repr - s.repr) && Keeps(s, s')
      invariant at + comps[..i] in s'.nodes && s'.nodes[at + comps[..i]] == into && into in s'.repr
      invariant s'.tree == Grow(s.tree, at + comps[..i])
    {
      ghost var before := s';
      OneFurther(at, comps, i);
      into, s' := into.Descend(comps[i], s', root, at + comps[..i]);
      KeepsOn(s, before, s');
      i := i + 1;
    }
    assert comps[..i] == comps;
  }

  lemma OneFurther(at: Path, comps: Path, i: nat)
    requires i < |comps|
    ensures at + comps[..i + 1] == Child(at + comps[..i], comps[i]) && comps[i] in comps
  {
  }
}
