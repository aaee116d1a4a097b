/** Concrete documents that are read without an exception and on which a law of the configuration fails. */
module ConfigExamples {
  import opened Basics
  import opened ConfigPath
  import opened KeyOrder
  import opened ConfigTree
  import opened ConfigMerge
  import opened ConfigDocument
  import opened Configuration
  import opened ConfigSetup

  // The type of a text on a node that holds no list.
  function TypeOf(c: Conversions, text: string): NodeType
    requires FitsInt(c, text)
  {
    Infer(c, UNKNOWN, text, []).value
  }

  lemma TypeOfText(c: Conversions, d: Payload, text: string)
    requires d.typ != SEQUENCE && FitsInt(c, text)
    ensures AssignScalar(c, d, text) == Payload(TypeOf(c, text), text, d.list) && !InferenceThrows(c, d, text)
    ensures IsScalar(TypeOf(c, text))
    ensures NewPayload(c, Scalar(text, NoTag)) == Some(Payload(TypeOf(c, text), text, []))
  {
  }

  const A: Path := ["a"]
  const AB: Path := ["a", "b"]

  lemma ExamplePaths()
    ensures A != [] && Parent(A) == [] && Last(A) == "a" && AB != [] && Parent(AB) == A && Last(AB) == "b"
    ensures KeyPath("a/b") == AB && KeyPath("a") == A && KeyPath("/a") == A
    ensures SlashFree("a") && SlashFree("b") && Child([], "a") == A && Child(A, "b") == AB
  {
    SplitComponent("", "a");
    SplitLaws("a", "b", "a");
    SplitLaws("a", "b", "b");
    assert "" + "a" == "a" && "a" + "/" + "b" == "a/b";
    assert DELIM == "a/b"[1];
    SplitText(A);
    assert Text([]) == "" && Text(A) == "/a";
    assert DELIM == "/a"[0];
  }

  // ---------------------------------------------------------------- a scalar over an inner node

  // a/b: y
  // a: x
  const OVERWRITTEN: seq<Entry> := [Entry("a/b", Scalar("y", NoTag)), Entry("a", Scalar("x", NoTag))]

  function OverwrittenTree(c: Conversions): Tree
    requires FitsInt(c, "x") && FitsInt(c, "y")
  {
    map[[] := Payload(MAP, "", []), A := Payload(TypeOf(c, "x"), "x", []), AB := Payload(TypeOf(c, "y"), "y", [])]
  }

  lemma OverwrittenRead(c: Conversions)
    requires FitsInt(c, "x") && FitsInt(c, "y")
    ensures KeysOk(OVERWRITTEN) && IsTree(EMPTY)
    ensures ReadDoc(c, EMPTY, [], Mapping(OVERWRITTEN)) == Update(OverwrittenTree(c), Done)
  {
    EmptyTree();
    var t: Tree := map[[] := Payload(MAP, "", []), A := Payload(MAP, "", []), AB := Payload(TypeOf(c, "y"), "y", [])];
    FirstEntryRead(c, t);
    SecondEntryRead(c, t);
    TwoEntries(c, EMPTY, t, OverwrittenTree(c), OVERWRITTEN[0], OVERWRITTEN[1]);
  }

  lemma TwoEntries(c: Conversions, t: Tree, u: Tree, w: Tree, e: Entry, f: Entry)
    requires [] in t && [] in u && KeysOk([e]) && KeysOk([f])
    requires ReadEntry(c, t, [], e) == Update(u, Done) && ReadEntry(c, u, [], f) == Update(w, Done)
    ensures KeysOk([e, f]) && ReadDoc(c, t, [], Mapping([e, f])) == Update(w, Done)
  {
    hide ReadEntry, KeyPath;
    assert [e][0] == e && [f][0] == f && [e, f][1..] == [f] && [f][1..] == [];
    assert ReadEntries(c, u, [], [f]) == Update(w, Done);
  }

  lemma FirstEntryRead(c: Conversions, t: Tree)
    requires FitsInt(c, "y")
    requires t == map[[] := Payload(MAP, "", []), A := Payload(MAP, "", []), AB := Payload(TypeOf(c, "y"), "y", [])]
    ensures KeysOk([OVERWRITTEN[0]]) && ReadEntry(c, EMPTY, [], OVERWRITTEN[0]) == Update(t, Done)
  {
    ExamplePaths();
    TypeOfText(c, FRESH, "y");
    assert [] + AB == AB;
    hide KeyPath, Infer;
    assert Grow(EMPTY, []) == EMPTY;
    assert Grow(EMPTY, A) == map[[] := Payload(MAP, "", []), A := FRESH];
    assert AddChild(Grow(EMPTY, A), AB, Payload(TypeOf(c, "y"), "y", [])) == t;
  }

  lemma SecondEntryRead(c: Conversions, t: Tree)
    requires FitsInt(c, "x") && FitsInt(c, "y")
    requires t == map[[] := Payload(MAP, "", []), A := Payload(MAP, "", []), AB := Payload(TypeOf(c, "y"), "y", [])]
    ensures KeysOk([OVERWRITTEN[1]]) && ReadEntry(c, t, [], OVERWRITTEN[1]) == Update(OverwrittenTree(c), Done)
  {
    ExamplePaths();
    TypeOfText(c, t[A], "x");
    assert [] + A == A;
    hide KeyPath, Infer;
    assert t[A := AssignScalar(c, t[A], "x")] == OverwrittenTree(c);
  }

  // A tree whose root has the one child "a", which is a scalar.
  lemma OneScalarMerged(c: Conversions, t: Tree)
    requires IsTree(t) && A in t && IsScalar(t[A].typ) && Kids(t, []) == {"a"} && IsTree(BLANK)
    ensures Merge(c, BLANK, t).outcome == if FitsInt(c, t[A].scalar) then Done else Failed(BadInference)
  {
    var ks := Sorted(Kids(t, []));
    OneKey();
    assert ks[1..] == [];
    assert Child([], "a") == A by { ExamplePaths(); }
    hide IsTree, Kids, Sorted, Infer, ScalarAt, Child;
    OneStep(c, t[A]);
    ScalarAtOutcome(c, t[A]);
    OneScalarAt(c, t);
    assert NameAt([]) == "root";
    assert MergeKids(c, BLANK, [], t, [], ks).outcome == MergeAt(c, BLANK, [], t, A).outcome;
  }

  lemma OneKey()
    ensures Sorted({"a"}) == ["a"]
  {
    assert Sorted({"a"})[0] in Sorted({"a"});
  }

  lemma OneScalarAt(c: Conversions, t: Tree)
    requires IsTree(t) && A in t && IsScalar(t[A].typ)
    ensures MergeAt(c, BLANK, [], t, A) == ScalarAt(c, BLANK[A := t[A]], A, t[A].scalar)
  {
    ExamplePaths();
    assert "a" != "root" by { assert |"a"| != |"root"|; }
    hide IsTree, Kids, Sorted, ScalarAt;
    assert Target([], NameAt(A)) == A;
  }

  lemma ScalarAtOutcome(c: Conversions, d: Payload)
    ensures ScalarAt(c, BLANK[A := d], A, d.scalar).outcome ==
            if InferenceThrows(c, d, d.scalar) then Failed(BadInference) else Done
  {
  }

  lemma OneStep(c: Conversions, d: Payload)
    requires IsScalar(d.typ)
    ensures InferenceThrows(c, d, d.scalar) <==> !FitsInt(c, d.scalar)
  {
  }

  /** A host document that writes below a key and then onto it, `a/b: y` and `a: x`, is read and merged without an
      exception and has no scalar leaf that could be in the way; its leaf is missing from the effective tree. */
  lemma OverwrittenLost(c: Conversions)
    requires FitsInt(c, "x") && FitsInt(c, "y")
    ensures KeysOk(OVERWRITTEN) && IsTree(EMPTY) && IsTree(BLANK)
    ensures var t := OverwrittenTree(c);
            && ReadDoc(c, EMPTY, [], Mapping(OVERWRITTEN)) == Update(t, Done)
            && IsTree(t) && Merge(c, BLANK, t).outcome == Done
            && FitsOver(t, BLANK) && !Settles(BLANK, t) && !Covered(t, Merge(c, BLANK, t).tree)
  {
    BlankReady();
    ReadyTree(BLANK);
    OverwrittenRead(c);
    ReadDocIsTree(c, EMPTY, [], Mapping(OVERWRITTEN));
    OverwrittenShape(c);
    var t := OverwrittenTree(c);
    OneScalarMerged(c, t);
    HostMergeCovered(c, BLANK, t);
  }

  lemma OverwrittenShape(c: Conversions)
    requires FitsInt(c, "x") && FitsInt(c, "y")
    ensures var t := OverwrittenTree(c);
            && IsScalar(t[A].typ) && HasKids(t, A) && Kids(t, []) == {"a"}
            && FitsOver(t, BLANK) && !Settles(BLANK, t)
  {
    OverwrittenNodes(c);
    hide OverwrittenTree;
    var t := OverwrittenTree(c);
    OnlyKid(t);
    InnerA(t);
    NotRoot();
    hide Leaves, Kids, HasKids, Last;
    assert RootFree(t);
  }

  lemma OverwrittenNodes(c: Conversions)
    requires FitsInt(c, "x") && FitsInt(c, "y")
    ensures var t := OverwrittenTree(c); t.Keys == {[], A, AB} && IsScalar(t[A].typ)
  {
    TypeOfText(c, FRESH, "x");
    hide TypeOf;
  }

  lemma InnerA(t: Tree)
    requires AB in t
    ensures HasKids(t, A)
  {
    ExamplePaths();
    assert Child(A, "b") in t;
  }

  lemma NotRoot()
    ensures Last(AB) != "root" && Last(A) != "root"
  {
    assert |Last(AB)| == 1 && |Last(A)| == 1 && |"root"| == 4;
  }

  lemma OnlyKid(t: Tree)
    requires A in t && forall p :: p in t ==> p == [] || p == A || p == AB
    ensures Kids(t, []) == {"a"}
  {
    ExamplePaths();
    hide Child, Parent, Last, SlashFree;
    forall k
      ensures k in Kids(t, []) <==> k == "a"
    {
      ChildLength([], k);
      assert |AB| == 2 && |Child([], k)| == 1;
      assert Last(Child([], k)) == k;
    }
  }

  // ---------------------------------------------------------------- a scalar over a mapping

  /** A host document with a scalar, `a: 1`, over a mapping of the configuration, `a: {b: 1}`, is merged without an
      exception and without effect: the effective tree has no such scalar. */
  lemma MisfitIgnored(c: Conversions)
    requires FitsInt(c, "1")
    ensures IsTree(INNER) && IsTree(PAIR) && Merge(c, INNER, PAIR) == Update(INNER, Done)
    ensures Settles(INNER, PAIR) && !FitsOver(PAIR, INNER) && !Covered(PAIR, INNER)
  {
    PairIsTree();
    InnerIsTree();
    PairShape();
    PairMisfit(c);
    OverlayInner(c);
    hide IsTree, RootFree, Settles, Accepts, Merge, Overlay, FitsOver, Covered, Leaves, HasKids;
    MergeIsOverlay(c, INNER, PAIR);
  }

  lemma PairMisfit(c: Conversions)
    requires FitsInt(c, "1") && Leaves(PAIR).Keys == {A} && HasKids(INNER, A)
    ensures Accepts(c, INNER, PAIR) && !FitsOver(PAIR, INNER) && !Covered(PAIR, INNER)
  {
    ExamplePaths();
    hide HasKids, IsTree, RootFree, Parent, Last, Child;
    assert forall p :: p in PAIR ==> p == [] || p == A;
    assert A in Leaves(PAIR);
  }

  lemma PairShape()
    ensures Leaves(PAIR).Keys == {A} && RootFree(PAIR) && Settles(INNER, PAIR) && HasKids(INNER, A)
  {
    ExamplePaths();
    PairIsTree();
    hide Child, Parent, Last;
    assert Child(A, "b") in INNER;
    assert forall p :: p in PAIR ==> p == [] || p == A;
    assert Last(A) != "root" by { assert |"a"| != |"root"|; }
    forall k
      ensures Child(A, k) !in PAIR
    {
      ChildLength(A, k);
    }
  }

  lemma OverlayInner(c: Conversions)
    ensures Overlay(c, INNER, PAIR) == INNER
  {
    hide AssignScalar;
    assert Overlay(c, INNER, PAIR).Keys == INNER.Keys;
    assert forall p :: p in INNER ==> Overlay(c, INNER, PAIR)[p] == INNER[p];
  }

  // ---------------------------------------------------------------- a number over a list

  // a: [x]
  // /a: text
  function ListOverwritten(text: string): seq<Entry> {
    [Entry("a", Sequence(["x"])), Entry("/a", Scalar(text, NoTag))]
  }

  function ListTree(c: Conversions, text: string): Tree
    requires c.toUint("x") == None
  {
    map[[] := Payload(MAP, "", []), A := Payload(Infer(c, SEQUENCE, text, ["x"]).value, text, ["x"])]
  }

  lemma ListRead(c: Conversions, text: string)
    requires c.toUint("x") == None
    ensures KeysOk(ListOverwritten(text)) && IsTree(EMPTY)
    ensures ReadDoc(c, EMPTY, [], Mapping(ListOverwritten(text))) == Update(ListTree(c, text), Done)
  {
    EmptyTree();
    var t: Tree := map[[] := Payload(MAP, "", []), A := Payload(SEQUENCE, "", ["x"])];
    ListEntryRead(c, text, t);
    NumberEntryRead(c, text, t);
    TwoEntries(c, EMPTY, t, ListTree(c, text), ListOverwritten(text)[0], ListOverwritten(text)[1]);
  }

  lemma ListEntryRead(c: Conversions, text: string, t: Tree)
    requires t == map[[] := Payload(MAP, "", []), A := Payload(SEQUENCE, "", ["x"])]
    ensures KeysOk([ListOverwritten(text)[0]]) && ReadEntry(c, EMPTY, [], ListOverwritten(text)[0]) == Update(t, Done)
  {
    ExamplePaths();
    assert [] + A == A;
    hide KeyPath, Infer;
    assert Grow(EMPTY, []) == EMPTY;
    assert AddChild(EMPTY, A, Payload(SEQUENCE, "", ["x"])) == t;
  }

  lemma NumberEntryRead(c: Conversions, text: string, t: Tree)
    requires c.toUint("x") == None
    requires t == map[[] := Payload(MAP, "", []), A := Payload(SEQUENCE, "", ["x"])]
    ensures KeysOk([ListOverwritten(text)[1]])
    ensures ReadEntry(c, t, [], ListOverwritten(text)[1]) == Update(ListTree(c, text), Done)
  {
    ExamplePaths();
    assert [] + A == A;
    hide KeyPath;
    assert t[A := AssignScalar(c, t[A], text)] == ListTree(c, text);
  }

  /** A document in which a number above INT_MAX overwrites a list is read, because inference looks at the list; the
      merge then looks at the number and throws. */
  lemma ListOverwrittenThrows(c: Conversions, text: string)
    requires c.toUint("x") == None && !FitsInt(c, text)
    ensures KeysOk(ListOverwritten(text)) && IsTree(EMPTY) && IsTree(BLANK)
    ensures var t := ListTree(c, text);
            && ReadDoc(c, EMPTY, [], Mapping(ListOverwritten(text))) == Update(t, Done)
            && Sound(t) && RootFree(t) && Settles(BLANK, t) && Yields(BLANK, t)
            && Merge(c, BLANK, t).outcome == Failed(BadInference)
  {
    BlankReady();
    ReadyTree(BLANK);
    ListRead(c, text);
    ReadDocIsTree(c, EMPTY, [], Mapping(ListOverwritten(text)));
    ListShape(c, text);
    OneScalarMerged(c, ListTree(c, text));
  }

  lemma ListShape(c: Conversions, text: string)
    requires c.toUint("x") == None
    ensures var t := ListTree(c, text);
            && IsScalar(t[A].typ) && !HasKids(t, A) && Kids(t, []) == {"a"} && RootFree(t) && ScalarsAreLeaves(t)
            && Settles(BLANK, t) && Yields(BLANK, t)
  {
    ExamplePaths();
    var t := ListTree(c, text);
    assert IsScalar(t[A].typ);
    hide Infer, Child, Parent, Last, SlashFree;
    assert forall p :: p in t ==> p == [] || p == A;
    OnlyKid(t);
    forall k
      ensures Child(A, k) !in t
    {
      ChildLength(A, k);
    }
    assert Last(A) != "root" by { assert |"a"| != |"root"|; }
  }
}
