/** Configuration paths: how a path text is split into components, and how a
    sequence of components is written back as the path text of a leaf. */
module ConfigPath {

  type Path = seq<string>

  const DELIM: char := '/'

  function Child(p: Path, k: string): (q: Path)
    ensures q != [] && Parent(q) == p && Last(q) == k
  {
    p + [k]
  }

  function Parent(p: Path): (q: Path)
    requires p != []
  {
    p[..|p| - 1]
  }

  function Last(p: Path): string
    requires p != []
  {
    p[|p| - 1]
  }

  lemma ChildOfParent(p: Path)
    requires p != []
    ensures Child(Parent(p), Last(p)) == p
  {
  }

  lemma ChildLength(p: Path, k: string)
    ensures |Child(p, k)| == |p| + 1 && p < Child(p, k)
  {
  }

  // One component moves from the path still to be walked to the path walked so far.
  lemma WalkOn(p: Path, done: Path, q: Path)
    requires p == done + q && q != []
    ensures p == Child(done, q[0]) + q[1..] && q[0] in p
  {
    assert p[|done|] == q[0];
  }

  ghost predicate SlashFree(k: string) {
    DELIM !in k
  }

  // A component that a path text can address.
  ghost predicate Component(k: string) {
    k != "" && SlashFree(k)
  }

  ghost predicate Components(p: Path) {
    forall k | k in p :: Component(k)
  }

  // ---------------------------------------------------------------- splitting

  function NonEmpty(item: string): (r: Path) {
    if item == "" then [] else [item]
  }

  // The items of `item + s`, of which `item` has already been scanned.
  function SplitFrom(item: string, s: string): (r: Path)
    requires SlashFree(item)
    ensures Components(r)
    decreases |s|
  {
    if s == "" then NonEmpty(item)
    else if s[0] == DELIM then NonEmpty(item) + SplitFrom("", s[1..])
    else SplitFrom(item + [s[0]], s[1..])
  }

  function Split(s: string): (r: Path)
    ensures Components(r)
  {
    SplitFrom("", s)
  }

  // str_split and str_split_to_queue: read items up to the next delimiter, keep the non-empty ones.
  method StrSplit(s: string) returns (elems: Path)
    ensures elems == Split(s)
  {
    elems := [];
    var pos := 0;
    while pos < |s|
      invariant 0 <= pos <= |s|
      invariant elems + Split(s[pos..]) == Split(s)
    {
      var item := "";
      ghost var start := pos;
      while pos < |s| && s[pos] != DELIM
        invariant start <= pos <= |s|
        invariant SlashFree(item)
        invariant elems + SplitFrom(item, s[pos..]) == Split(s)
        decreases |s| - pos
      {
        item := item + [s[pos]];
        assert s[pos..][1..] == s[pos + 1..];
        pos := pos + 1;
      }
      if item != "" {
        elems := elems + [item];
      }
      if pos < |s| {
        assert s[pos..][1..] == s[pos + 1..];
        pos := pos + 1;
      }
    }
  }

  // ---------------------------------------------------------------- path texts

  // The text under which enumeration lists a node: every component preceded by a slash.
  function Text(p: Path): string
    decreases |p|
  {
    if p == [] then "" else Text(Parent(p)) + "/" + Last(p)
  }

  lemma {:induction false} SplitFromJoin(item: string, s: string, u: string)
    requires SlashFree(item)
    ensures SplitFrom(item, s + "/" + u) == SplitFrom(item, s) + Split(u)
    decreases |s|
  {
    var w := s + "/" + u;
    if s == "" {
      assert w == "/" + u && w[0] == DELIM && w[1..] == u;
    } else {
      assert w[0] == s[0] && w[1..] == s[1..] + "/" + u;
      if s[0] == DELIM {
        SplitFromJoin("", s[1..], u);
        assert NonEmpty(item) + (SplitFrom("", s[1..]) + Split(u)) == SplitFrom(item, s) + Split(u);
      } else {
        SplitFromJoin(item + [s[0]], s[1..], u);
      }
    }
  }

  lemma {:induction false} SplitComponent(item: string, k: string)
    requires SlashFree(item) && SlashFree(k)
    ensures SplitFrom(item, k) == NonEmpty(item + k)
    decreases |k|
  {
    if k == "" {
      assert item + k == item;
    } else {
      SplitComponent(item + [k[0]], k[1..]);
      assert item + [k[0]] + k[1..] == item + k;
    }
  }

  /** The laws that determine splitting: a slash separates, a text without a slash is one item, and an empty item
      does not count. */
  lemma SplitLaws(s: string, u: string, k: string)
    requires SlashFree(k)
    ensures Split(s + "/" + u) == Split(s) + Split(u)
    ensures Split(k) == if k == "" then [] else [k]
  {
    SplitFromJoin("", s, u);
    SplitComponent("", k);
    assert "" + k == k;
  }

  /** Splitting the text of an addressable path gives the path back. */
  lemma {:induction false} SplitText(p: Path)
    requires Components(p)
    ensures Split(Text(p)) == p
    decreases |p|
  {
    if p != [] {
      assert forall k | k in Parent(p) :: k in p;
      SplitText(Parent(p));
      assert Last(p) in p;
      SplitLaws(Text(Parent(p)), Last(p), Last(p));
      assert p == Parent(p) + [Last(p)];
    }
  }

  lemma SlashPosition(a: string, k: string)
    requires SlashFree(k)
    ensures (a + "/" + k)[|a|] == DELIM
    ensures forall i :: |a| < i < |a + "/" + k| ==> (a + "/" + k)[i] != DELIM
  {
    var w := a + "/" + k;
    forall i | |a| < i < |w|
      ensures w[i] != DELIM
    {
      assert w[i] == k[i - |a| - 1];
    }
  }

  lemma LastSlash(a: string, k: string, b: string, l: string)
    requires SlashFree(k) && SlashFree(l) && a + "/" + k == b + "/" + l
    ensures a == b && k == l
  {
    SlashPosition(a, k);
    SlashPosition(b, l);
    var w, v := a + "/" + k, b + "/" + l;
    assert |a| == |b|;
    assert a == w[..|a|] && b == v[..|b|];
    assert k == w[|a| + 1..] && l == v[|b| + 1..];
  }

  /** Two paths of slash-free components have the same text only when they are the same path. */
  lemma {:induction false} TextInjective(p: Path, q: Path)
    requires forall k | k in p :: SlashFree(k)
    requires forall k | k in q :: SlashFree(k)
    requires Text(p) == Text(q)
    ensures p == q
    decreases |p|
  {
    assert (p != [] ==> Text(p) != "") && (q != [] ==> Text(q) != "");
    if p != [] && q != [] {
      LastSlash(Text(Parent(p)), Last(p), Text(Parent(q)), Last(q));
      assert forall k | k in Parent(p) :: k in p;
      assert forall k | k in Parent(q) :: k in q;
      TextInjective(Parent(p), Parent(q));
      assert p == Parent(p) + [Last(p)] && q == Parent(q) + [Last(q)];
    }
  }
}
