/** The order in which `std::map` visits string keys. */
module KeyOrder {
  import opened Basics

  predicate Less(a: string, b: string) {
    if b == "" then false
    else if a == "" then true
    else a[0] < b[0] || (a[0] == b[0] && Less(a[1..], b[1..]))
  }

  /** The order is lexicographic: the first difference decides, and a proper prefix comes first. */
  lemma {:induction false} LessMeans(a: string, b: string)
    ensures Less(a, b) <==>
              exists i :: 0 <= i <= |a| && i < |b| && a[..i] == b[..i] && (i == |a| || a[i] < b[i])
    decreases |a|
  {
    if a != "" && b != "" && a[0] == b[0] {
      var c, d := a[1..], b[1..];
      LessMeans(c, d);
      if i :| 0 <= i <= |c| && i < |d| && c[..i] == d[..i] && (i == |c| || c[i] < d[i]) {
        assert a[..i + 1] == [a[0]] + c[..i] && b[..i + 1] == [b[0]] + d[..i];
      }
      if i :| 0 <= i <= |a| && i < |b| && a[..i] == b[..i] && (i == |a| || a[i] < b[i]) {
        assert i > 0;
        assert c[..i - 1] == a[..i][1..] && d[..i - 1] == b[..i][1..];
      }
    } else {
      assert a[..0] == b[..0];
      forall i | 0 < i <= |a| && i < |b|
        ensures a[..i] == b[..i] ==> a[0] == b[0]
      {
        SameStart(a, b, i);
      }
    }
  }

  lemma SameStart(a: string, b: string, i: nat)
    requires 0 < i <= |a| && i <= |b|
    ensures a[..i] == b[..i] ==> a[0] == b[0]
  {
    assert a[0] == a[..i][0] && b[0] == b[..i][0];
  }

  lemma {:induction false} LessTotal(a: string, b: string)
    ensures Less(a, b) || a == b || Less(b, a)
    ensures !(Less(a, b) && (a == b || Less(b, a)))
    decreases |a|
  {
    if a != "" && b != "" {
      LessTotal(a[1..], b[1..]);
      assert a == [a[0]] + a[1..] && b == [b[0]] + b[1..];
    }
  }

  lemma {:induction false} LessTransitive(a: string, b: string, c: string)
    requires Less(a, b) && Less(b, c)
    ensures Less(a, c)
    decreases |a|
  {
    if a != "" && a[0] == b[0] == c[0] {
      LessTransitive(a[1..], b[1..], c[1..]);
    }
  }

  ghost predicate IsFirst(k: string, keys: set<string>) {
    k in keys && forall j :: j in keys && j != k ==> Less(k, j)
  }

  lemma {:induction false} FirstExists(keys: set<string>)
    requires keys != {}
    ensures exists k :: IsFirst(k, keys)
    decreases |keys|
  {
    var k :| k in keys;
    var rest := keys - {k};
    if rest == {} {
      assert keys == {k};
      assert IsFirst(k, keys);
    } else {
      FirstExists(rest);
      var m :| IsFirst(m, rest);
      LessTotal(k, m);
      if Less(k, m) {
        forall j | j in keys && j != k
          ensures Less(k, j)
        {
          if j != m {
            LessTransitive(k, m, j);
          }
        }
        assert IsFirst(k, keys);
      } else {
        assert IsFirst(m, keys);
      }
    }
  }

  lemma FirstUnique(k: string, m: string, keys: set<string>)
    requires IsFirst(k, keys) && IsFirst(m, keys)
    ensures k == m
  {
    LessTotal(k, m);
  }

  ghost function First(keys: set<string>): (k: string)
    requires keys != {}
    ensures IsFirst(k, keys)
  {
    FirstExists(keys);
    var k :| IsFirst(k, keys);
    k
  }

  // The keys in visiting order.
  ghost function Sorted(keys: set<string>): (ks: seq<string>)
    ensures forall k :: k in ks <==> k in keys
    ensures |ks| == |keys|
    ensures forall i, j :: 0 <= i < j < |ks| ==> Less(ks[i], ks[j]) && ks[i] != ks[j]
    decreases |keys|
  {
    if keys == {} then []
    else
      var k := First(keys);
      [k] + Sorted(keys - {k})
  }

  lemma SortedStep(k: string, keys: set<string>)
    requires IsFirst(k, keys)
    ensures Sorted(keys) == [k] + Sorted(keys - {k})
  {
    FirstUnique(k, First(keys), keys);
  }

  method SortKeys(keys: set<string>) returns (ks: seq<string>)
    ensures ks == Sorted(keys)
  {
    hide Less, Sorted;
    ks := [];
    var rest := keys;
    while rest != {}
      invariant ks + Sorted(rest) == Sorted(keys)
      decreases |rest|
    {
      FirstExists(rest);
      var k :| k in rest && forall j :: j in rest && j != k ==> Less(k, j);
      SortedStep(k, rest);
      Associative(ks, [k], Sorted(rest - {k}));
      ks := ks + [k];
      rest := rest - {k};
    }
  }
}
