/**
 * `pd.unique` on a series: the distinct values, each once, in the order in
 * which they first appear.
 */
module Distinct {

  /** No value occurs twice in s. */
  predicate NoDuplicates<T(==)>(s: seq<T>)
  {
    forall i, j :: 0 <= i < j < |s| ==> s[i] != s[j]
  }

  /** The position of the first occurrence of x in s. */
  function FirstIndex<T(==)>(s: seq<T>, x: T): (i: nat)
    requires x in s
    ensures i < |s| && s[i] == x
    ensures forall j :: 0 <= j < i ==> s[j] != x
  {
    if s[0] == x then 0 else 1 + FirstIndex(s[1..], x)
  }

  /** The distinct values of s in order of first appearance. */
  function Unique<T(==)>(s: seq<T>): (r: seq<T>)
    ensures forall i :: 0 <= i < |s| ==> s[i] in r
    ensures forall j :: 0 <= j < |r| ==> r[j] in s
    ensures NoDuplicates(r)
    decreases |s|
  {
    if s == [] then []
    else
      var u := Unique(s[..|s| - 1]);
      assert s == s[..|s| - 1] + [s[|s| - 1]];
      if s[|s| - 1] in u then u else u + [s[|s| - 1]]
  }

  /** A value is listed by Unique(s) exactly when it occurs in s. */
  lemma UniqueMembers<T>(s: seq<T>)
    ensures forall x :: x in Unique(s) <==> x in s
  {
    var r := Unique(s);
    forall x | x in s ensures x in r {
      var i :| 0 <= i < |s| && s[i] == x;
    }
    forall x | x in r ensures x in s {
      var j :| 0 <= j < |r| && r[j] == x;
    }
  }

  /** The first occurrence of a value of a prefix does not move when the sequence is extended. */
  lemma FirstIndexOfPrefix<T>(p: seq<T>, t: seq<T>, x: T)
    requires x in p
    ensures FirstIndex(p + t, x) == FirstIndex(p, x)
  {
    var i := FirstIndex(p, x);
    var k := FirstIndex(p + t, x);
    assert (p + t)[i] == x;
    assert k <= i;
    assert p[k] == (p + t)[k];
  }

  /** The values of Unique(s) are listed in strictly increasing order of first appearance in s. */
  lemma {:induction false} UniqueInFirstAppearanceOrder<T>(s: seq<T>)
    ensures forall i, j :: 0 <= i < j < |Unique(s)| ==>
      FirstIndex(s, Unique(s)[i]) < FirstIndex(s, Unique(s)[j])
    decreases |s|
  {
    if s != [] {
      var p, y := s[..|s| - 1], s[|s| - 1];
      assert s == p + [y];
      UniqueInFirstAppearanceOrder(p);
      var u := Unique(p);
      forall x | x in u ensures FirstIndex(s, x) == FirstIndex(p, x) {
        FirstIndexOfPrefix(p, [y], x);
      }
      if y !in u {
        assert y !in p;
        assert FirstIndex(s, y) == |p|;
        assert Unique(s) == u + [y];
        forall i, j | 0 <= i < j < |Unique(s)|
          ensures FirstIndex(s, Unique(s)[i]) < FirstIndex(s, Unique(s)[j])
        {
          assert Unique(s)[i] == u[i];
          if j < |u| {
            assert Unique(s)[j] == u[j];
          }
        }
      }
    }
  }

  /** The list r lists exactly the values of s, once each, in order of first appearance in s. */
  ghost predicate ListsDistinct<T>(s: seq<T>, r: seq<T>)
  {
    && (forall i :: 0 <= i < |s| ==> s[i] in r)
    && (forall j :: 0 <= j < |r| ==> r[j] in s)
    && NoDuplicates(r)
    && (forall i, j :: 0 <= i < j < |r| ==> FirstIndex(s, r[i]) < FirstIndex(s, r[j]))
  }

  /** When the last value of s already occurred before it, a list for s is also a list for the prefix. */
  lemma ListsDistinctDropOld<T>(s: seq<T>, r: seq<T>)
    requires s != [] && s[|s| - 1] in s[..|s| - 1]
    requires ListsDistinct(s, r)
    ensures ListsDistinct(s[..|s| - 1], r)
  {
    var p, y := s[..|s| - 1], s[|s| - 1];
    assert s == p + [y];
    forall x | x in p ensures FirstIndex(s, x) == FirstIndex(p, x) {
      FirstIndexOfPrefix(p, [y], x);
    }
    assert forall x :: x in r <==> x in p;
  }

  /** When the last value of s is new, its first appearance is the last position. */
  lemma FirstIndexOfNewLast<T>(s: seq<T>)
    requires s != [] && s[|s| - 1] !in s[..|s| - 1]
    ensures FirstIndex(s, s[|s| - 1]) == |s| - 1
  {
  }

  /** In a list for s, an entry is followed only by entries that first appear later in s. */
  lemma NextComesLater<T>(s: seq<T>, r: seq<T>, k: nat)
    requires ListsDistinct(s, r)
    requires k < |r|
    ensures k + 1 < |r| ==> FirstIndex(s, r[k]) < FirstIndex(s, r[k + 1]) < |s|
  {
  }

  /** When the last value of s is new, it is the last entry of any list for s. */
  lemma NewLastComesLast<T>(s: seq<T>, r: seq<T>)
    requires s != [] && s[|s| - 1] !in s[..|s| - 1]
    requires ListsDistinct(s, r)
    ensures r != [] && r[|r| - 1] == s[|s| - 1]
  {
    var y := s[|s| - 1];
    FirstIndexOfNewLast(s);
    assert y in r;
    var k :| 0 <= k < |r| && r[k] == y;
    NextComesLater(s, r, k);
  }

  /** When the last value of s is new, dropping it from s and from a list for s leaves a list for the prefix. */
  lemma ListsDistinctDropNew<T>(s: seq<T>, r: seq<T>)
    requires s != [] && s[|s| - 1] !in s[..|s| - 1]
    requires ListsDistinct(s, r)
    ensures r != [] && r[|r| - 1] == s[|s| - 1]
    ensures ListsDistinct(s[..|s| - 1], r[..|r| - 1])
  {
    NewLastComesLast(s, r);
    var p, y := s[..|s| - 1], s[|s| - 1];
    var q := r[..|r| - 1];
    assert s == p + [y];
    assert r == q + [y];
    forall i | 0 <= i < |p| ensures p[i] in q {
      assert p[i] == s[i] && p[i] != y;
      assert p[i] in r;
    }
    forall j | 0 <= j < |q| ensures q[j] in p {
      assert q[j] == r[j] && r[j] != r[|r| - 1];
      assert q[j] in s;
    }
    forall i, j | 0 <= i < j < |q| ensures FirstIndex(p, q[i]) < FirstIndex(p, q[j]) {
      assert q[i] == r[i] && q[j] == r[j];
      FirstIndexOfPrefix(p, [y], q[i]);
      FirstIndexOfPrefix(p, [y], q[j]);
    }
  }

  /** The first entry of a list whose entries all occur in s occurs in s. */
  lemma FirstEntryIn<T>(s: seq<T>, r: seq<T>)
    requires forall j :: 0 <= j < |r| ==> r[j] in s
    ensures |r| > 0 ==> r[0] in s
  {
  }

  /**
   * The three properties determine the list: any duplicate-free list of
   * exactly the values of s, in order of first appearance, is Unique(s).
   */
  lemma {:induction false} UniqueIsDetermined<T>(s: seq<T>, r: seq<T>)
    requires ListsDistinct(s, r)
    ensures r == Unique(s)
    decreases |s|
  {
    if s == [] {
      FirstEntryIn(s, r);
    } else {
      var p, y := s[..|s| - 1], s[|s| - 1];
      var u := Unique(p);
      if y in p {
        ListsDistinctDropOld(s, r);
        UniqueIsDetermined(p, r);
        var i := FirstIndex(p, y);
        assert p[i] in u;
        assert Unique(s) == u;
      } else {
        ListsDistinctDropNew(s, r);
        UniqueIsDetermined(p, r[..|r| - 1]);
        assert Unique(s) == u + [y];
        assert r == r[..|r| - 1] + [y];
      }
    }
  }

  /** A value that occurs only in the second part first appears after the whole first part. */
  lemma FirstIndexBeyondPrefix<T>(a: seq<T>, b: seq<T>, y: T)
    requires y !in a && y in b
    ensures FirstIndex(a + b, y) >= |a|
  {
    assert forall j :: 0 <= j < |a| ==> (a + b)[j] == a[j];
  }

  /** Two entries of Unique(s) appear in it in the order of their first appearance in s. */
  lemma UniqueOrderOfPair<T>(s: seq<T>, i: nat, j: nat)
    requires i < |Unique(s)| && j < |Unique(s)|
    requires FirstIndex(s, Unique(s)[i]) < FirstIndex(s, Unique(s)[j])
    ensures i < j
  {
    UniqueInFirstAppearanceOrder(s);
  }

  /**
   * In the distinct values of a ++ b, a value of a comes before every value
   * that occurs only in b.
   */
  lemma ConcatFirstPartFirst<T>(a: seq<T>, b: seq<T>, x: T, y: T)
    requires x in a && y !in a && y in b
    ensures x in Unique(a + b) && y in Unique(a + b)
    ensures FirstIndex(Unique(a + b), x) < FirstIndex(Unique(a + b), y)
  {
    var s := a + b;
    var u := Unique(s);
    UniqueMembers(s);
    assert x in u && y in u;
    FirstIndexOfPrefix(a, b, x);
    FirstIndexBeyondPrefix(a, b, y);
    var i, j := FirstIndex(u, x), FirstIndex(u, y);
    assert FirstIndex(s, u[i]) < FirstIndex(s, u[j]);
    UniqueOrderOfPair(s, i, j);
  }
}
