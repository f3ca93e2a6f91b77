/**
 * Row selection by a boolean mask, as pandas does it with `df[mask]`: the
 * rows whose mask entry is true are kept, in their original order. The
 * positions a selection keeps are the index labels the result carries until
 * `reset_index(drop=True)` renumbers them from 0.
 */
module Select {

  /** The rows of s that satisfy keep, in their original order. */
  function Where<T>(s: seq<T>, keep: T -> bool): (r: seq<T>)
    ensures |r| <= |s|
    decreases |s|
  {
    if s == [] then []
    else Where(s[..|s| - 1], keep) + (if keep(s[|s| - 1]) then [s[|s| - 1]] else [])
  }

  /** The positions i of s where keep(s[i]) holds, in increasing order. */
  function Kept<T>(s: seq<T>, keep: T -> bool): (ps: seq<nat>)
    ensures forall j :: 0 <= j < |ps| ==> ps[j] < |s|
    ensures forall j, k :: 0 <= j < k < |ps| ==> ps[j] < ps[k]
    ensures forall i :: 0 <= i < |s| ==> (i in ps <==> keep(s[i]))
    decreases |s|
  {
    if s == [] then []
    else
      var front := Kept(s[..|s| - 1], keep);
      assert forall i :: 0 <= i < |s| - 1 ==> s[..|s| - 1][i] == s[i];
      front + (if keep(s[|s| - 1]) then [|s| - 1] else [])
  }

  /** r is the subsequence of s at the strictly increasing positions ps. */
  ghost predicate SubsequenceAt<T>(r: seq<T>, s: seq<T>, ps: seq<nat>)
  {
    && |ps| == |r|
    && (forall j :: 0 <= j < |ps| ==> ps[j] < |s| && r[j] == s[ps[j]])
    && (forall j, k :: 0 <= j < k < |ps| ==> ps[j] < ps[k])
  }

  /** r is an order-preserving subsequence of s. */
  ghost predicate IsSubsequence<T>(r: seq<T>, s: seq<T>)
  {
    exists ps :: SubsequenceAt(r, s, ps)
  }

  /** The j-th selected row is the row at the j-th kept position. */
  lemma {:induction false} WhereAtKept<T>(s: seq<T>, keep: T -> bool)
    ensures SubsequenceAt(Where(s, keep), s, Kept(s, keep))
    decreases |s|
  {
    if s != [] {
      var front := s[..|s| - 1];
      WhereAtKept(front, keep);
      assert forall i :: 0 <= i < |front| ==> front[i] == s[i];
    }
  }

  /** A row appears in the selection exactly when it appears in the input and satisfies keep. */
  lemma {:induction false} WhereMembers<T>(s: seq<T>, keep: T -> bool)
    ensures forall x :: x in Where(s, keep) <==> x in s && keep(x)
    decreases |s|
  {
    if s != [] {
      var front := s[..|s| - 1];
      WhereMembers(front, keep);
      assert s == front + [s[|s| - 1]];
    }
  }

  /** Selecting from an extended sequence selects from the prefix and then, if kept, the last row. */
  lemma WhereSnoc<T>(s: seq<T>, keep: T -> bool)
    requires s != []
    ensures Where(s, keep) == Where(s[..|s| - 1], keep) + (if keep(s[|s| - 1]) then [s[|s| - 1]] else [])
  {
  }

  /** A mask that holds on every row keeps the whole input. */
  lemma {:induction false} WhereAll<T>(s: seq<T>, keep: T -> bool)
    requires forall i :: 0 <= i < |s| ==> keep(s[i])
    ensures Where(s, keep) == s
    decreases |s|
  {
    if s != [] {
      var front := s[..|s| - 1];
      assert forall i :: 0 <= i < |front| ==> front[i] == s[i];
      WhereAll(front, keep);
      assert s == front + [s[|s| - 1]];
    }
  }

  /** A mask that holds on no row keeps nothing. */
  lemma {:induction false} WhereNone<T>(s: seq<T>, keep: T -> bool)
    requires forall i :: 0 <= i < |s| ==> !keep(s[i])
    ensures Where(s, keep) == []
    decreases |s|
  {
    if s != [] {
      var front := s[..|s| - 1];
      assert forall i :: 0 <= i < |front| ==> front[i] == s[i];
      WhereNone(front, keep);
    }
  }
}
