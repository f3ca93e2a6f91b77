/**
 * Python's `str.split(", ")` with an explicit two-character separator:
 * the string is scanned from the left, and it is cut at every occurrence of
 * the separator that does not overlap an earlier one. Consecutive separators
 * give empty pieces, and a string without a separator (the empty string
 * included) is a single piece.
 */
module Split {

  /** The separator the connection field is split on: a comma and a space. */
  const Sep: string := ", "

  /** The separator starts at position i of s. */
  predicate SepAt(s: string, i: nat)
  {
    i + 1 < |s| && s[i] == ',' && s[i + 1] == ' '
  }

  /** s contains no occurrence of the separator. */
  predicate SepFree(s: string)
  {
    forall i: nat :: i < |s| ==> !SepAt(s, i)
  }

  /** The pieces of `s.split(", ")`, left to right. */
  function Split(s: string): (pieces: seq<string>)
    ensures |pieces| >= 1
    ensures pieces[0] <= s
    decreases |s|
  {
    if |s| < 2 then [s]
    else if SepAt(s, 0) then [""] + Split(s[2..])
    else
      var rest := Split(s[1..]);
      [[s[0]] + rest[0]] + rest[1..]
  }

  /** Python's `", ".join(pieces)`. */
  function Join(pieces: seq<string>): string
  {
    if pieces == [] then ""
    else if |pieces| == 1 then pieces[0]
    else pieces[0] + Sep + Join(pieces[1..])
  }

  /** The number of non-overlapping occurrences of the separator, counted left to right. */
  function CountSeparators(s: string): nat
    decreases |s|
  {
    if |s| < 2 then 0
    else if SepAt(s, 0) then 1 + CountSeparators(s[2..])
    else CountSeparators(s[1..])
  }

  /** There is one more piece than there are separators. */
  lemma {:induction false} SplitLength(s: string)
    ensures |Split(s)| == CountSeparators(s) + 1
    decreases |s|
  {
    if |s| < 2 {
    } else if SepAt(s, 0) {
      SplitLength(s[2..]);
    } else {
      SplitLength(s[1..]);
    }
  }

  /** Prepending characters to the first piece prepends them to the joined string. */
  lemma {:induction false} JoinPrepend(c: string, pieces: seq<string>)
    requires |pieces| >= 1
    ensures Join([c + pieces[0]] + pieces[1..]) == c + Join(pieces)
  {
    var ps := [c + pieces[0]] + pieces[1..];
    if |pieces| > 1 {
      assert ps[1..] == pieces[1..];
    }
  }

  /** Joining the pieces with the separator gives back the original string. */
  lemma {:induction false} JoinSplit(s: string)
    ensures Join(Split(s)) == s
    decreases |s|
  {
    if |s| < 2 {
    } else if SepAt(s, 0) {
      JoinSplit(s[2..]);
      var rest := Split(s[2..]);
      assert ([""] + rest)[1..] == rest;
      assert s == Sep + s[2..];
    } else {
      JoinSplit(s[1..]);
      var rest := Split(s[1..]);
      JoinPrepend([s[0]], rest);
      assert s == [s[0]] + s[1..];
    }
  }

  /** No piece of a split contains the separator. */
  lemma {:induction false} SplitPiecesSepFree(s: string)
    ensures forall k :: 0 <= k < |Split(s)| ==> SepFree(Split(s)[k])
    decreases |s|
  {
    if |s| < 2 {
    } else if SepAt(s, 0) {
      SplitPiecesSepFree(s[2..]);
      var rest := Split(s[2..]);
      forall k | 0 <= k < |[""] + rest|
        ensures SepFree(([""] + rest)[k])
      {
        if k > 0 {
          assert ([""] + rest)[k] == rest[k - 1];
        }
      }
    } else {
      SplitPiecesSepFree(s[1..]);
      var rest := Split(s[1..]);
      var first := [s[0]] + rest[0];
      assert SepFree(rest[0]);
      forall i: nat | i < |first|
        ensures !SepAt(first, i)
      {
        if i > 0 {
          assert !SepAt(rest[0], i - 1);
        } else if 1 < |first| {
          assert rest[0][0] == s[1];
        }
      }
      forall k | 0 <= k < |[first] + rest[1..]|
        ensures SepFree(([first] + rest[1..])[k])
      {
        if k > 0 {
          assert ([first] + rest[1..])[k] == rest[k];
        }
      }
    }
  }

  /** A string without a separator is a single piece. */
  lemma {:induction false} SplitSepFree(s: string)
    requires SepFree(s)
    ensures Split(s) == [s]
    decreases |s|
  {
    if |s| >= 2 {
      assert !SepAt(s, 0);
      assert SepFree(s[1..]) by {
        forall i: nat | i < |s[1..]| ensures !SepAt(s[1..], i) {
          assert !SepAt(s, i + 1);
        }
      }
      SplitSepFree(s[1..]);
      assert [s[0]] + s[1..] == s;
    }
  }

  /** When the first separator of s starts at k, the first piece is s[..k] and the rest is split after it. */
  lemma {:induction false} SplitAtFirstSep(s: string, k: nat)
    requires SepAt(s, k)
    requires forall i: nat :: i < k ==> !SepAt(s, i)
    ensures Split(s) == [s[..k]] + Split(s[k + 2..])
    decreases k
  {
    if k > 0 {
      assert !SepAt(s, 0);
      forall i: nat | i < k - 1 ensures !SepAt(s[1..], i) {
        assert !SepAt(s, i + 1);
      }
      SplitAtFirstSep(s[1..], k - 1);
      assert s[1..][k - 1 + 2..] == s[k + 2..];
      assert [s[0]] + s[1..][..k - 1] == s[..k];
    }
  }

  /** Splitting a join of separator-free pieces gives back the pieces. */
  lemma {:induction false} SplitJoin(pieces: seq<string>)
    requires |pieces| >= 1
    requires forall k :: 0 <= k < |pieces| ==> SepFree(pieces[k])
    ensures Split(Join(pieces)) == pieces
    decreases |pieces|
  {
    if |pieces| == 1 {
      SplitSepFree(pieces[0]);
    } else {
      var p, rest := pieces[0], pieces[1..];
      var s := p + Sep + Join(rest);
      var k := |p|;
      assert SepFree(p);
      forall i: nat | i < k ensures !SepAt(s, i) {
        if i + 1 < k {
          assert !SepAt(p, i);
        }
      }
      SplitAtFirstSep(s, k);
      assert s[..k] == p;
      assert s[k + 2..] == Join(rest);
      SplitJoin(rest);
      assert [p] + rest == pieces;
    }
  }

  /** The two edge cases the connection count relies on. */
  lemma SplitExamples()
    ensures Split("") == [""]
    ensures Split("a, , b") == ["a", "", "b"]
  {
    assert Split("b") == ["b"];
    assert ", b"[2..] == "b";
    assert Split(", b") == ["", "b"];
    assert ", , b"[2..] == ", b";
    assert Split(", , b") == ["", "", "b"];
    assert "a, , b"[1..] == ", , b";
    assert !SepAt("a, , b", 0);
    assert ['a'] + "" == "a";
  }
}
