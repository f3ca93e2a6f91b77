/**
 * The data-filtering core of the network dashboard: the derived
 * `ConnectionCount` column, the statistical bucket filter of
 * `display_filters`, the member-selection filter and the list of entities
 * offered for selection. A table is a sequence of rows; a row's position in
 * the sequence is its index label.
 */
module Network {
  import Split
  import Select
  import Distinct

  /** One row of the uploaded table: `Member`, `NetworkConnections` and the derived `ConnectionCount`. */
  datatype Row = Row(member: string, connections: string, count: int)

  // ---------------------------------------------------------------------------
  // Connection counter

  /** `len(x.split(', '))` for a `NetworkConnections` value x. */
  function ConnectionCount(connections: string): (n: nat)
    ensures n >= 1
    ensures n == Split.CountSeparators(connections) + 1
  {
    Split.SplitLength(connections);
    |Split.Split(connections)|
  }

  /** Every row's count is the connection count of its own `NetworkConnections` value. */
  ghost predicate CountsDerived(rows: seq<Row>)
  {
    forall i :: 0 <= i < |rows| ==> rows[i].count == ConnectionCount(rows[i].connections)
  }

  /**
   * `df['ConnectionCount'] = df['NetworkConnections'].apply(...)`: the column
   * is (re)written row by row in place; nothing else in the table changes.
   */
  method DeriveConnectionCounts(rows: array<Row>)
    modifies rows
    ensures forall i :: 0 <= i < rows.Length ==>
      rows[i].member == old(rows[i].member) && rows[i].connections == old(rows[i].connections)
    ensures CountsDerived(rows[..])
    ensures forall i :: 0 <= i < rows.Length ==> rows[i].count >= 1
  {
    var i := 0;
    while i < rows.Length
      invariant 0 <= i <= rows.Length
      invariant forall k :: 0 <= k < i ==>
        rows[k] == old(rows[k]).(count := ConnectionCount(old(rows[k]).connections))
      invariant forall k :: i <= k < rows.Length ==> rows[k] == old(rows[k])
    {
      rows[i] := rows[i].(count := ConnectionCount(rows[i].connections));
      i := i + 1;
    }
  }

  // ---------------------------------------------------------------------------
  // Column statistics

  /** The sum of the `ConnectionCount` column. */
  function Sum(rows: seq<Row>): int
    decreases |rows|
  {
    if rows == [] then 0 else Sum(rows[..|rows| - 1]) + rows[|rows| - 1].count
  }

  /** `df['ConnectionCount'].min()` of a non-empty table. */
  function MinCount(rows: seq<Row>): (m: int)
    requires |rows| > 0
    ensures forall i :: 0 <= i < |rows| ==> m <= rows[i].count
    ensures exists i :: 0 <= i < |rows| && rows[i].count == m
    decreases |rows|
  {
    if |rows| == 1 then rows[0].count
    else
      var front := rows[..|rows| - 1];
      assert forall i :: 0 <= i < |front| ==> front[i] == rows[i];
      var m := MinCount(front);
      if rows[|rows| - 1].count < m then rows[|rows| - 1].count else m
  }

  /** `df['ConnectionCount'].max()` of a non-empty table. */
  function MaxCount(rows: seq<Row>): (m: int)
    requires |rows| > 0
    ensures forall i :: 0 <= i < |rows| ==> rows[i].count <= m
    ensures exists i :: 0 <= i < |rows| && rows[i].count == m
    decreases |rows|
  {
    if |rows| == 1 then rows[0].count
    else
      var front := rows[..|rows| - 1];
      assert forall i :: 0 <= i < |front| ==> front[i] == rows[i];
      var m := MaxCount(front);
      if rows[|rows| - 1].count > m then rows[|rows| - 1].count else m
  }

  /** `df['ConnectionCount'].mean()` of a non-empty table, as an exact rational. */
  function Mean(rows: seq<Row>): real
    requires |rows| > 0
  {
    Sum(rows) as real / |rows| as real
  }

  /** Comparing c with sum / n is comparing c * n with sum, for a positive n. */
  lemma CrossMultiply(c: int, sum: int, n: int)
    requires n > 0
    ensures c as real > sum as real / n as real <==> c * n > sum
    ensures c as real < sum as real / n as real <==> c * n < sum
  {
    var m := sum as real / n as real;
    assert m * n as real == sum as real;
    assert (c * n) as real == c as real * n as real;
    assert c as real * n as real - m * n as real == (c as real - m) * n as real;
  }

  /** A count lies above the mean exactly when count * n exceeds the sum, and below it exactly when it falls short. */
  lemma MeanComparison(rows: seq<Row>, c: int)
    requires |rows| > 0
    ensures c as real > Mean(rows) <==> c * |rows| > Sum(rows)
    ensures c as real < Mean(rows) <==> c * |rows| < Sum(rows)
  {
    CrossMultiply(c, Sum(rows), |rows|);
  }

  /** When every count is c, the sum is c times the number of rows. */
  lemma {:induction false} SumOfUniform(rows: seq<Row>, c: int)
    requires forall i :: 0 <= i < |rows| ==> rows[i].count == c
    ensures Sum(rows) == c * |rows|
    decreases |rows|
  {
    if rows != [] {
      var front := rows[..|rows| - 1];
      assert forall i :: 0 <= i < |front| ==> front[i] == rows[i];
      SumOfUniform(front, c);
    }
  }

  // ---------------------------------------------------------------------------
  // Statistical bucket filter

  /** The options of the connection-count selector; `NoFilter` is the option labelled "None". */
  datatype Bucket = NoFilter | AboveAverage | BelowAverage | Minimum | Maximum

  /** The label the selector shows for each bucket. */
  function Label(b: Bucket): string
  {
    match b
    case NoFilter => "None"
    case AboveAverage => "Above Average"
    case BelowAverage => "Below Average"
    case Minimum => "Minimum"
    case Maximum => "Maximum"
  }

  /** The bucket a selected option names; an option that names none of the four buckets filters nothing. */
  function BucketOf(option: string): (b: Bucket)
    ensures b != NoFilter ==> Label(b) == option
    ensures b == NoFilter <==> forall c: Bucket :: c != NoFilter ==> Label(c) != option
  {
    if option == "Above Average" then AboveAverage
    else if option == "Below Average" then BelowAverage
    else if option == "Minimum" then Minimum
    else if option == "Maximum" then Maximum
    else NoFilter
  }

  /**
   * The mask of the bucket filter over the current table. For an empty table
   * pandas' mean, max and min are NaN and every comparison with NaN is false,
   * so the four buckets keep nothing.
   */
  predicate InBucket(b: Bucket, rows: seq<Row>, c: int)
  {
    match b
    case NoFilter => true
    case AboveAverage => |rows| > 0 && c as real > Mean(rows)
    case BelowAverage => |rows| > 0 && c as real < Mean(rows)
    case Minimum => |rows| > 0 && c == MinCount(rows)
    case Maximum => |rows| > 0 && c == MaxCount(rows)
  }

  /** The bucket's mask as a function of a row. */
  function Mask(b: Bucket, rows: seq<Row>): Row -> bool
  {
    (x: Row) => InBucket(b, rows, x.count)
  }

  /** The rows of the current table in bucket b, renumbered from 0; the table itself for `NoFilter`. */
  function ApplyBucket(rows: seq<Row>, b: Bucket): seq<Row>
  {
    if b == NoFilter then rows else Select.Where(rows, Mask(b, rows))
  }

  /** `display_filters` with the selected option as a parameter. */
  function DisplayFilters(rows: seq<Row>, option: string): seq<Row>
  {
    ApplyBucket(rows, BucketOf(option))
  }

  /** Selecting a bucket's label applies that bucket. */
  lemma DisplayFiltersByLabel(rows: seq<Row>, b: Bucket)
    ensures BucketOf(Label(b)) == b
    ensures DisplayFilters(rows, Label(b)) == ApplyBucket(rows, b)
  {
  }

  /** A bucket keeps exactly the rows at the positions whose count is in the bucket, in their original order. */
  lemma ApplyBucketSelects(rows: seq<Row>, b: Bucket)
    ensures Select.SubsequenceAt(ApplyBucket(rows, b), rows, Select.Kept(rows, Mask(b, rows)))
    ensures forall x :: x in ApplyBucket(rows, b) <==> x in rows && InBucket(b, rows, x.count)
  {
    Select.WhereAtKept(rows, Mask(b, rows));
    Select.WhereMembers(rows, Mask(b, rows));
    if b == NoFilter {
      Select.WhereAll(rows, Mask(b, rows));
    }
  }

  /** Whatever option is selected, the result is an order-preserving subsequence of the table it was computed from. */
  lemma DisplayFiltersIsSubsequence(rows: seq<Row>, option: string)
    ensures Select.IsSubsequence(DisplayFilters(rows, option), rows)
  {
    ApplyBucketSelects(rows, BucketOf(option));
  }

  /** "None", or any option that names no bucket, returns the table unchanged. */
  lemma UnknownOptionIsIdentity(rows: seq<Row>, option: string)
    requires forall b: Bucket :: b != NoFilter ==> Label(b) != option
    ensures DisplayFilters(rows, option) == rows
  {
  }

  /** Above Average keeps exactly the rows with count * n > sum, and Below Average those with count * n < sum. */
  lemma AverageBucketsByCrossMultiplication(rows: seq<Row>)
    ensures forall x :: x in ApplyBucket(rows, AboveAverage) <==> x in rows && x.count * |rows| > Sum(rows)
    ensures forall x :: x in ApplyBucket(rows, BelowAverage) <==> x in rows && x.count * |rows| < Sum(rows)
  {
    ApplyBucketSelects(rows, AboveAverage);
    ApplyBucketSelects(rows, BelowAverage);
    if |rows| > 0 {
      forall x | x in rows
        ensures InBucket(AboveAverage, rows, x.count) <==> x.count * |rows| > Sum(rows)
        ensures InBucket(BelowAverage, rows, x.count) <==> x.count * |rows| < Sum(rows)
      {
        MeanComparison(rows, x.count);
      }
    }
  }

  /** No row is both above and below the average, and a row whose count equals the mean is in neither. */
  lemma AverageBucketsDisjoint(rows: seq<Row>)
    ensures forall x :: x in ApplyBucket(rows, AboveAverage) ==> x !in ApplyBucket(rows, BelowAverage)
    ensures forall x :: x in rows && x.count * |rows| == Sum(rows) ==>
      x !in ApplyBucket(rows, AboveAverage) && x !in ApplyBucket(rows, BelowAverage)
  {
    AverageBucketsByCrossMultiplication(rows);
  }

  /** Minimum keeps every row tied at the smallest count: it is non-empty for a non-empty table and all its counts are equal. */
  lemma MinimumKeepsAllTies(rows: seq<Row>)
    requires |rows| > 0
    ensures forall x :: x in ApplyBucket(rows, Minimum) <==> x in rows && x.count == MinCount(rows)
    ensures forall x, y :: x in ApplyBucket(rows, Minimum) && y in rows ==> x.count <= y.count
    ensures ApplyBucket(rows, Minimum) != []
  {
    ApplyBucketSelects(rows, Minimum);
    var i :| 0 <= i < |rows| && rows[i].count == MinCount(rows);
    assert rows[i] in ApplyBucket(rows, Minimum);
  }

  /** Maximum keeps every row tied at the largest count: it is non-empty for a non-empty table and all its counts are equal. */
  lemma MaximumKeepsAllTies(rows: seq<Row>)
    requires |rows| > 0
    ensures forall x :: x in ApplyBucket(rows, Maximum) <==> x in rows && x.count == MaxCount(rows)
    ensures forall x, y :: x in ApplyBucket(rows, Maximum) && y in rows ==> x.count >= y.count
    ensures ApplyBucket(rows, Maximum) != []
  {
    ApplyBucketSelects(rows, Maximum);
    var i :| 0 <= i < |rows| && rows[i].count == MaxCount(rows);
    assert rows[i] in ApplyBucket(rows, Maximum);
  }

  /** On an empty table every option gives an empty table, like the NaN comparisons of pandas. */
  lemma EmptyTableBuckets(rows: seq<Row>, b: Bucket)
    requires rows == []
    ensures ApplyBucket(rows, b) == []
  {
  }

  /** When all counts are equal, Minimum and Maximum both return the whole table. */
  lemma UniformCountsExtremes(rows: seq<Row>, c: int)
    requires forall i :: 0 <= i < |rows| ==> rows[i].count == c
    ensures ApplyBucket(rows, Minimum) == rows
    ensures ApplyBucket(rows, Maximum) == rows
  {
    if |rows| > 0 {
      Select.WhereAll(rows, Mask(Minimum, rows));
      Select.WhereAll(rows, Mask(Maximum, rows));
    }
  }

  /** When all counts are equal, Above Average and Below Average both return nothing. */
  lemma UniformCountsAverages(rows: seq<Row>, c: int)
    requires forall i :: 0 <= i < |rows| ==> rows[i].count == c
    ensures ApplyBucket(rows, AboveAverage) == []
    ensures ApplyBucket(rows, BelowAverage) == []
  {
    if |rows| > 0 {
      SumOfUniform(rows, c);
      MeanComparison(rows, c);
      Select.WhereNone(rows, Mask(AboveAverage, rows));
      Select.WhereNone(rows, Mask(BelowAverage, rows));
    }
  }

  // ---------------------------------------------------------------------------
  // Member-selection filter and the entities offered for selection

  /**
   * `df[(df['Member'] == sel) | (df['NetworkConnections'] == sel)]`: the
   * `NetworkConnections` value is compared whole, without splitting, and the
   * rows keep their original index labels.
   */
  function MemberFilter(rows: seq<Row>, selected: string): seq<Row>
  {
    Select.Where(rows, (x: Row) => x.member == selected || x.connections == selected)
  }

  /** The member filter keeps exactly the matching rows, in original order, at their original positions. */
  lemma MemberFilterSelects(rows: seq<Row>, selected: string)
    ensures Select.SubsequenceAt(MemberFilter(rows, selected), rows,
      Select.Kept(rows, (x: Row) => x.member == selected || x.connections == selected))
    ensures forall x :: x in MemberFilter(rows, selected) <==>
      x in rows && (x.member == selected || x.connections == selected)
  {
    Select.WhereAtKept(rows, (x: Row) => x.member == selected || x.connections == selected);
    Select.WhereMembers(rows, (x: Row) => x.member == selected || x.connections == selected);
  }

  /** The `Member` column. */
  function Members(rows: seq<Row>): seq<string>
  {
    seq(|rows|, i requires 0 <= i < |rows| => rows[i].member)
  }

  /** The `NetworkConnections` column, whole strings. */
  function ConnectionValues(rows: seq<Row>): seq<string>
  {
    seq(|rows|, i requires 0 <= i < |rows| => rows[i].connections)
  }

  /** `pd.concat([df['Member'], df['NetworkConnections']]).unique()`. */
  function EntityList(rows: seq<Row>): seq<string>
  {
    Distinct.Unique(Members(rows) + ConnectionValues(rows))
  }

  /** The entity list has no duplicates and holds exactly the members and the whole connection values. */
  lemma EntityListContents(rows: seq<Row>)
    ensures Distinct.NoDuplicates(EntityList(rows))
    ensures forall e :: e in EntityList(rows) <==> e in Members(rows) || e in ConnectionValues(rows)
    ensures forall e :: e in Members(rows) <==> exists i :: 0 <= i < |rows| && rows[i].member == e
    ensures forall e :: e in ConnectionValues(rows) <==> exists i :: 0 <= i < |rows| && rows[i].connections == e
  {
    var ms, cs := Members(rows), ConnectionValues(rows);
    Distinct.UniqueMembers(ms + cs);
    forall e ensures e in ms <==> exists i :: 0 <= i < |rows| && rows[i].member == e {
      if e in ms {
        var i :| 0 <= i < |ms| && ms[i] == e;
        assert rows[i].member == e;
      } else {
        forall i | 0 <= i < |rows| ensures rows[i].member != e {
          assert ms[i] == rows[i].member;
        }
      }
    }
    forall e ensures e in cs <==> exists i :: 0 <= i < |rows| && rows[i].connections == e {
      if e in cs {
        var i :| 0 <= i < |cs| && cs[i] == e;
        assert rows[i].connections == e;
      } else {
        forall i | 0 <= i < |rows| ensures rows[i].connections != e {
          assert cs[i] == rows[i].connections;
        }
      }
    }
  }

  /**
   * The entity list is in order of first appearance, scanning all members
   * before all connection values: every member comes before every value
   * that occurs only as a connection value.
   */
  lemma EntityListOrder(rows: seq<Row>)
    ensures forall i, j :: 0 <= i < j < |EntityList(rows)| ==>
      Distinct.FirstIndex(Members(rows) + ConnectionValues(rows), EntityList(rows)[i]) <
      Distinct.FirstIndex(Members(rows) + ConnectionValues(rows), EntityList(rows)[j])
    ensures forall m, c :: m in Members(rows) && c !in Members(rows) && c in ConnectionValues(rows) ==>
      && m in EntityList(rows) && c in EntityList(rows)
      && Distinct.FirstIndex(EntityList(rows), m) < Distinct.FirstIndex(EntityList(rows), c)
  {
    Distinct.UniqueInFirstAppearanceOrder(Members(rows) + ConnectionValues(rows));
    forall m, c | m in Members(rows) && c !in Members(rows) && c in ConnectionValues(rows)
      ensures && m in EntityList(rows) && c in EntityList(rows)
              && Distinct.FirstIndex(EntityList(rows), m) < Distinct.FirstIndex(EntityList(rows), c)
    {
      Distinct.ConcatFirstPartFirst(Members(rows), ConnectionValues(rows), m, c);
    }
  }

  /** Every entity offered for selection selects at least one row. */
  lemma SelectableEntitiesSelectRows(rows: seq<Row>, e: string)
    requires e in EntityList(rows)
    ensures MemberFilter(rows, e) != []
  {
    EntityListContents(rows);
    MemberFilterSelects(rows, e);
    var i :| 0 <= i < |rows| && (rows[i].member == e || rows[i].connections == e);
    assert rows[i] in MemberFilter(rows, e);
  }

  // ---------------------------------------------------------------------------
  // Worked examples

  /** The connection fields "B, C" and "C" count 2 and 1 connections. */
  lemma TwoRowCounts()
    ensures ConnectionCount("B, C") == 2 && ConnectionCount("C") == 1
  {
    assert Split.CountSeparators("B, C") == 1 by {
      assert !Split.SepAt("B, C", 0);
      assert "B, C"[1..] == ", C";
      assert ", C"[2..] == "C";
    }
  }

  /** In the table of rows ("A", "B, C", 2) and ("B", "C", 1), Maximum keeps only the first row and Minimum only the second. */
  lemma TwoRowBuckets()
    ensures DisplayFilters([Row("A", "B, C", 2), Row("B", "C", 1)], "Maximum") == [Row("A", "B, C", 2)]
    ensures DisplayFilters([Row("A", "B, C", 2), Row("B", "C", 1)], "Minimum") == [Row("B", "C", 1)]
  {
    var rows := [Row("A", "B, C", 2), Row("B", "C", 1)];
    assert rows[..1] == [Row("A", "B, C", 2)];
    assert rows[..1][..0] == [];
    assert MaxCount(rows) == 2;
    assert MinCount(rows) == 1;
    DisplayFiltersByLabel(rows, Maximum);
    DisplayFiltersByLabel(rows, Minimum);
    var most, least := Mask(Maximum, rows), Mask(Minimum, rows);
    assert most(rows[0]) && !most(rows[1]);
    assert !least(rows[0]) && least(rows[1]);
    Select.WhereSnoc(rows, most);
    Select.WhereSnoc(rows[..1], most);
    Select.WhereSnoc(rows, least);
    Select.WhereSnoc(rows[..1], least);
  }

  /** In the same table, selecting "B" finds only the second row: the "B" inside "B, C" is not split out. */
  lemma TwoRowMemberExample()
    ensures MemberFilter([Row("A", "B, C", 2), Row("B", "C", 1)], "B") == [Row("B", "C", 1)]
  {
    var rows := [Row("A", "B, C", 2), Row("B", "C", 1)];
    assert rows[..1] == [Row("A", "B, C", 2)];
    assert MemberFilter(rows[..1], "B") == [];
  }
}
