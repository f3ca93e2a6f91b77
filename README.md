# Network dashboard data core, modelled in Dafny

The dashboard in `main.py` loads a CSV of network rows (`Member`,
`NetworkConnections`), derives a `ConnectionCount` column, and lets the user
either pick one entity to see its rows or pick a statistical bucket of the
connection count. This project models the data logic behind those screens
as operations on a sequence of rows `Row(member, connections, count)`:

- **Connection counter** (`Network.ConnectionCount`, `Network.DeriveConnectionCounts`):
  `len(x.split(', '))`. The split is modelled exactly, as Python's
  `str.split` with the two-character separator `", "` (module `Split`):
  the string is cut at every non-overlapping occurrence of the separator,
  scanning from the left. The column assignment changes the table in place,
  so it is a method that rewrites an `array<Row>` one row at a time.
- **Bucket filter** (`display_filters`, `Network.DisplayFilters` and
  `Network.ApplyBucket`): the selected option is a string parameter.
  `"Above Average"`, `"Below Average"`, `"Minimum"` and `"Maximum"` select
  a bucket. Any other string, including `"None"`, returns the table as it
  is. The mean is an exact rational, `Sum / n`. The lemmas show that it
  compares like the integer cross-multiplication `count * n` against `Sum`.
  Each bucket is a boolean-mask selection, modelled generically in module
  `Select`. A sequence is positional, so the renumbering that
  `reset_index(drop=True)` does is built in.
- **Member filter** (`Network.MemberFilter`): the rows whose `Member`
  equals the selection, or whose whole `NetworkConnections` string does.
  The string is not split. The rows keep their original index labels,
  which are the positions `Select.Kept` returns.
- **Entity list** (`Network.EntityList`): `pd.unique` of all members
  followed by all whole connection strings, modelled in module `Distinct`.
  It gives the distinct values in order of first appearance.

`pd.unique` and the member filter compare the whole `NetworkConnections`
string (main.py:95, 99); `Network.TwoRowMemberExample` shows the effect.

Statistics follow the pandas behaviour of the current table. For an empty
table the mean, max and min are NaN and every comparison with NaN is false,
so every bucket except the unfiltered one returns an empty table. `InBucket`
encodes this with a `|rows| > 0` guard.

`Sum`, `Mean`, `Label`, `Mask`, `ApplyBucket`, `DisplayFilters`,
`MemberFilter`, `Members`, `ConnectionValues` and `EntityList` are
definitions without a contract of their own. The lemmas below state what
they compute.

## Model

| member | source | states |
|---|---|---|
| Split.Split | main.py:93 | `str.split(", ")` always yields at least one piece, and the first piece is a prefix of the string |
| Split.SplitLength | main.py:93 | the number of pieces is the number of non-overlapping separators plus one |
| Split.JoinSplit | main.py:93 | joining the pieces with `", "` gives back the original string (no character is lost or invented) |
| Split.SplitPiecesSepFree | main.py:93 | no piece contains the separator |
| Split.SplitJoin | main.py:93 | splitting a join of separator-free pieces gives back exactly those pieces, so the split is the unique such decomposition |
| Split.SplitExamples | main.py:93 | the empty string is one (empty) piece; `"a, , b"` gives three pieces, the middle one empty |
| Network.ConnectionCount | main.py:93 | each row's count is at least 1 and equals the number of non-overlapping `", "` occurrences plus one |
| Network.DeriveConnectionCounts | main.py:93 | after the column assignment every row's count is the connection count of its own `NetworkConnections` string (so at least 1); `Member`, `NetworkConnections` and the number of rows are unchanged |
| Network.MinCount | main.py:17 | the minimum is a lower bound of every count and is attained by some row |
| Network.MaxCount | main.py:16 | the maximum is an upper bound of every count and is attained by some row |
| Network.CrossMultiply | main.py:24-30 | for a positive row count n, c > sum / n exactly when c * n > sum, and c < sum / n exactly when c * n < sum |
| Network.MeanComparison | main.py:15 | a count is above (below) the mean exactly when count * n is greater (less) than the sum |
| Network.BucketOf | main.py:24-40 | a string selects a bucket only when it is that bucket's label; every other option, "None" included, selects no filtering |
| Network.DisplayFiltersByLabel | main.py:19-38 | selecting a bucket's label applies that bucket |
| Network.ApplyBucketSelects | main.py:24-38 | a bucket result is exactly the rows at the positions whose count is in the bucket, in original order, renumbered from 0 |
| Network.DisplayFiltersIsSubsequence | main.py:24-40 | for every option the result is an order-preserving subsequence of the current table |
| Network.UnknownOptionIsIdentity | main.py:40 | "None" or any option that names no bucket returns the table unchanged |
| Network.AverageBucketsByCrossMultiplication | main.py:24-30 | Above Average keeps exactly the rows with count * n > sum, Below Average exactly those with count * n < sum |
| Network.AverageBucketsDisjoint | main.py:24-30 | no row is in both Above and Below Average, and a row whose count equals the mean is in neither |
| Network.MinimumKeepsAllTies | main.py:32-34 | Minimum keeps every row whose count equals the minimum (all ties), is non-empty for a non-empty table, and its counts are all equal |
| Network.MaximumKeepsAllTies | main.py:36-38 | Maximum keeps every row whose count equals the maximum (all ties), is non-empty for a non-empty table, and its counts are all equal |
| Network.EmptyTableBuckets | main.py:15-38 | on an empty table every option gives an empty table |
| Network.UniformCountsExtremes | main.py:32-38 | when all counts are equal, Minimum and Maximum both return the whole table |
| Network.UniformCountsAverages | main.py:24-30 | when all counts are equal, Above and Below Average both return an empty table |
| Network.MemberFilterSelects | main.py:99 | the member filter keeps exactly the rows whose `Member` or whole `NetworkConnections` equals the selection, in original order and at their original index labels |
| Network.EntityListContents | main.py:95 | the entity list has no duplicates and contains exactly the members and the whole connection strings |
| Network.EntityListOrder | main.py:95 | entities are listed in order of first appearance over all members followed by all connection strings, so every member precedes every value that occurs only as a connection |
| Network.SelectableEntitiesSelectRows | main.py:95-99 | every entity offered for selection selects at least one row |
| Network.TwoRowCounts | main.py:93 | the connection fields "B, C" and "C" count 2 and 1 connections |
| Network.TwoRowBuckets | main.py:32-38 | for rows ("A", "B, C", 2) and ("B", "C", 1), Maximum keeps only the first row, Minimum only the second |
| Network.TwoRowMemberExample | main.py:99 | in that table, selecting "B" finds only the second row, because "B, C" is compared whole |
| Select.Where | main.py:25 | a mask selection is never longer than its input (its exact contents are stated by `Select.WhereAtKept` and `Select.WhereMembers`) |
| Select.Kept | main.py:25 | the kept positions are increasing, in range, and are exactly the positions where the mask holds |
| Select.WhereAtKept | main.py:25-37 | the j-th selected row is the input row at the j-th kept position |
| Select.WhereMembers | main.py:25-37 | a row is selected exactly when it is in the input and satisfies the mask |
| Select.WhereAll | main.py:40 | a mask true on every row keeps the whole input |
| Select.WhereNone | main.py:25-29 | a mask true on no row keeps nothing |
| Distinct.Unique | main.py:95 | `pd.unique` keeps every value of its input, invents none, and has no duplicates |
| Distinct.UniqueMembers | main.py:95 | a value is listed exactly when it occurs in the input |
| Distinct.UniqueInFirstAppearanceOrder | main.py:95 | the distinct values are listed in strictly increasing order of first appearance |
| Distinct.UniqueIsDetermined | main.py:95 | any duplicate-free list of exactly the input's values in order of first appearance equals `Unique`, so those three properties fully specify `pd.unique` |
| Distinct.ConcatFirstPartFirst | main.py:95 | in the distinct values of a concatenation, a value of the first part precedes every value found only in the second |

## Left out

- The Streamlit user interface is left out: title, sidebar, file uploader, select boxes, `st.dataframe`, download button and warning (main.py:19-22, 87-109). It is UI plumbing. The selected filter option is kept as a parameter.
- The dispatch in `main` is left out (main.py:96-109). This covers the `'All'` entry of the entity selector and the empty-result warning. It is UI control flow.
- `load_data` is left out (main.py:7-10). It is `pd.read_csv` behind `@st.cache_data`, that is, file I/O and caching in a foreign library.
- `visualize_network` is left out (main.py:43-82). It builds a pyvis graph, sets its options and writes and reads an HTML file. That is rendering and file I/O with no decision logic.
- CSV re-serialisation and UTF-8 encoding of the download are left out (main.py:105).
- Floating-point mean semantics are left out. pandas computes the mean as a float, which may round for very large sums. The model uses the exact rational mean, which is equivalent to integer cross-multiplication.
- Fixed-width integers are left out. Counts are unbounded integers, which matches Python's `len`; pandas stores the column as int64.
- Missing columns and non-string (NaN) `NetworkConnections` values are left out. Both crash the source with an unrecovered exception. `pd.read_csv` reads an empty CSV field as NaN by default, so the empty-string case of `Network.ConnectionCount` and `Split.SplitExamples` (one empty piece, count 1) holds for `str.split` but is not reachable from a loaded table: there it ends in that crash.
- Network.EntityListContents and Network.SelectableEntitiesSelectRows assume that `pd.read_csv` reads both columns as strings. Two other cases are not modelled. A blank `Member` cell becomes NaN, which is listed once but equals nothing, so selecting it shows no rows. An all-numeric `Member` column becomes int64, and its values never equal a string connection value, so equal-looking entries are listed twice and match different rows. The de-duplication and the "selects a row" property hold only for tables read as strings. A member literally named `"All"` is listed, but selecting it takes the bucket path (main.py:98); the lemma is about `MemberFilter`, not the screen.
- CSV columns other than `Member` and `NetworkConnections` (for example `Relationship`, read at main.py:50) are not modelled. They travel with their row through every selection, and no filter decision depends on them.
- The network-strength percentage and the team aggregation are not part of this model. Neither appears in main.py.
