/** A sorted index, and the three whole-index counts that sqlite_stat4 records for a row. */
module IndexRows {
  import opened PrefixGroups

  /** Column values are ranked by the index's collations and sort orders; the rank is the int. */
  datatype Row = Row(key: seq<int>, rowid: int)

  /** Leftmost column, from column d on, in which the keys differ; |a| if there is none. */
  function FirstDiff(a: seq<int>, b: seq<int>, d: nat): (i: nat)
    requires |a| == |b| && d <= |a|
    ensures d <= i <= |a|
    ensures forall x :: d <= x < i ==> a[x] == b[x]
    ensures i < |a| ==> a[i] != b[i]
    decreases |a| - d
  {
    if d == |a| || a[d] != b[d] then d else FirstDiff(a, b, d + 1)
  }

  /** Keys agree on the first m columns. */
  ghost predicate SameOn(a: seq<int>, b: seq<int>, m: nat)
    requires |a| == |b| && m <= |a|
  {
    FirstDiff(a, b, 0) >= m
  }

  /** Key a precedes key b, columns compared left to right, first m columns only. */
  ghost predicate LessOn(a: seq<int>, b: seq<int>, m: nat)
    requires |a| == |b| && m <= |a|
  {
    var d := FirstDiff(a, b, 0);
    d < m && a[d] < b[d]
  }

  lemma LessTransitive(a: seq<int>, b: seq<int>, c: seq<int>, m: nat)
    requires |a| == |b| == |c| && m <= |a|
    ensures LessOn(a, b, m) && LessOn(b, c, m) ==> LessOn(a, c, m)
    ensures LessOn(a, b, m) && SameOn(b, c, m) ==> LessOn(a, c, m)
    ensures SameOn(a, b, m) && LessOn(b, c, m) ==> LessOn(a, c, m)
    ensures SameOn(a, b, m) && SameOn(b, c, m) ==> SameOn(a, c, m)
  {
  }

  /** Full keys distinct and ascending. */
  ghost predicate IsIndex(rows: seq<Row>, nCol: nat) {
    && nCol > 0
    && Wide(rows, nCol)
    && (forall i, k {:trigger LessOn(rows[i].key, rows[k].key, nCol)} :: 0 <= i < k < |rows| && k == i + 1 ==>
          LessOn(rows[i].key, rows[k].key, nCol))
  }

  /** What the scan passes to stat_push for row k: the leftmost column to differ from row k-1. */
  function ChangesOf(rows: seq<Row>, nCol: nat): (c: seq<nat>)
    requires Wide(rows, nCol)
    ensures |c| == |rows|
  {
    seq(|rows|, k requires 0 <= k < |rows| => if k == 0 then 0 else FirstDiff(rows[k - 1].key, rows[k].key, 0))
  }

  /** An index together with the change columns of its rows. */
  ghost predicate Scanned(rows: seq<Row>, nCol: nat, c: seq<nat>) {
    && IsIndex(rows, nCol) && Changes(c, nCol) && |c| == |rows|
    && (forall i, k {:trigger LessOn(rows[i].key, rows[k].key, nCol)} :: 0 <= i < k < |rows| && k == i + 1 ==>
          c[k] == FirstDiff(rows[i].key, rows[k].key, 0))
  }

  ghost predicate Same(rows: seq<Row>, k: nat, r: nat, j: nat)
    requires k < |rows| && r < |rows| && j < |rows[k].key| == |rows[r].key|
  {
    SameOn(rows[k].key, rows[r].key, j + 1)
  }

  ghost predicate Less(rows: seq<Row>, k: nat, r: nat, j: nat)
    requires k < |rows| && r < |rows| && j < |rows[k].key| == |rows[r].key|
  {
    LessOn(rows[k].key, rows[r].key, j + 1)
  }

  predicate Wide(rows: seq<Row>, nCol: nat) {
    forall k :: 0 <= k < |rows| ==> |rows[k].key| == nCol
  }

  /** Rows equal to row r on columns 0..j. */
  ghost function RowsEqual(rows: seq<Row>, nCol: nat, r: nat, j: nat): set<nat>
    requires r < |rows| && Wide(rows, nCol) && j < nCol
  {
    set k: nat | k < |rows| && Same(rows, k, r, j)
  }

  /** Rows less than row r on columns 0..j. */
  ghost function RowsLess(rows: seq<Row>, nCol: nat, r: nat, j: nat): set<nat>
    requires r < |rows| && Wide(rows, nCol) && j < nCol
  {
    set k: nat | k < |rows| && Less(rows, k, r, j)
  }

  /** Distinct values on columns 0..j that are less than row r's. */
  ghost function PrefixesLess(rows: seq<Row>, nCol: nat, r: nat, j: nat): set<seq<int>>
    requires r < |rows| && Wide(rows, nCol) && j < nCol
  {
    set k: nat | k < |rows| && Less(rows, k, r, j) :: rows[k].key[..j + 1]
  }

  lemma ChangesAreChanges(rows: seq<Row>, nCol: nat)
    requires IsIndex(rows, nCol)
    ensures Scanned(rows, nCol, ChangesOf(rows, nCol))
  {
    forall k | 0 < k < |rows|
      ensures ChangesOf(rows, nCol)[k] < nCol
    {
      assert LessOn(rows[k - 1].key, rows[k].key, nCol);
    }
  }

  /** Along the index rows ascend, and stay equal exactly within a group. */
  lemma {:induction false} Ascending(rows: seq<Row>, nCol: nat, c: seq<nat>, k: nat, i: nat, j: nat)
    requires Scanned(rows, nCol, c) && k <= i < |rows| && j < nCol
    ensures Start(c, j, i) <= k ==> Same(rows, k, i, j)
    ensures Start(c, j, i) > k ==> Less(rows, k, i, j)
  {
    if k < i {
      Ascending(rows, nCol, c, k, i - 1, j);
      assert LessOn(rows[i - 1].key, rows[i].key, nCol);
      LessTransitive(rows[k].key, rows[i - 1].key, rows[i].key, j + 1);
    }
  }

  /** The group of row r on columns 0..j, by positions. */
  lemma GroupByPosition(rows: seq<Row>, nCol: nat, c: seq<nat>, r: nat, k: nat, j: nat)
    requires Scanned(rows, nCol, c) && r < |rows| && k < |rows| && j < nCol
    ensures Less(rows, k, r, j) <==> k < Start(c, j, r)
    ensures Same(rows, k, r, j) <==> Start(c, j, r) <= k && (k <= r || Start(c, j, k) <= r)
  {
    if k <= r {
      Ascending(rows, nCol, c, k, r, j);
    } else {
      Ascending(rows, nCol, c, r, k, j);
      StartMonotoneInRow(c, j, r, k);
      SymmetricOn(rows[k].key, rows[r].key, j + 1);
    }
  }

  lemma SymmetricOn(a: seq<int>, b: seq<int>, m: nat)
    requires |a| == |b| && m <= |a|
    ensures SameOn(a, b, m) == SameOn(b, a, m)
    ensures LessOn(a, b, m) ==> !LessOn(b, a, m) && !SameOn(b, a, m)
  {
  }

  ghost function Below(n: nat): (s: set<nat>)
    ensures |s| == n && forall k: nat :: k in s <==> k < n
  {
    if n == 0 then {} else Below(n - 1) + {n - 1}
  }

  /** nLt: the rows before the group. */
  lemma CountLess(rows: seq<Row>, nCol: nat, c: seq<nat>, r: nat, j: nat)
    requires Scanned(rows, nCol, c) && r < |rows| && j < nCol
    ensures Start(c, j, r) == |RowsLess(rows, nCol, r, j)|
  {
    forall k: nat | k < |rows|
      ensures k in RowsLess(rows, nCol, r, j) <==> k < Start(c, j, r)
    {
      GroupByPosition(rows, nCol, c, r, k, j);
    }
    assert RowsLess(rows, nCol, r, j) == Below(Start(c, j, r));
  }

  /** Rows of r's group among the first n. */
  ghost function MembersUpTo(c: seq<nat>, j: nat, r: nat, n: nat): set<nat>
    requires r < n <= |c| && c[0] == 0
  {
    set k: nat | k < n && Start(c, j, r) <= k && (k <= r || Start(c, j, k) <= r)
  }

  lemma {:induction false} MembersCount(c: seq<nat>, j: nat, r: nat, n: nat)
    requires r < n <= |c| && c[0] == 0
    ensures |MembersUpTo(c, j, r, n)| == Size(c, j, r, n)
    decreases n
  {
    if n == r + 1 {
      FirstMembers(c, j, r);
    } else {
      MembersCount(c, j, r, n - 1);
      MembersStep(c, j, r, n);
    }
  }

  /** The rows of the group that are not after r. */
  lemma FirstMembers(c: seq<nat>, j: nat, r: nat)
    requires r < |c| && c[0] == 0
    ensures |MembersUpTo(c, j, r, r + 1)| == r + 1 - Start(c, j, r)
  {
    var g := Start(c, j, r);
    assert MembersUpTo(c, j, r, r + 1) == Below(r + 1) - Below(g);
    assert Below(g) <= Below(r + 1);
  }

  lemma MembersStep(c: seq<nat>, j: nat, r: nat, n: nat)
    requires r + 1 < n <= |c| && c[0] == 0
    ensures |MembersUpTo(c, j, r, n)| == |MembersUpTo(c, j, r, n - 1)| + (if Start(c, j, n - 1) <= r then 1 else 0)
  {
    assert MembersUpTo(c, j, r, n) == MembersUpTo(c, j, r, n - 1) + (if Start(c, j, n - 1) <= r then {n - 1} else {});
  }

  /** nEq: the size of the group. */
  lemma CountEqual(rows: seq<Row>, nCol: nat, c: seq<nat>, r: nat, j: nat)
    requires Scanned(rows, nCol, c) && r < |rows| && j < nCol
    ensures Size(c, j, r, |rows|) == |RowsEqual(rows, nCol, r, j)|
  {
    forall k: nat | k < |rows|
      ensures k in RowsEqual(rows, nCol, r, j) <==> k in MembersUpTo(c, j, r, |rows|)
    {
      GroupByPosition(rows, nCol, c, r, k, j);
    }
    assert RowsEqual(rows, nCol, r, j) == MembersUpTo(c, j, r, |rows|);
    MembersCount(c, j, r, |rows|);
  }

  lemma NoneBelowFirst(rows: seq<Row>, nCol: nat, c: seq<nat>, j: nat)
    requires Scanned(rows, nCol, c) && 0 < |rows| && j < nCol
    ensures PrefixesLess(rows, nCol, 0, j) == {}
  {
    forall k: nat | k < |rows|
      ensures !Less(rows, k, 0, j)
    {
      GroupByPosition(rows, nCol, c, 0, k, j);
    }
  }

  lemma {:induction false} CollectLess(rows: seq<Row>, nCol: nat, c: seq<nat>, r: nat, j: nat) returns (s: set<seq<int>>)
    requires Scanned(rows, nCol, c) && r < |rows| && j < nCol
    ensures s == PrefixesLess(rows, nCol, r, j)
    ensures |s| == Before(c, j, r)
  {
    hide PrefixesLess;
    if r == 0 {
      NoneBelowFirst(rows, nCol, c, j);
      return {};
    }
    var s0 := CollectLess(rows, nCol, c, r - 1, j);
    LessGrows(rows, nCol, c, r, j);
    if c[r] > j {
      return s0;
    }
    return s0 + {rows[r - 1].key[..j + 1]};
  }

  /** nDLt: the groups before. */
  lemma CountDistinctLess(rows: seq<Row>, nCol: nat, c: seq<nat>, r: nat, j: nat)
    requires Scanned(rows, nCol, c) && r < |rows| && j < nCol
    ensures Before(c, j, r) == |PrefixesLess(rows, nCol, r, j)|
  {
    var _ := CollectLess(rows, nCol, c, r, j);
  }

  /** From one row to the next the lesser values gain the old row's, if the rows differ on 0..j. */
  lemma LessGrows(rows: seq<Row>, nCol: nat, c: seq<nat>, r: nat, j: nat)
    requires Scanned(rows, nCol, c) && 0 < r < |rows| && j < nCol
    ensures rows[r - 1].key[..j + 1] !in PrefixesLess(rows, nCol, r - 1, j)
    ensures c[r] <= j ==> PrefixesLess(rows, nCol, r, j) == PrefixesLess(rows, nCol, r - 1, j) + {rows[r - 1].key[..j + 1]}
    ensures c[r] > j ==> PrefixesLess(rows, nCol, r, j) == PrefixesLess(rows, nCol, r - 1, j)
  {
    var x := rows[r - 1].key[..j + 1];
    forall k: nat | k < |rows|
      ensures Less(rows, k, r, j) <==> Less(rows, k, r - 1, j) || (c[r] <= j && rows[k].key[..j + 1] == x)
      ensures Less(rows, k, r - 1, j) ==> rows[k].key[..j + 1] != x
    {
      GroupByPosition(rows, nCol, c, r, k, j);
      GroupByPosition(rows, nCol, c, r - 1, k, j);
      SameIsEqualPrefix(rows[k].key, rows[r - 1].key, j + 1);
      if k > r {
        StartMonotoneInRow(c, j, r, k);
      }
    }
  }

  lemma SameIsEqualPrefix(a: seq<int>, b: seq<int>, m: nat)
    requires |a| == |b| && m <= |a|
    ensures SameOn(a, b, m) <==> a[..m] == b[..m]
  {
    var d := FirstDiff(a, b, 0);
    if d < m {
      assert a[..m][d] != b[..m][d];
    }
  }
}
