/** Prefix groups of a sorted index, told from the change columns alone.

    The scan hands the accumulator, for each row, the leftmost column in which it differs from
    the row before.  Everything the statistics mean - where a group of rows equal on the first
    j+1 columns starts, how many rows it has, how many groups came before - is a function of
    those change columns.  Module IndexRows relates them to the rows themselves. */
module PrefixGroups {

  ghost predicate Changes(c: seq<nat>, nCol: nat) {
    && 0 < nCol
    && (|c| > 0 ==> c[0] == 0)
    && forall k :: 0 <= k < |c| ==> c[k] < nCol
  }

  /** First row of the group that row i belongs to when rows are compared on columns 0..j. */
  ghost function Start(c: seq<nat>, j: nat, i: nat): (g: nat)
    requires i < |c| && c[0] == 0
    ensures g <= i
  {
    if c[i] <= j then i else Start(c, j, i - 1)
  }

  /** Number of groups (on columns 0..j) that end before the group of row i. */
  ghost function Before(c: seq<nat>, j: nat, i: nat): nat
    requires i < |c|
  {
    if i == 0 then 0 else Before(c, j, i - 1) + (if c[i] <= j then 1 else 0)
  }

  /** Rows up to and including row i that are in row i's group. */
  ghost function Running(c: seq<nat>, j: nat, i: nat): nat
    requires i < |c| && c[0] == 0
  {
    i + 1 - Start(c, j, i)
  }

  /** Rows among the first n that are in the group of row r. */
  ghost function Size(c: seq<nat>, j: nat, r: nat, n: nat): nat
    requires r < n <= |c| && c[0] == 0
    decreases n
  {
    if n == r + 1 then Running(c, j, r)
    else Size(c, j, r, n - 1) + (if Start(c, j, n - 1) <= r then 1 else 0)
  }

  /** Row r is in the group that the last of the first n rows is in. */
  ghost predicate Open(c: seq<nat>, j: nat, r: nat, n: nat)
    requires r < n <= |c| && c[0] == 0
  {
    Start(c, j, n - 1) <= r
  }

  /** A coarser prefix has a group that starts no later. */
  lemma {:induction false} StartMonotone(c: seq<nat>, j: nat, j': nat, i: nat)
    requires i < |c| && c[0] == 0 && j <= j'
    ensures Start(c, j, i) <= Start(c, j', i)
  {
    if c[i] > j' {
      StartMonotone(c, j, j', i - 1);
    }
  }

  /** All rows of a group agree on where the group starts. */
  lemma {:induction false} StartOfMember(c: seq<nat>, j: nat, r: nat, i: nat)
    requires r <= i < |c| && c[0] == 0 && Start(c, j, i) <= r
    ensures Start(c, j, r) == Start(c, j, i)
  {
    if r < i {
      StartOfMember(c, j, r, i - 1);
    }
  }

  lemma {:induction false} StartMonotoneInRow(c: seq<nat>, j: nat, r: nat, i: nat)
    requires r <= i < |c| && c[0] == 0
    ensures Start(c, j, r) <= Start(c, j, i)
  {
    if r < i {
      StartMonotoneInRow(c, j, r, i - 1);
    }
  }

  /** While the group of r is still open its size is the running count of the last row. */
  lemma {:induction false} SizeOfOpen(c: seq<nat>, j: nat, r: nat, n: nat)
    requires r < n <= |c| && c[0] == 0 && Open(c, j, r, n)
    ensures Size(c, j, r, n) == Running(c, j, n - 1)
    decreases n
  {
    if n > r + 1 {
      SizeOfOpen(c, j, r, n - 1);
    }
  }

  /** Once the row after r starts another group, the running count of r is final. */
  lemma {:induction false} SizeOfClosed(c: seq<nat>, j: nat, r: nat, n: nat)
    requires r < n <= |c| && c[0] == 0 && (r + 1 == n || c[r + 1] <= j)
    ensures Size(c, j, r, n) == Running(c, j, r)
    decreases n
  {
    if n > r + 1 {
      SizeOfClosed(c, j, r, n - 1);
      StartMonotoneInRow(c, j, r + 1, n - 1);
    }
  }

  lemma {:induction false} SizePositive(c: seq<nat>, j: nat, r: nat, n: nat)
    requires r < n <= |c| && c[0] == 0
    ensures Size(c, j, r, n) > 0
    decreases n
  {
    if n > r + 1 {
      SizePositive(c, j, r, n - 1);
    }
  }

  /** A coarser prefix has the larger group. */
  lemma {:induction false} SizeMonotone(c: seq<nat>, j: nat, j': nat, r: nat, n: nat)
    requires r < n <= |c| && c[0] == 0 && j <= j'
    ensures Size(c, j', r, n) <= Size(c, j, r, n)
    decreases n
  {
    StartMonotone(c, j, j', n - 1);
    if n > r + 1 {
      SizeMonotone(c, j, j', r, n - 1);
    }
  }

  /** One more row, whose change column is c[n]. */
  lemma SizeStep(c: seq<nat>, j: nat, r: nat, n: nat)
    requires r < n < |c| && c[0] == 0
    ensures c[n] <= j ==> Size(c, j, r, n + 1) == Size(c, j, r, n) && !Open(c, j, r, n + 1)
    ensures c[n] > j ==> Open(c, j, r, n + 1) == Open(c, j, r, n)
    ensures !Open(c, j, r, n + 1) ==> Size(c, j, r, n + 1) == Size(c, j, r, n)
  {
  }
}
