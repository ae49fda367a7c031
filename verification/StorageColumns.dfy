/** Column numbers in a table with generated columns: as declared, and as stored. */
module StorageColumns {

  /** The columns of a table, each virtual or not. */
  datatype Table = Table(isVirtual: seq<bool>) {
    /** TF_HasVirtual */
    predicate HasVirtual() {
      true in isVirtual
    }
  }

  /** How many of the first n columns are stored: nNVCol for all of them */
  function Stored(v: seq<bool>, n: nat): (k: nat)
    requires n <= |v|
    ensures k <= n
  {
    if n == 0 then 0 else Stored(v, n - 1) + if v[n - 1] then 0 else 1
  }

  /** Where column i goes: the stored columns first and then the virtual ones, both in their order. */
  function Place(v: seq<bool>, i: nat): nat
    requires i < |v|
  {
    if v[i] then Stored(v, |v|) + (i - Stored(v, i)) else Stored(v, i)
  }

  /** sqlite3TableColumnToStorage */
  method TableColumnToStorage(pTab: Table, iCol: int) returns (r: int)
    requires iCol < |pTab.isVirtual|
    ensures r == if iCol < 0 then iCol else Place(pTab.isVirtual, iCol)
  {
    if !pTab.HasVirtual() || iCol < 0 {
      if iCol >= 0 {
        AllStored(pTab.isVirtual, iCol);
      }
      return iCol;
    }
    var n := 0;
    var i := 0;
    while i < iCol
      invariant 0 <= i <= iCol && n == Stored(pTab.isVirtual, i)
    {
      if !pTab.isVirtual[i] {
        n := n + 1;
      }
      i := i + 1;
    }
    if pTab.isVirtual[i] {
      r := Stored(pTab.isVirtual, |pTab.isVirtual|) + i - n;
    } else {
      r := n;
    }
  }

  lemma {:induction false} AllStored(v: seq<bool>, n: nat)
    requires n <= |v| && true !in v
    ensures Stored(v, n) == n
  {
    if n > 0 {
      AllStored(v, n - 1);
    }
  }

  lemma {:induction false} StoredGrows(v: seq<bool>, m: nat, n: nat)
    requires m <= n <= |v|
    ensures Stored(v, m) <= Stored(v, n) <= Stored(v, m) + (n - m)
    decreases n
  {
    if m < n {
      StoredGrows(v, m, n - 1);
    }
  }

  /** The places are a permutation of the column numbers: no two columns have one place, and there are as
      many places as columns. */
  lemma PlacesDiffer(v: seq<bool>, i: nat, j: nat)
    requires i < j < |v|
    ensures Place(v, i) != Place(v, j)
    ensures v[i] == v[j] ==> Place(v, i) < Place(v, j)
  {
    StoredGrows(v, i + 1, j);
    StoredGrows(v, i + 1, |v|);
    StoredGrows(v, j + 1, |v|);
  }

  lemma PlaceInRange(v: seq<bool>, i: nat)
    requires i < |v|
    ensures Place(v, i) < |v|
    ensures v[i] <==> Place(v, i) >= Stored(v, |v|)
  {
    StoredGrows(v, i + 1, |v|);
  }

  /** Every place is taken, by one of the first n columns if it is among theirs. */
  lemma {:induction false} PlaceTaken(v: seq<bool>, p: nat, n: nat) returns (i: nat)
    requires p < |v| && n <= |v|
    requires if p < Stored(v, |v|) then p < Stored(v, n) else p - Stored(v, |v|) < n - Stored(v, n)
    ensures i < n && Place(v, i) == p
    decreases n
  {
    if p < Stored(v, |v|) {
      if p < Stored(v, n - 1) {
        i := PlaceTaken(v, p, n - 1);
      } else {
        i := n - 1;
      }
    } else if p - Stored(v, |v|) < (n - 1) - Stored(v, n - 1) {
      i := PlaceTaken(v, p, n - 1);
    } else {
      i := n - 1;
    }
  }

  /** sqlite3StorageColumnToTable: the loop's bound is the result, which grows as virtual columns are
      passed. */
  method StorageColumnToTable(pTab: Table, iCol: int) returns (r: int)
    requires iCol < Stored(pTab.isVirtual, |pTab.isVirtual|)
    ensures iCol < 0 ==> r == iCol
    ensures iCol >= 0 ==> 0 <= r < |pTab.isVirtual| && !pTab.isVirtual[r] && Place(pTab.isVirtual, r) == iCol
    ensures iCol >= 0 ==> forall i :: 0 <= i < |pTab.isVirtual| && Place(pTab.isVirtual, i) == iCol ==> i == r
  {
    var v := pTab.isVirtual;
    r := iCol;
    if pTab.HasVirtual() {
      var i := 0;
      while i <= r
        invariant 0 <= i <= |v|
        invariant iCol < 0 ==> i == 0 && r == iCol
        invariant iCol >= 0 ==> i <= r + 1 && r == iCol + (i - Stored(v, i))
        invariant iCol >= 0 && i == r + 1 ==> i > 0 && !v[i - 1]
        decreases |v| - i
      {
        if v[i] {
          r := r + 1;
        }
        i := i + 1;
      }
    } else if iCol >= 0 {
      AllStored(v, |v|);
      AllStored(v, iCol);
    }
    if iCol >= 0 {
      forall i | 0 <= i < |v| && Place(v, i) == iCol ensures i == r {
        if i < r {
          PlacesDiffer(v, i, r);
        } else if r < i {
          PlacesDiffer(v, r, i);
        }
      }
    }
  }
}
