/** sampleIsBetter is a strict weak order, so "best" and "least preferred" mean what they say. */
module StatOrder {
  import opened StatSpec

  lemma {:induction false} TailWeakOrder(x: Sample, y: Sample, z: Sample, nCol: nat, k: nat)
    requires SampleShape(x, nCol) && SampleShape(y, nCol) && SampleShape(z, nCol) && k <= nCol
    ensures !(TailBetter(x, y, nCol, k) && TailBetter(y, x, nCol, k))
    ensures TailBetter(x, z, nCol, k) ==> TailBetter(x, y, nCol, k) || TailBetter(y, z, nCol, k)
    decreases nCol - k
  {
    if k < nCol {
      TailWeakOrder(x, y, z, nCol, k + 1);
    }
  }

  /** Asymmetric and negatively transitive (hence transitive). */
  lemma BetterWeakOrder(x: Sample, y: Sample, z: Sample, nCol: nat)
    requires SampleShape(x, nCol) && SampleShape(y, nCol) && SampleShape(z, nCol)
    ensures !(Better(x, y, nCol) && Better(y, x, nCol))
    ensures Better(x, z, nCol) ==> Better(x, y, nCol) || Better(y, z, nCol)
    ensures Better(x, y, nCol) && Better(y, z, nCol) ==> Better(x, z, nCol)
  {
    TailWeakOrder(x, y, z, nCol, x.iCol + 1);
    TailWeakOrder(y, z, x, nCol, y.iCol + 1);
    TailWeakOrder(x, z, y, nCol, z.iCol + 1);
    TailWeakOrder(y, x, z, nCol, x.iCol + 1);
  }

  /** The order reads a sample's counts from column k on and its hash, nothing else. */
  lemma {:induction false} TailReads(x: Sample, y: Sample, x': Sample, y': Sample, nCol: nat, k: nat)
    requires SampleShape(x, nCol) && SampleShape(y, nCol) && SampleShape(x', nCol) && SampleShape(y', nCol) && k <= nCol
    requires forall j :: k <= j < nCol ==> x.anEq[j] == x'.anEq[j] && y.anEq[j] == y'.anEq[j]
    requires x.iHash == x'.iHash && y.iHash == y'.iHash
    ensures TailBetter(x, y, nCol, k) == TailBetter(x', y', nCol, k)
    decreases nCol - k
  {
    if k < nCol {
      TailReads(x, y, x', y', nCol, k + 1);
    }
  }

  /** Counters below a sample's own column do not enter the comparison. */
  lemma BetterReads(x: Sample, y: Sample, x': Sample, y': Sample, nCol: nat)
    requires SampleShape(x, nCol) && SampleShape(y, nCol) && SampleShape(x', nCol) && SampleShape(y', nCol)
    requires x.iCol == x'.iCol && y.iCol == y'.iCol && x.iHash == x'.iHash && y.iHash == y'.iHash
    requires forall j :: x.iCol <= j < nCol ==> x.anEq[j] == x'.anEq[j]
    requires forall j :: y.iCol <= j < nCol ==> y.anEq[j] == y'.anEq[j]
    ensures Better(x, y, nCol) == Better(x', y', nCol)
  {
    if x.iCol == y.iCol {
      TailReads(x, y, x', y', nCol, x.iCol + 1);
    }
  }

  /** The sample chosen for an upgrade: none if no group is open, otherwise none is better. */
  lemma {:induction false} UpgradeIsBest(a: seq<Sample>, nCol: nat, col: nat, k: nat)
    requires col < nCol && k <= |a| && Shaped(a, nCol)
    ensures var u := UpgradeFrom(a, nCol, col, k);
      forall l :: k <= l < |a| && a[l].anEq[col] == 0 ==> u < |a| && !Better(a[l], a[u], nCol)
    decreases |a| - k
  {
    if k < |a| {
      UpgradeIsBest(a, nCol, col, k + 1);
      var u, v := UpgradeFrom(a, nCol, col, k), UpgradeFrom(a, nCol, col, k + 1);
      forall l | k <= l < |a| && a[l].anEq[col] == 0
        ensures u < |a| && !Better(a[l], a[u], nCol)
      {
        if v < |a| {
          BetterWeakOrder(a[l], a[k], a[v], nCol);
        }
        BetterWeakOrder(a[k], a[k], a[k], nCol);
      }
    }
  }

  /** The eviction victim: no non-periodic sample is less preferred. */
  lemma {:induction false} MinIsLeast(a: seq<Sample>, nCol: nat, k: nat)
    requires k <= |a| && Shaped(a, nCol)
    ensures var m := MinIndex(a, nCol, k);
      forall l :: 0 <= l < k && !a[l].isP ==> m >= 0 && !Better(a[m], a[l], nCol)
  {
    if k > 0 {
      MinIsLeast(a, nCol, k - 1);
      var m, v := MinIndex(a, nCol, k), MinIndex(a, nCol, k - 1);
      forall l | 0 <= l < k && !a[l].isP
        ensures m >= 0 && !Better(a[m], a[l], nCol)
      {
        if v >= 0 {
          BetterWeakOrder(a[v], a[k - 1], a[l], nCol);
        }
        BetterWeakOrder(a[k - 1], a[k - 1], a[k - 1], nCol);
      }
    }
  }

  /** sampleIsBetter, written out: the larger group counts, then the shorter prefix, then the larger group
      on the first later column where they differ, then the hash. */
  lemma BetterMeans(x: Sample, y: Sample, nCol: nat)
    requires SampleShape(x, nCol) && SampleShape(y, nCol)
    ensures Better(x, y, nCol) <==>
      || x.anEq[x.iCol] > y.anEq[y.iCol]
      || (x.anEq[x.iCol] == y.anEq[y.iCol] && x.iCol < y.iCol)
      || (x.anEq[x.iCol] == y.anEq[y.iCol] && x.iCol == y.iCol && LargerLater(x, y, nCol, x.iCol + 1))
  {
    TailMeans(x, y, nCol, x.iCol + 1);
  }

  ghost predicate SameTo(x: Sample, y: Sample, from: nat, to: nat)
    requires from <= to <= |x.anEq| && to <= |y.anEq|
  {
    forall k :: from <= k < to ==> x.anEq[k] == y.anEq[k]
  }

  ghost predicate LargerLater(x: Sample, y: Sample, nCol: nat, from: nat)
    requires SampleShape(x, nCol) && SampleShape(y, nCol) && from <= nCol
  {
    || (exists j :: from <= j < nCol && SameTo(x, y, from, j) && x.anEq[j] > y.anEq[j])
    || (SameTo(x, y, from, nCol) && x.iHash > y.iHash)
  }

  lemma {:induction false} TailMeans(x: Sample, y: Sample, nCol: nat, from: nat)
    requires SampleShape(x, nCol) && SampleShape(y, nCol) && from <= nCol
    ensures TailBetter(x, y, nCol, from) <==> LargerLater(x, y, nCol, from)
    decreases nCol - from
  {
    if from < nCol {
      TailMeans(x, y, nCol, from + 1);
      if x.anEq[from] == y.anEq[from] {
        if j :| from + 1 <= j < nCol && SameTo(x, y, from + 1, j) && x.anEq[j] > y.anEq[j] {
          assert SameTo(x, y, from, j);
        }
        if j :| from <= j < nCol && SameTo(x, y, from, j) && x.anEq[j] > y.anEq[j] {
          assert SameTo(x, y, from + 1, j);
        }
      } else {
        assert SameTo(x, y, from, from);
      }
    }
  }
}
