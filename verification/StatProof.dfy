/** What every state of the accumulator satisfies, for every scan.

    `Mid(t, n, p, lvl)` describes the state while the groups that end with row n-1 are being
    closed: columns lvl.. are done, columns below are not.  With lvl == nCol-1 it is the state
    between two pushes. */
module StatProof {
  import opened Lists
  import opened PrefixGroups
  import opened StatSpec
  import opened StatOrder

  /** A scan: the change columns and rowids of its rows, which of them are periodic samples, and
      the generator's seed. */
  datatype Scan = Scan(c: seq<nat>, rowid: seq<int>, per: seq<bool>, seed: nat, nCol: nat)

  ghost predicate ScanOk(t: Scan) {
    Changes(t.c, t.nCol) && |t.rowid| == |t.c| == |t.per|
  }

  ghost function HashAt(seed: nat, r: nat): nat {
    Lcg(if r == 0 then seed else HashAt(seed, r - 1))
  }

  /** Sample s carries the true counts of row r in column j; its anEq[j] is 0 or the true size so far. */
  ghost predicate ColumnOk(t: Scan, n: nat, s: Sample, r: nat, j: nat)
    requires ScanOk(t) && r < n <= |t.c| && j < t.nCol && SampleShape(s, t.nCol)
  {
    && s.anLt[j] == Start(t.c, j, r)
    && s.anDLt[j] == Before(t.c, j, r)
    && (s.anEq[j] == 0 || s.anEq[j] == Size(t.c, j, r, n))
    && (s.anEq[j] == 0 ==> j < t.nCol - 1 && Open(t.c, j, r, n))
  }

  ghost predicate SampleOk(t: Scan, n: nat, s: Sample)
    requires ScanOk(t) && n <= |t.c|
  {
    && SampleShape(s, t.nCol)
    && var r := RowOf(s, t.nCol);
    && r < n
    && s.rowid == t.rowid[r] && s.iHash == HashAt(t.seed, r)
    && (forall j :: 0 <= j < t.nCol ==> ColumnOk(t, n, s, r, j))
    && (!s.isP ==> forall j :: s.iCol <= j < t.nCol ==> s.anEq[j] != 0)
  }

  ghost predicate SamplesOk(t: Scan, n: nat, a: seq<Sample>)
    requires ScanOk(t) && n <= |t.c|
  {
    forall k :: 0 <= k < |a| ==> SampleOk(t, n, a[k])
  }

  /** Groups on fewer than lvl+1 columns that are still open are marked 0. */
  ghost predicate Deferred(t: Scan, n: nat, s: Sample, lvl: nat)
    requires ScanOk(t) && 0 < n <= |t.c| && SampleOk(t, n, s)
  {
    forall j :: 0 <= j < lvl && j < t.nCol - 1 && Open(t.c, j, RowOf(s, t.nCol), n) ==> s.anEq[j] == 0
  }

  /** Running counts of row r on columns from.., as a sample candidate carries them. */
  ghost predicate RunningFrom(t: Scan, s: Sample, r: nat, from: nat)
    requires ScanOk(t) && r < |t.c| && SampleShape(s, t.nCol)
  {
    forall j :: from <= j < t.nCol ==> s.anEq[j] == Running(t.c, j, r)
  }

  /** Sample s describes row r, its counters from column `from` on being the running ones. */
  ghost predicate Describes(t: Scan, s: Sample, r: nat, from: nat)
    requires ScanOk(t) && r < |t.c|
  {
    && SampleShape(s, t.nCol)
    && (forall j :: 0 <= j < t.nCol ==> s.anLt[j] == Start(t.c, j, r) && s.anDLt[j] == Before(t.c, j, r))
    && RunningFrom(t, s, r, from)
    && s.rowid == t.rowid[r] && s.iHash == HashAt(t.seed, r)
  }

  /** The running counts of row r, as a sample for column i. */
  ghost function RowSample(t: Scan, r: nat, i: nat): (s: Sample)
    requires ScanOk(t) && r < |t.c| && i < t.nCol
    ensures SampleShape(s, t.nCol)
  {
    Sample(seq(t.nCol, j requires 0 <= j < t.nCol => Running(t.c, j, r)),
           seq(t.nCol, j requires 0 <= j < t.nCol => Start(t.c, j, r)),
           seq(t.nCol, j requires 0 <= j < t.nCol => Before(t.c, j, r)),
           t.rowid[r], false, i, HashAt(t.seed, r))
  }

  /** s is the candidate of column i: the first row of the group open on columns 0..i that no
      later row of that group beats on the running counts of the columns after i and the hash. */
  ghost predicate CandidateOk(t: Scan, n: nat, i: nat, s: Sample)
    requires ScanOk(t) && 0 < n <= |t.c| && i < t.nCol
  {
    && SampleShape(s, t.nCol) && s.iCol == i && !s.isP
    && var r := RowOf(s, t.nCol);
    && r < n && Open(t.c, i, r, n) && Describes(t, s, r, i + 1)
    && (forall k :: r < k < n ==> !BetterPost(RowSample(t, k, i), s, t.nCol))
    && (forall k :: Start(t.c, i, n - 1) <= k < r ==> BetterPost(s, RowSample(t, k, i), t.nCol))
  }

  ghost predicate Sorted(a: seq<Sample>, nCol: nat)
    requires nCol > 0 && Shaped(a, nCol)
  {
    forall k, l :: 0 <= k < l < |a| ==> RowOf(a[k], nCol) < RowOf(a[l], nCol)
  }

  /** The victim is a non-periodic sample, and no non-periodic sample is less preferred. */
  ghost predicate VictimOk(p: Accum)
    requires Shape(p)
  {
    |p.a| == p.mxSample ==>
      && 0 <= p.iMin && !p.a[p.iMin].isP
      && forall k :: 0 <= k < |p.a| && !p.a[k].isP ==> !Better(p.a[p.iMin], p.a[k], p.nCol)
  }

  /** An open group above the level is still marked only where a periodic sample, or a sample
      already upgraded to column lvl, stands for it. */
  ghost predicate Represented(t: Scan, n: nat, a: seq<Sample>, lvl: nat)
    requires ScanOk(t) && 0 < n <= |t.c| && lvl < t.nCol && Shaped(a, t.nCol)
  {
    (exists k, j :: 0 <= k < |a| && !a[k].isP && lvl <= j < t.nCol && a[k].anEq[j] == 0) ==>
      || OpenPeriodic(a, t.nCol, lvl)
      || exists x :: 0 <= x < |a| && !a[x].isP && a[x].iCol == lvl
                     && a[x].anEq[lvl] == Running(t.c, lvl, n - 1)
                     && RowOf(a[x], t.nCol) < n && Open(t.c, lvl, RowOf(a[x], t.nCol), n)
  }

  /** The periodic samples held are exactly the periodic rows seen. */
  ghost predicate PeriodicsKept(per: seq<bool>, n: nat, a: seq<Sample>, nCol: nat)
    requires nCol > 0 && n <= |per| && Shaped(a, nCol)
  {
    && (forall k :: 0 <= k < |a| && a[k].isP ==> RowOf(a[k], nCol) < n && per[RowOf(a[k], nCol)])
    && (forall r :: 0 <= r < n && per[r] ==> exists k :: 0 <= k < |a| && a[k].isP && RowOf(a[k], nCol) == r)
  }

  ghost predicate ZerosBelow(a: seq<Sample>, nCol: nat, m: nat)
    requires Shaped(a, nCol)
  {
    forall k, j :: 0 <= k < |a| && 0 <= j < nCol && a[k].anEq[j] == 0 ==> j < m
  }

  /** The retained samples, while columns lvl.. of the groups ending with row n-1 are done. */
  ghost predicate Buffer(t: Scan, n: nat, a: seq<Sample>, lvl: nat, nMaxEqZero: nat)
    requires ScanOk(t) && 0 < n <= |t.c| && lvl < t.nCol
  {
    && SamplesOk(t, n, a)
    && (forall k :: 0 <= k < |a| ==> Deferred(t, n, a[k], lvl))
    && Sorted(a, t.nCol)
    && ZerosBelow(a, t.nCol, nMaxEqZero)
    && Represented(t, n, a, lvl)
    && PeriodicsKept(t.per, n, a, t.nCol)
  }

  ghost predicate Mid(t: Scan, n: nat, p: Accum, lvl: nat)
    requires ScanOk(t)
  {
    && 0 < n <= |t.c| && lvl < t.nCol
    && Shape(p) && p.nCol == t.nCol && p.nRow == n && p.iPrn == HashAt(t.seed, n - 1)
    && Describes(t, p.current, n - 1, 0)
    && (forall i :: 0 <= i < lvl ==> CandidateOk(t, n, i, p.aBest[i]))
    && Buffer(t, n, p.a, lvl, p.nMaxEqZero)
    && VictimOk(p)
  }

  /** The next row of a group on columns 0..i+1 always beats its predecessor as a candidate. */
  lemma NextRowBeats(t: Scan, i: nat, s: Sample, r: nat)
    requires ScanOk(t) && r + 1 < |t.c| && i < t.nCol - 1 && t.c[r + 1] > i + 1
    requires Describes(t, s, r, i + 1) && s.iCol == i
    ensures BetterPost(RowSample(t, r + 1, i), s, t.nCol)
  {
    assert RowSample(t, r + 1, i).anEq[i + 1] == s.anEq[i + 1] + 1;
  }

  /** The candidate's row is the last of its group on columns 0..i+1. */
  lemma CandidateEndsItsGroups(t: Scan, n: nat, i: nat, s: Sample)
    requires ScanOk(t) && 0 < n <= |t.c| && i < t.nCol - 1 && CandidateOk(t, n, i, s)
    ensures var r := RowOf(s, t.nCol);
      forall j :: i < j < t.nCol ==> s.anEq[j] == Size(t.c, j, r, n)
  {
    var r := RowOf(s, t.nCol);
    if r + 1 < n && t.c[r + 1] > i + 1 {
      NextRowBeats(t, i, s, r);
    }
    forall j | i < j < t.nCol
      ensures s.anEq[j] == Size(t.c, j, r, n)
    {
      SizeOfClosed(t.c, j, r, n);
    }
  }

  /** The candidate of column i as it is handed to sampleInsert. */
  ghost predicate ClosedCandidate(t: Scan, n: nat, i: nat, s: Sample)
    requires ScanOk(t) && 0 < n <= |t.c| && i < t.nCol
  {
    && SampleShape(s, t.nCol) && s.iCol == i && !s.isP
    && var r := RowOf(s, t.nCol);
    && r < n && Open(t.c, i, r, n)
    && (forall j :: 0 <= j < t.nCol ==> s.anLt[j] == Start(t.c, j, r) && s.anDLt[j] == Before(t.c, j, r))
    && (forall j :: i <= j < t.nCol ==> s.anEq[j] == Size(t.c, j, r, n))
    && s.rowid == t.rowid[r] && s.iHash == HashAt(t.seed, r)
  }

  lemma CloseCandidate(t: Scan, n: nat, p: Accum, i: nat)
    requires ScanOk(t) && i < t.nCol - 1 && Mid(t, n, p, i + 1)
    ensures ClosedCandidate(t, n, i, CloseBest(p, i).aBest[i])
  {
    CandidateEndsItsGroups(t, n, i, p.aBest[i]);
    SizeOfOpen(t.c, i, RowOf(p.aBest[i], t.nCol), n);
  }

  /** assert( pOld->iCol>pNew->iCol ) and assert( sampleIsBetter(p, pNew, pOld) ) */
  lemma CandidateBeatsOpenSample(t: Scan, n: nat, i: nat, s: Sample, x: Sample)
    requires ScanOk(t) && 0 < n <= |t.c| && i < t.nCol - 1 && ClosedCandidate(t, n, i, s)
    requires SampleOk(t, n, x) && !x.isP && x.anEq[i] == 0
    ensures x.iCol > i && Better(s, x, t.nCol)
  {
    var r := RowOf(x, t.nCol);
    assert ColumnOk(t, n, x, r, i);
    assert ColumnOk(t, n, x, r, x.iCol);
    SizeMonotone(t.c, i, x.iCol, r, n);
    SizeOfOpen(t.c, i, r, n);
    SizeOfOpen(t.c, i, RowOf(s, t.nCol), n);
  }

  /** Whether a sample is open on columns 0..i can be told from its counters. */
  lemma OpenMeansZero(t: Scan, n: nat, i: nat, x: Sample)
    requires ScanOk(t) && 0 < n <= |t.c| && i < t.nCol - 1 && SampleOk(t, n, x) && Deferred(t, n, x, i + 1)
    ensures x.anEq[i] == 0 <==> Open(t.c, i, RowOf(x, t.nCol), n)
    ensures forall j :: i <= j < t.nCol && x.anEq[j] == 0 ==> x.anEq[i] == 0
  {
    var r := RowOf(x, t.nCol);
    assert ColumnOk(t, n, x, r, i);
    forall j | i <= j < t.nCol && x.anEq[j] == 0
      ensures x.anEq[i] == 0
    {
      assert ColumnOk(t, n, x, r, j);
      StartMonotone(t.c, i, j, n - 1);
    }
  }

  /** A sample with an open group on column i makes its candidate worth inserting. */
  lemma OpenSampleMakesWorthy(t: Scan, n: nat, p: Accum, i: nat, k: nat)
    requires ScanOk(t) && i < t.nCol - 1 && Mid(t, n, p, i + 1) && k < |p.a|
    requires !p.a[k].isP && p.a[k].anEq[i] == 0
    ensures var q := CloseBest(p, i); Worthy(q, q.aBest[i])
  {
    var q := CloseBest(p, i);
    CloseCandidate(t, n, p, i);
    CandidateBeatsOpenSample(t, n, i, q.aBest[i], p.a[k]);
    if |p.a| == p.mxSample {
      BetterWeakOrder(q.aBest[i], p.a[p.iMin], p.a[k], t.nCol);
    }
  }

  /** If no periodic sample is open on column i, a deferred counter above i has a representative. */
  lemma Representative(t: Scan, n: nat, a: seq<Sample>, i: nat) returns (x: nat)
    requires ScanOk(t) && 0 < n <= |t.c| && i < t.nCol - 1 && SamplesOk(t, n, a) && !OpenPeriodic(a, t.nCol, i)
    requires (forall k :: 0 <= k < |a| ==> Deferred(t, n, a[k], i + 1)) && Represented(t, n, a, i + 1)
    requires exists k, j :: 0 <= k < |a| && !a[k].isP && i + 1 <= j < t.nCol && a[k].anEq[j] == 0
    ensures x < |a| && !a[x].isP && a[x].iCol == i + 1 && a[x].anEq[i] == 0
    ensures a[x].anEq[i + 1] == Running(t.c, i + 1, n - 1)
  {
    if OpenPeriodic(a, t.nCol, i + 1) {
      var k :| 0 <= k < |a| && SampleShape(a[k], t.nCol) && a[k].isP && a[k].anEq[i + 1] == 0;
      OpenMeansZero(t, n, i, a[k]);
    }
    x :| 0 <= x < |a| && !a[x].isP && a[x].iCol == i + 1 && a[x].anEq[i + 1] == Running(t.c, i + 1, n - 1)
         && RowOf(a[x], t.nCol) < n && Open(t.c, i + 1, RowOf(a[x], t.nCol), n);
    StartMonotone(t.c, i, i + 1, n - 1);
    OpenMeansZero(t, n, i, a[x]);
  }

  /** The upgrade goes to a sample whose counters above column i are all final. */
  lemma UpgradeTargetIsFinal(t: Scan, n: nat, a: seq<Sample>, i: nat, u: nat)
    requires ScanOk(t) && 0 < n <= |t.c| && i < t.nCol - 1 && SamplesOk(t, n, a) && !OpenPeriodic(a, t.nCol, i)
    requires (forall k :: 0 <= k < |a| ==> Deferred(t, n, a[k], i + 1)) && Represented(t, n, a, i + 1)
    requires u == UpgradeFrom(a, t.nCol, i, 0) && u < |a|
    ensures forall j :: i < j < t.nCol ==> a[u].anEq[j] != 0
  {
    if exists j :: i + 1 <= j < t.nCol && a[u].anEq[j] == 0 {
      var x := Representative(t, n, a, i);
      UpgradedBeatsOpen(t, n, i + 1, a[x], a[u]);
      UpgradeIsBest(a, t.nCol, i, 0);
    }
  }

  /** A sample upgraded to column i is preferred to any whose own column is finer and still open there. */
  lemma UpgradedBeatsOpen(t: Scan, n: nat, i: nat, x: Sample, y: Sample)
    requires ScanOk(t) && 0 < n <= |t.c| && i < t.nCol && SampleOk(t, n, x) && SampleOk(t, n, y) && !x.isP && !y.isP
    requires x.iCol == i && x.anEq[i] == Running(t.c, i, n - 1)
    requires exists j :: i <= j < t.nCol && y.anEq[j] == 0
    ensures Better(x, y, t.nCol)
  {
    var j :| i <= j < t.nCol && y.anEq[j] == 0;
    var r := RowOf(y, t.nCol);
    assert ColumnOk(t, n, y, r, j) && ColumnOk(t, n, y, r, y.iCol);
    StartMonotone(t.c, i, j, n - 1);
    SizeOfOpen(t.c, i, r, n);
    SizeMonotone(t.c, i, y.iCol, r, n);
  }

  lemma FindNewMinOk(p: Accum)
    requires Shape(p.(iMin := -1)) && CanInsert(FindNewMin(p))
    ensures VictimOk(FindNewMin(p))
  {
    MinIsLeast(p.a, p.nCol, |p.a|);
  }

  /** The sample after its upgrade to column i. */
  lemma UpgradedSample(t: Scan, n: nat, i: nat, x: Sample, up: Sample)
    requires ScanOk(t) && 0 < n <= |t.c| && i < t.nCol - 1 && SampleOk(t, n, x) && Deferred(t, n, x, i + 1)
    requires !x.isP && x.anEq[i] == 0 && (forall j :: i < j < t.nCol ==> x.anEq[j] != 0)
    requires up == x.(iCol := i, anEq := x.anEq[i := Running(t.c, i, n - 1)])
    ensures SampleOk(t, n, up) && Deferred(t, n, up, i)
  {
    var r := RowOf(x, t.nCol);
    assert ColumnOk(t, n, x, r, i);
    SizeOfOpen(t.c, i, r, n);
    forall j | 0 <= j < t.nCol
      ensures ColumnOk(t, n, up, r, j)
    {
      assert ColumnOk(t, n, x, r, j);
    }
  }

  /** Changing counters only, and only those of non-periodic samples, keeps the periodic ones. */
  lemma PeriodicsUntouched(per: seq<bool>, n: nat, a: seq<Sample>, b: seq<Sample>, nCol: nat)
    requires nCol > 0 && n <= |per| && Shaped(a, nCol) && Shaped(b, nCol) && |a| == |b|
    requires forall k :: 0 <= k < |a| ==> b[k].isP == a[k].isP && b[k].anLt == a[k].anLt
    requires PeriodicsKept(per, n, a, nCol) && Sorted(a, nCol)
    ensures PeriodicsKept(per, n, b, nCol) && Sorted(b, nCol)
  {
    forall r | 0 <= r < n && per[r]
      ensures exists k :: 0 <= k < |b| && b[k].isP && RowOf(b[k], nCol) == r
    {
      var k :| 0 <= k < |a| && a[k].isP && RowOf(a[k], nCol) == r;
      assert b[k].isP && RowOf(b[k], nCol) == r;
    }
  }

  /** sampleInsert turned into an upgrade of an existing sample. */
  lemma UpgradeKeepsBuffer(t: Scan, n: nat, a: seq<Sample>, i: nat, u: nat, up: Sample, nMax0: nat, nMax: nat)
    requires ScanOk(t) && 0 < n <= |t.c| && i < t.nCol - 1 && Buffer(t, n, a, i + 1, nMax0) && nMax0 <= nMax
    requires !OpenPeriodic(a, t.nCol, i) && u == UpgradeFrom(a, t.nCol, i, 0) && u < |a|
    requires up == a[u].(iCol := i, anEq := a[u].anEq[i := Running(t.c, i, n - 1)])
    ensures Buffer(t, n, a[u := up], i, nMax)
  {
    assert !a[u].isP;
    UpgradeTargetIsFinal(t, n, a, i, u);
    UpgradedSample(t, n, i, a[u], up);
    UpgradeInBuffer(t, n, a, i, u, up, nMax0, nMax);
  }

  lemma UpgradeInBuffer(t: Scan, n: nat, a: seq<Sample>, i: nat, u: nat, up: Sample, nMax0: nat, nMax: nat)
    requires ScanOk(t) && 0 < n <= |t.c| && i < t.nCol - 1 && Buffer(t, n, a, i + 1, nMax0) && nMax0 <= nMax
    requires u < |a| && !a[u].isP && a[u].anEq[i] == 0
    requires SampleOk(t, n, up) && Deferred(t, n, up, i)
    requires up == a[u].(iCol := i, anEq := a[u].anEq[i := Running(t.c, i, n - 1)])
    ensures Buffer(t, n, a[u := up], i, nMax)
  {
    var b := a[u := up];
    OpenMeansZero(t, n, i, a[u]);
    forall k | 0 <= k < |b|
      ensures SampleOk(t, n, b[k]) && Deferred(t, n, b[k], i)
    {
      assert k != u ==> Deferred(t, n, a[k], i + 1);
    }
    PeriodicsUntouched(t.per, n, a, b, t.nCol);
    assert b[u].iCol == i && b[u].anEq[i] == Running(t.c, i, n - 1);
  }

  /** The sample that a closed candidate becomes in the buffer. */
  lemma InsertedSample(t: Scan, n: nat, i: nat, s: Sample, x: Sample)
    requires ScanOk(t) && 0 < n <= |t.c| && i < t.nCol - 1 && ClosedCandidate(t, n, i, s)
    requires x == s.(anEq := ZeroFirst(s.anEq, i))
    ensures SampleOk(t, n, x) && Deferred(t, n, x, i) && forall j :: i <= j < t.nCol ==> x.anEq[j] != 0
  {
    var r := RowOf(s, t.nCol);
    forall j | 0 <= j < t.nCol
      ensures ColumnOk(t, n, x, r, j) && (j >= i ==> x.anEq[j] != 0)
    {
      SizePositive(t.c, j, r, n);
      if j < i {
        StartMonotone(t.c, j, i, n - 1);
      }
    }
  }

  /** Appending a sample of a later row, and removing one, keeps the order. */
  lemma AppendKeepsSorted(a: seq<Sample>, kept: seq<Sample>, x: Sample, victim: int, nCol: nat)
    requires nCol > 0 && Shaped(a, nCol) && SampleShape(x, nCol) && Sorted(a, nCol)
    requires forall k :: 0 <= k < |a| ==> RowOf(a[k], nCol) < RowOf(x, nCol)
    requires if victim < 0 then kept == a else victim < |a| && kept == Removed(a, victim)
    ensures Shaped(kept + [x], nCol) && Sorted(kept + [x], nCol)
  {
  }

  /** Evicting a non-periodic sample and appending x, which covers whatever periodic rows m..n-1 hold. */
  lemma AppendKeepsPeriodics(per: seq<bool>, m: nat, n: nat, a: seq<Sample>, kept: seq<Sample>, x: Sample, victim: int, nCol: nat)
    requires nCol > 0 && m <= n <= |per| && Shaped(a, nCol) && Shaped(kept + [x], nCol) && SampleShape(x, nCol)
    requires PeriodicsKept(per, m, a, nCol)
    requires x.isP ==> RowOf(x, nCol) < n && per[RowOf(x, nCol)]
    requires forall r :: m <= r < n && per[r] ==> x.isP && RowOf(x, nCol) == r
    requires if victim < 0 then kept == a else victim < |a| && !a[victim].isP && kept == Removed(a, victim)
    ensures PeriodicsKept(per, n, kept + [x], nCol)
  {
    var b := kept + [x];
    assert b[|kept|] == x;
    forall r | 0 <= r < n && per[r]
      ensures exists k :: 0 <= k < |b| && b[k].isP && RowOf(b[k], nCol) == r
    {
      if r < m {
        var k :| 0 <= k < |a| && a[k].isP && RowOf(a[k], nCol) == r;
        assert b[if victim < 0 || k < victim then k else k - 1] == a[k];
      }
    }
  }

  /** assert( pNew->anLt[p->nCol-1] > p->a[p->nSample-1].anLt[p->nCol-1] ): with no open sample on
      column i, every retained sample is of a row before the candidate's. */
  lemma CandidateIsLast(t: Scan, n: nat, a: seq<Sample>, i: nat, s: Sample)
    requires ScanOk(t) && 0 < n <= |t.c| && i < t.nCol - 1 && SamplesOk(t, n, a) && ClosedCandidate(t, n, i, s)
    requires forall k :: 0 <= k < |a| ==> Deferred(t, n, a[k], i + 1) && a[k].anEq[i] != 0
    ensures forall k :: 0 <= k < |a| ==> RowOf(a[k], t.nCol) < RowOf(s, t.nCol)
  {
    forall k | 0 <= k < |a|
      ensures RowOf(a[k], t.nCol) < RowOf(s, t.nCol)
    {
      OpenMeansZero(t, n, i, a[k]);
    }
  }

  /** Once column i is done the level drops; a counter still 0 from column i on means column i is 0. */
  lemma LevelDown(t: Scan, n: nat, a: seq<Sample>, i: nat)
    requires ScanOk(t) && 0 < n <= |t.c| && i < t.nCol - 1 && SamplesOk(t, n, a)
    requires forall k :: 0 <= k < |a| ==> Deferred(t, n, a[k], i + 1)
    ensures forall k :: 0 <= k < |a| ==> Deferred(t, n, a[k], i)
    ensures forall k, j :: 0 <= k < |a| && i <= j < t.nCol && a[k].anEq[j] == 0 ==> a[k].anEq[i] == 0
  {
    forall k | 0 <= k < |a|
      ensures Deferred(t, n, a[k], i)
      ensures forall j :: i <= j < t.nCol && a[k].anEq[j] == 0 ==> a[k].anEq[i] == 0
    {
      assert SampleOk(t, n, a[k]) && Deferred(t, n, a[k], i + 1);
      OpenMeansZero(t, n, i, a[k]);
    }
  }

  /** sampleInsert adding the candidate of column i. */
  lemma InsertKeepsBuffer(t: Scan, n: nat, a: seq<Sample>, i: nat, s: Sample, kept: seq<Sample>, victim: int, nMax0: nat, nMax: nat)
    requires ScanOk(t) && 0 < n <= |t.c| && i < t.nCol - 1 && Buffer(t, n, a, i + 1, nMax0)
    requires ClosedCandidate(t, n, i, s) && (forall k :: 0 <= k < |a| ==> a[k].anEq[i] != 0)
    requires nMax >= nMax0 && nMax >= i
    requires if victim < 0 then kept == a else victim < |a| && !a[victim].isP && kept == Removed(a, victim)
    ensures Buffer(t, n, kept + [s.(anEq := ZeroFirst(s.anEq, i))], i, nMax)
  {
    var x := s.(anEq := ZeroFirst(s.anEq, i));
    InsertedSample(t, n, i, s, x);
    CandidateIsLast(t, n, a, i, s);
    LevelDown(t, n, a, i);
    AppendKeepsSorted(a, kept, x, victim, t.nCol);
    AppendKeepsPeriodics(t.per, n, n, a, kept, x, victim, t.nCol);
    KeptFrom(a, kept, victim);
    AppendSample(t, n, a, kept, x, i, nMax);
  }

  lemma KeptFrom(a: seq<Sample>, kept: seq<Sample>, victim: int)
    requires if victim < 0 then kept == a else victim < |a| && kept == Removed(a, victim)
    ensures forall k :: 0 <= k < |kept| ==> kept[k] in a
  {
    forall k | 0 <= k < |kept|
      ensures kept[k] in a
    {
      assert kept[k] == a[if victim < 0 || k < victim then k else k + 1];
    }
  }

  lemma AppendSample(t: Scan, n: nat, a: seq<Sample>, kept: seq<Sample>, x: Sample, i: nat, nMax: nat)
    requires ScanOk(t) && 0 < n <= |t.c| && i < t.nCol - 1 && SamplesOk(t, n, a) && ZerosBelow(a, t.nCol, nMax) && nMax >= i
    requires forall k :: 0 <= k < |a| ==> Deferred(t, n, a[k], i)
    requires forall k, j :: 0 <= k < |a| && i <= j < t.nCol ==> a[k].anEq[j] != 0
    requires forall k :: 0 <= k < |kept| ==> kept[k] in a
    requires SampleOk(t, n, x) && Deferred(t, n, x, i) && forall j :: i <= j < t.nCol ==> x.anEq[j] != 0
    requires Shaped(kept + [x], t.nCol) && Sorted(kept + [x], t.nCol) && PeriodicsKept(t.per, n, kept + [x], t.nCol)
    ensures Buffer(t, n, kept + [x], i, nMax)
  {
  }

  /** No open sample is left on column i, or a periodic one is: nothing to do on column i. */
  lemma SkipKeepsBuffer(t: Scan, n: nat, a: seq<Sample>, i: nat, nMax0: nat, nMax: nat)
    requires ScanOk(t) && 0 < n <= |t.c| && i < t.nCol - 1 && Buffer(t, n, a, i + 1, nMax0) && nMax0 <= nMax
    requires OpenPeriodic(a, t.nCol, i) || forall k :: 0 <= k < |a| && !a[k].isP ==> a[k].anEq[i] != 0
    ensures Buffer(t, n, a, i, nMax)
  {
    LevelDown(t, n, a, i);
    assert Represented(t, n, a, i);
  }

  /** One turn of the candidate loop. */
  lemma PushBestKeepsMid(t: Scan, n: nat, p: Accum, i: nat)
    requires ScanOk(t) && i < t.nCol - 1 && Mid(t, n, p, i + 1) && CanInsert(p)
    ensures Mid(t, n, PushBest(p, i), i)
  {
    var q := CloseBest(p, i);
    var s := q.aBest[i];
    var r := PushBest(p, i);
    CloseCandidate(t, n, p, i);
    assert forall k :: 0 <= k < i ==> r.aBest[k] == p.aBest[k];
    if !Worthy(q, s) {
      forall k | 0 <= k < |p.a| && !p.a[k].isP
        ensures p.a[k].anEq[i] != 0
      {
        if p.a[k].anEq[i] == 0 {
          OpenSampleMakesWorthy(t, n, p, i, k);
        }
      }
      SkipKeepsBuffer(t, n, p.a, i, p.nMaxEqZero, r.nMaxEqZero);
    } else if OpenPeriodic(p.a, t.nCol, i) {
      SkipKeepsBuffer(t, n, p.a, i, p.nMaxEqZero, r.nMaxEqZero);
    } else {
      var _ := InsertClosed(t, n, q, i);
    }
  }

  /** The two ways a non-periodic sample is inserted, once no open periodic one stands for it. */
  lemma InsertForms(p: Accum, s: Sample, nEqZero: nat, u: nat, nMax: nat)
    requires Shape(p) && SampleShape(s, p.nCol) && nEqZero <= p.nCol && CanInsert(p)
    requires !s.isP && !OpenPeriodic(p.a, p.nCol, s.iCol) && u == UpgradeFrom(p.a, p.nCol, s.iCol, 0)
    requires nMax == if nEqZero > p.nMaxEqZero then nEqZero else p.nMaxEqZero
    ensures u < |p.a| ==> Insert(p, s, nEqZero) == FindNewMin(p.(nMaxEqZero := nMax, a := p.a[u :=
              p.a[u].(iCol := s.iCol, anEq := p.a[u].anEq[s.iCol := s.anEq[s.iCol]])]))
    ensures u == |p.a| ==> Insert(p, s, nEqZero) == FindNewMin(p.(nMaxEqZero := nMax, a :=
              Kept(p) + [s.(anEq := ZeroFirst(s.anEq, nEqZero))]))
  {
  }

  /** sampleInsert of a closed candidate that no open periodic sample stands for. */
  lemma InsertClosed(t: Scan, n: nat, q: Accum, i: nat) returns (r: Accum)
    requires ScanOk(t) && 0 < n <= |t.c| && i < t.nCol - 1 && Shape(q) && q.nCol == t.nCol && CanInsert(q) && VictimOk(q)
    requires Buffer(t, n, q.a, i + 1, q.nMaxEqZero) && !OpenPeriodic(q.a, t.nCol, i)
    requires ClosedCandidate(t, n, i, q.aBest[i]) && q.aBest[i].anEq[i] == Running(t.c, i, n - 1)
    ensures r == Insert(q, q.aBest[i], i)
    ensures Buffer(t, n, r.a, i, r.nMaxEqZero) && VictimOk(r)
  {
    var s := q.aBest[i];
    var u := UpgradeFrom(q.a, t.nCol, i, 0);
    var nMax := if i > q.nMaxEqZero then i else q.nMaxEqZero;
    InsertKeepsVictim(q, s, i);
    InsertForms(q, s, i, u, nMax);
    var up := if u < |q.a| then q.a[u].(iCol := i, anEq := q.a[u].anEq[i := s.anEq[i]]) else s;
    var b := if u < |q.a| then q.a[u := up] else Kept(q) + [s.(anEq := ZeroFirst(s.anEq, i))];
    r := FindNewMin(q.(nMaxEqZero := nMax, a := b));
    hide Insert;
    FindNewMinOk(q.(nMaxEqZero := nMax, a := b));
    assert Buffer(t, n, b, i, nMax) by {
      if u < |q.a| {
        UpgradeKeepsBuffer(t, n, q.a, i, u, up, q.nMaxEqZero, nMax);
      } else {
        UpgradeIsBest(q.a, t.nCol, i, 0);
        InsertKeepsBuffer(t, n, q.a, i, s, Kept(q), if |q.a| >= q.mxSample then q.iMin else -1, q.nMaxEqZero, nMax);
      }
    }
    hide Buffer;
  }

  lemma {:induction false} PushBestsKeepsMid(t: Scan, n: nat, p: Accum, i: nat, iChng: nat) returns (q: Accum)
    requires ScanOk(t) && iChng <= i < t.nCol && Mid(t, n, p, i) && CanInsert(p)
    ensures q == PushBests(p, i, iChng)
    ensures Mid(t, n, q, iChng)
    decreases i
  {
    if i == iChng {
      return p;
    }
    var k := i - 1;
    PushBestKeepsMid(t, n, p, k);
    q := PushBestsKeepsMid(t, n, PushBest(p, k), k, iChng);
  }
}
