/** Which rows the buffer keeps.  Once a group of rows equal on columns 0..j has ended, some retained
    sample is in it, unless the buffer is full and every sample in it that was not taken periodically
    stands for a group at least as large. */
module StatCoverage {
  import opened Lists
  import opened PrefixGroups
  import opened StatSpec
  import opened StatOrder
  import opened StatProof
  import opened StatScan

  /** s is in row r's group on columns 0..j, as a periodic sample or for a group that is no finer. */
  ghost predicate StandsFor(t: Scan, s: Sample, r: nat, j: nat)
    requires ScanOk(t) && r < |t.c|
  {
    && SampleShape(s, t.nCol) && RowOf(s, t.nCol) < |t.c|
    && Start(t.c, j, RowOf(s, t.nCol)) == Start(t.c, j, r)
    && (s.isP || s.iCol <= j)
  }

  /** s stands for a group larger than size, or as large on columns 0..j or fewer. */
  ghost predicate Outranks(s: Sample, size: nat, j: nat) {
    s.iCol < |s.anEq| && (s.anEq[s.iCol] > size || (s.anEq[s.iCol] == size && s.iCol <= j))
  }

  ghost predicate AllOutrank(a: seq<Sample>, mx: nat, size: nat, j: nat) {
    |a| == mx && forall k :: 0 <= k < |a| && !a[k].isP ==> Outranks(a[k], size, j)
  }

  ghost predicate Covered(t: Scan, n: nat, a: seq<Sample>, mx: nat, r: nat, j: nat)
    requires ScanOk(t) && r < n <= |t.c|
  {
    (exists k :: 0 <= k < |a| && StandsFor(t, a[k], r, j)) || AllOutrank(a, mx, Size(t.c, j, r, n), j)
  }

  /** Of the first n rows, the groups that have ended, and on columns lvl.. also those ending now. */
  ghost predicate Coverage(t: Scan, n: nat, a: seq<Sample>, mx: nat, lvl: nat)
    requires ScanOk(t) && n <= |t.c|
  {
    forall r, j :: 0 <= r < n && 0 <= j < t.nCol - 1 && (j >= lvl || !Open(t.c, j, r, n)) ==> Covered(t, n, a, mx, r, j)
  }

  /** Rows of one group have one size. */
  lemma {:induction false} SizeOfMembers(c: seq<nat>, j: nat, r: nat, k: nat, n: nat)
    requires r <= k < n <= |c| && c[0] == 0 && Start(c, j, k) == Start(c, j, r)
    ensures Size(c, j, k, n) == Size(c, j, r, n)
    decreases n
  {
    if n == k + 1 {
      SizeOfOpen(c, j, r, n);
    } else {
      SizeOfMembers(c, j, r, k, n - 1);
      if Start(c, j, n - 1) <= k {
        StartOfMember(c, j, k, n - 1);
      }
    }
  }

  /** A sample's own group is no smaller than a finer one of its row. */
  lemma OwnGroup(t: Scan, n: nat, s: Sample, r: nat, j: nat)
    requires ScanOk(t) && n <= |t.c| && r < n && SampleOk(t, n, s) && !s.isP && StandsFor(t, s, r, j)
    ensures Outranks(s, Size(t.c, j, r, n), j)
  {
    var x := RowOf(s, t.nCol);
    assert ColumnOk(t, n, s, x, s.iCol);
    SizeMonotone(t.c, s.iCol, j, x, n);
    if r <= x {
      SizeOfMembers(t.c, j, r, x, n);
    } else {
      SizeOfMembers(t.c, j, x, r, n);
    }
  }

  /** What a sample outranks, one that it is not better than outranks too. */
  lemma OutranksThrough(s: Sample, x: Sample, nCol: nat, size: nat, j: nat)
    requires SampleShape(s, nCol) && SampleShape(x, nCol) && !Better(s, x, nCol) && Outranks(s, size, j)
    ensures Outranks(x, size, j)
  {
  }

  /** y is of the same row as x, and stands for what x stands for, or for a larger group. */
  ghost predicate Keeps(x: Sample, y: Sample, nCol: nat) {
    && SampleShape(x, nCol) && SampleShape(y, nCol) && y.anLt == x.anLt && y.isP == x.isP
    && (!x.isP ==> y.iCol <= x.iCol && Outranks(y, x.anEq[x.iCol], x.iCol))
  }

  lemma KeepsCoverage(t: Scan, n: nat, a: seq<Sample>, b: seq<Sample>, mx: nat, lvl: nat)
    requires ScanOk(t) && n <= |t.c| && Coverage(t, n, a, mx, lvl) && |b| == |a|
    requires forall k :: 0 <= k < |a| ==> Keeps(a[k], b[k], t.nCol)
    ensures Coverage(t, n, b, mx, lvl)
  {
    forall r, j | 0 <= r < n && 0 <= j < t.nCol - 1 && (j >= lvl || !Open(t.c, j, r, n))
      ensures Covered(t, n, b, mx, r, j)
    {
      KeepsCovered(t, n, a, b, mx, r, j);
    }
  }

  lemma KeepsCovered(t: Scan, n: nat, a: seq<Sample>, b: seq<Sample>, mx: nat, r: nat, j: nat)
    requires ScanOk(t) && r < n <= |t.c| && Covered(t, n, a, mx, r, j) && |b| == |a|
    requires forall k :: 0 <= k < |a| ==> Keeps(a[k], b[k], t.nCol)
    ensures Covered(t, n, b, mx, r, j)
  {
    if k :| 0 <= k < |a| && StandsFor(t, a[k], r, j) {
      assert Keeps(a[k], b[k], t.nCol);
      assert StandsFor(t, b[k], r, j);
    } else {
      var size := Size(t.c, j, r, n);
      forall k | 0 <= k < |b| && !b[k].isP
        ensures Outranks(b[k], size, j)
      {
        assert Keeps(a[k], b[k], t.nCol);
      }
    }
  }

  /** Evicting the least preferred sample and adding one that covers nothing less. */
  lemma EvictionCovers(t: Scan, n: nat, a: seq<Sample>, v: nat, x: Sample, mx: nat, r: nat, j: nat)
    requires ScanOk(t) && r < n <= |t.c| && SamplesOk(t, n, a) && |a| == mx && v < |a| && !a[v].isP
    requires forall k :: 0 <= k < |a| && !a[k].isP ==> !Better(a[v], a[k], t.nCol)
    requires SampleShape(x, t.nCol) && (x.isP || !Better(a[v], x, t.nCol))
    requires Covered(t, n, a, mx, r, j)
    ensures Covered(t, n, Removed(a, v) + [x], mx, r, j)
  {
    var b := Removed(a, v) + [x];
    if k :| 0 <= k < |a| && k != v && StandsFor(t, a[k], r, j) {
      assert b[if k < v then k else k - 1] == a[k];
    } else {
      var size := Size(t.c, j, r, n);
      if StandsFor(t, a[v], r, j) {
        OwnGroup(t, n, a[v], r, j);
      }
      forall k | 0 <= k < |b| && !b[k].isP
        ensures Outranks(b[k], size, j)
      {
        assert b[k] == if k == |b| - 1 then x else a[if k < v then k else k + 1];
        OutranksThrough(a[v], b[k], t.nCol, size, j);
      }
    }
  }

  /** Columns lvl.. are covered for the rows of the group that ends now. */
  ghost predicate LevelCovered(t: Scan, n: nat, a: seq<Sample>, mx: nat, i: nat)
    requires ScanOk(t) && n <= |t.c|
  {
    forall r :: 0 <= r < n && Open(t.c, i, r, n) ==> Covered(t, n, a, mx, r, i)
  }

  lemma CoverageDown(t: Scan, n: nat, a: seq<Sample>, mx: nat, i: nat)
    requires ScanOk(t) && n <= |t.c| && Coverage(t, n, a, mx, i + 1) && LevelCovered(t, n, a, mx, i)
    ensures Coverage(t, n, a, mx, i)
  {
    hide Covered;
  }

  /** A sample in the group that ends with row n-1 is in the group of all its rows. */
  lemma InOpenGroup(t: Scan, n: nat, i: nat, s: Sample, r: nat)
    requires ScanOk(t) && r < n <= |t.c| && Open(t.c, i, r, n)
    requires SampleShape(s, t.nCol) && RowOf(s, t.nCol) < n && Open(t.c, i, RowOf(s, t.nCol), n) && (s.isP || s.iCol <= i)
    ensures StandsFor(t, s, r, i)
  {
    StartOfMember(t.c, i, r, n - 1);
    StartOfMember(t.c, i, RowOf(s, t.nCol), n - 1);
  }

  lemma OpenGroupCovered(t: Scan, n: nat, a: seq<Sample>, mx: nat, i: nat, k: nat)
    requires ScanOk(t) && n <= |t.c| && k < |a| && SampleShape(a[k], t.nCol) && RowOf(a[k], t.nCol) < n
    requires Open(t.c, i, RowOf(a[k], t.nCol), n) && (a[k].isP || a[k].iCol <= i)
    ensures LevelCovered(t, n, a, mx, i)
  {
    forall r | 0 <= r < n && Open(t.c, i, r, n)
      ensures Covered(t, n, a, mx, r, i)
    {
      InOpenGroup(t, n, i, a[k], r);
    }
  }

  /** A candidate that is turned away is outranked by the whole buffer. */
  lemma UnworthyCovered(t: Scan, n: nat, q: Accum, i: nat)
    requires ScanOk(t) && 0 < n <= |t.c| && i < t.nCol - 1 && Shape(q) && q.nCol == t.nCol && CanInsert(q) && VictimOk(q)
    requires ClosedCandidate(t, n, i, q.aBest[i]) && !Worthy(q, q.aBest[i])
    ensures LevelCovered(t, n, q.a, q.mxSample, i)
  {
    var s := q.aBest[i];
    var x := RowOf(s, t.nCol);
    forall r | 0 <= r < n && Open(t.c, i, r, n)
      ensures Covered(t, n, q.a, q.mxSample, r, i)
    {
      SizeOfOpen(t.c, i, r, n);
      SizeOfOpen(t.c, i, x, n);
      forall k | 0 <= k < |q.a| && !q.a[k].isP
        ensures Outranks(q.a[k], Size(t.c, i, r, n), i)
      {
        BetterWeakOrder(s, q.a[q.iMin], q.a[k], t.nCol);
        OutranksThrough(s, q.a[k], t.nCol, Size(t.c, i, r, n), i);
      }
    }
  }

  /** sampleInsert turned into an upgrade. */
  lemma UpgradeCovers(t: Scan, n: nat, a: seq<Sample>, mx: nat, i: nat, s: Sample, u: nat)
    requires ScanOk(t) && 0 < n <= |t.c| && i < t.nCol - 1 && SamplesOk(t, n, a) && Coverage(t, n, a, mx, i + 1)
    requires ClosedCandidate(t, n, i, s) && u < |a| && !a[u].isP && a[u].anEq[i] == 0 && Deferred(t, n, a[u], i + 1)
    ensures Coverage(t, n, a[u := a[u].(iCol := i, anEq := a[u].anEq[i := s.anEq[i]])], mx, i)
  {
    var b := a[u := a[u].(iCol := i, anEq := a[u].anEq[i := s.anEq[i]])];
    CandidateBeatsOpenSample(t, n, i, s, a[u]);
    OpenMeansZero(t, n, i, a[u]);
    KeepsCoverage(t, n, a, b, mx, i + 1);
    OpenGroupCovered(t, n, b, mx, i, u);
    CoverageDown(t, n, b, mx, i);
  }

  /** Adding sample x, the least preferred one making room if need be. */
  lemma AppendCovers(t: Scan, n: nat, p: Accum, x: Sample, lvl: nat)
    requires ScanOk(t) && 0 < n <= |t.c| && Shape(p) && p.nCol == t.nCol && CanInsert(p) && VictimOk(p)
    requires SamplesOk(t, n, p.a) && Coverage(t, n, p.a, p.mxSample, lvl) && SampleShape(x, t.nCol)
    requires x.isP || |p.a| < p.mxSample || !Better(p.a[p.iMin], x, t.nCol)
    ensures Coverage(t, n, Kept(p) + [x], p.mxSample, lvl)
  {
    hide Covered;
    hide SampleOk;
    hide Better;
    forall r, j | 0 <= r < n && 0 <= j < t.nCol - 1 && (j >= lvl || !Open(t.c, j, r, n))
      ensures Covered(t, n, Kept(p) + [x], p.mxSample, r, j)
    {
      if |p.a| == p.mxSample {
        EvictionCovers(t, n, p.a, p.iMin, x, p.mxSample, r, j);
      } else {
        RoomCovers(t, n, p.a, x, p.mxSample, r, j);
      }
    }
  }

  lemma RoomCovers(t: Scan, n: nat, a: seq<Sample>, x: Sample, mx: nat, r: nat, j: nat)
    requires ScanOk(t) && r < n <= |t.c| && |a| != mx && Covered(t, n, a, mx, r, j)
    ensures Covered(t, n, a + [x], mx, r, j)
  {
    var k :| 0 <= k < |a| && StandsFor(t, a[k], r, j);
    assert (a + [x])[k] == a[k];
  }

  /** sampleInsert adding the candidate. */
  lemma InsertCovers(t: Scan, n: nat, q: Accum, i: nat)
    requires ScanOk(t) && 0 < n <= |t.c| && i < t.nCol - 1 && Shape(q) && q.nCol == t.nCol && CanInsert(q) && VictimOk(q)
    requires SamplesOk(t, n, q.a) && Coverage(t, n, q.a, q.mxSample, i + 1)
    requires ClosedCandidate(t, n, i, q.aBest[i]) && Worthy(q, q.aBest[i])
    ensures Coverage(t, n, Kept(q) + [q.aBest[i].(anEq := ZeroFirst(q.aBest[i].anEq, i))], q.mxSample, i)
  {
    var s := q.aBest[i];
    var x := s.(anEq := ZeroFirst(s.anEq, i));
    if |q.a| == q.mxSample {
      BetterReads(s, q.a[q.iMin], x, q.a[q.iMin], t.nCol);
      BetterWeakOrder(x, q.a[q.iMin], x, t.nCol);
    }
    AppendCovers(t, n, q, x, i + 1);
    OpenGroupCovered(t, n, Kept(q) + [x], q.mxSample, i, |Kept(q)|);
    CoverageDown(t, n, Kept(q) + [x], q.mxSample, i);
  }

  /** One turn of the candidate loop covers the group that ends on columns 0..i. */
  lemma PushBestCovers(t: Scan, n: nat, p: Accum, i: nat)
    requires ScanOk(t) && i < t.nCol - 1 && Mid(t, n, p, i + 1) && CanInsert(p) && Coverage(t, n, p.a, p.mxSample, i + 1)
    ensures Coverage(t, n, PushBest(p, i).a, p.mxSample, i)
  {
    hide Coverage;
    var q := CloseBest(p, i);
    var s := q.aBest[i];
    CloseCandidate(t, n, p, i);
    if !Worthy(q, s) {
      UnworthyCovered(t, n, q, i);
      CoverageDown(t, n, p.a, p.mxSample, i);
    } else if OpenPeriodic(p.a, t.nCol, i) {
      var k :| 0 <= k < |p.a| && SampleShape(p.a[k], t.nCol) && p.a[k].isP && p.a[k].anEq[i] == 0;
      OpenMeansZero(t, n, i, p.a[k]);
      OpenGroupCovered(t, n, p.a, p.mxSample, i, k);
      CoverageDown(t, n, p.a, p.mxSample, i);
    } else {
      var u := UpgradeFrom(p.a, t.nCol, i, 0);
      InsertForms(q, s, i, u, if i > q.nMaxEqZero then i else q.nMaxEqZero);
      if u < |p.a| {
        UpgradeCovers(t, n, q.a, q.mxSample, i, s, u);
      } else {
        InsertCovers(t, n, q, i);
      }
    }
  }

  lemma {:induction false} PushBestsCovers(t: Scan, n: nat, p: Accum, i: nat, iChng: nat)
    requires ScanOk(t) && iChng <= i < t.nCol && Mid(t, n, p, i) && CanInsert(p) && Coverage(t, n, p.a, p.mxSample, i)
    ensures Coverage(t, n, PushBests(p, i, iChng).a, p.mxSample, iChng)
    decreases i
  {
    hide Coverage;
    hide CandidateOk;
    hide Describes;
    hide Buffer;
    hide VictimOk;
    hide PushBest;
    if i > iChng {
      PushBestCovers(t, n, p, i - 1);
      PushBestKeepsMid(t, n, p, i - 1);
      PushBestsCovers(t, n, PushBest(p, i - 1), i - 1, iChng);
    }
  }

  /** Filling in deferred counters changes none that a sample stands by. */
  lemma CloseGroupsCovers(t: Scan, n: nat, m: Accum, iChng: nat)
    requires ScanOk(t) && iChng < t.nCol && 0 < n <= |t.c| && Shape(m) && m.nCol == t.nCol && SamplesOk(t, n, m.a)
    requires Coverage(t, n, m.a, m.mxSample, iChng)
    ensures Coverage(t, n, CloseGroups(m, iChng).a, m.mxSample, iChng)
  {
    KeepsCoverage(t, n, m.a, CloseGroups(m, iChng).a, m.mxSample, iChng);
  }

  /** samplePushPrevious */
  lemma PushPreviousCovers(t: Scan, n: nat, p: Accum, iChng: nat)
    requires ScanOk(t) && iChng < t.nCol && Mid(t, n, p, t.nCol - 1) && CanInsert(p)
    requires Coverage(t, n, p.a, p.mxSample, t.nCol - 1)
    ensures Coverage(t, n, PushPrevious(p, iChng).a, p.mxSample, iChng)
  {
    hide Coverage;
    hide PushBests;
    hide CloseGroups;
    PushBestsCovers(t, n, p, t.nCol - 1, iChng);
    var m := PushBestsKeepsMid(t, n, p, t.nCol - 1, iChng);
    CloseGroupsCovers(t, n, m, iChng);
  }

  /** The groups that end when row n comes are those of the columns from c[n] on. */
  lemma NextRowCovers(t: Scan, n: nat, a: seq<Sample>, mx: nat)
    requires ScanOk(t) && 0 < n < |t.c| && Coverage(t, n, a, mx, t.c[n])
    ensures Coverage(t, n + 1, a, mx, t.nCol - 1)
  {
    var m := n + 1;
    forall r, j | 0 <= r < m && 0 <= j < t.nCol - 1 && !Open(t.c, j, r, m)
      ensures Covered(t, m, a, mx, r, j)
    {
      assert r < n;
      SizeStep(t.c, j, r, n);
      assert Covered(t, n, a, mx, r, j);
    }
  }

  /** The row just counted, taken as a periodic sample or not, and offered as a candidate. */
  lemma CollectCovers(t: Scan, n: nat, p: Accum, iChng: nat)
    requires ScanOk(t) && Fresh(t, n, p) && CanInsert(p) && iChng < t.nCol
    requires Coverage(t, n, p.a, p.mxSample, t.nCol - 1)
    ensures Coverage(t, n, Collect(p, iChng).a, p.mxSample, t.nCol - 1)
  {
    hide Coverage;
    hide Insert;
    PeriodicCovers(t, n, p);
  }

  lemma PeriodicCovers(t: Scan, n: nat, p: Accum)
    requires ScanOk(t) && Fresh(t, n, p) && CanInsert(p)
    requires Coverage(t, n, p.a, p.mxSample, t.nCol - 1)
    ensures Coverage(t, n, Insert(p, p.current.(isP := true, iCol := 0), t.nCol - 1).a, p.mxSample, t.nCol - 1)
  {
    hide Coverage;
    hide CandidateOk;
    hide Describes;
    hide VictimOk;
    AppendCovers(t, n, p, p.current.(isP := true, iCol := 0, anEq := ZeroFirst(p.current.anEq, t.nCol - 1)), t.nCol - 1);
  }

  /** statPush */
  lemma PushCovers(t: Scan, n: nat, p: Accum)
    requires ScanOk(t) && n < |t.c| && Mid(t, n, p, t.nCol - 1) && CanInsert(p)
    requires Coverage(t, n, p.a, p.mxSample, t.nCol - 1)
    ensures Coverage(t, n + 1, Push(p, t.c[n], t.rowid[n]).a, p.mxSample, t.nCol - 1)
  {
    hide Coverage;
    hide Collect;
    hide PushPrevious;
    PushPreviousCovers(t, n, p, t.c[n]);
    NextRowCovers(t, n, PushPrevious(p, t.c[n]).a, p.mxSample);
    var f := AdvanceNext(t, n, p);
    CollectCovers(t, n + 1, f, t.c[n]);
  }

  /** One row ends no group. */
  lemma FirstRowCovers(t: Scan, mxSample: nat, nP: nat)
    requires ScanOk(t) && |t.c| > 0 && mxSample > 0 && nP > 0
    ensures Coverage(t, 1, Push(Init(t.nCol, mxSample, nP, t.seed), t.c[0], t.rowid[0]).a, mxSample, t.nCol - 1)
  {
    hide Collect;
    var f := AdvanceFirst(t, mxSample, nP);
    CollectCovers(t, 1, f, 0);
  }
}
