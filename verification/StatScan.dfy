/** One push, a whole scan, and the flush: the invariant of module StatProof carried along. */
module StatScan {
  import opened PrefixGroups
  import opened StatSpec
  import opened StatOrder
  import opened StatProof

  /** The rows before n are closed on columns iChng.. (samplePushPrevious has run). */
  ghost predicate Closed(t: Scan, n: nat, p: Accum, iChng: nat)
    requires ScanOk(t)
  {
    && 0 < n <= |t.c| && iChng < t.nCol
    && Shape(p) && p.nCol == t.nCol && p.nRow == n && p.iPrn == HashAt(t.seed, n - 1)
    && Describes(t, p.current, n - 1, 0)
    && (forall i :: 0 <= i < iChng && i < t.nCol - 1 ==> CandidateOk(t, n, i, p.aBest[i]))
    && SamplesOk(t, n, p.a)
    && (forall k :: 0 <= k < |p.a| ==> Deferred(t, n, p.a[k], iChng))
    && Sorted(p.a, t.nCol)
    && p.nMaxEqZero <= iChng && ZerosBelow(p.a, t.nCol, p.nMaxEqZero)
    && VictimOk(p)
    && PeriodicsKept(t.per, n, p.a, t.nCol)
  }

  /** Filling one sample's deferred counters from the current row's. */
  lemma FillSample(t: Scan, n: nat, x: Sample, y: Sample, eq: seq<nat>, iChng: nat)
    requires ScanOk(t) && 0 < n <= |t.c| && iChng < t.nCol && SampleOk(t, n, x) && Deferred(t, n, x, iChng)
    requires |eq| == t.nCol && forall j :: 0 <= j < t.nCol ==> eq[j] == Running(t.c, j, n - 1)
    requires y == x.(anEq := FillEq(x.anEq, eq, iChng))
    ensures SampleOk(t, n, y) && Deferred(t, n, y, iChng)
    ensures forall j :: iChng <= j < t.nCol ==> y.anEq[j] == Size(t.c, j, RowOf(y, t.nCol), n) > 0
    ensures !x.isP ==> forall j :: x.iCol <= j < t.nCol ==> y.anEq[j] == x.anEq[j]
  {
    var r := RowOf(x, t.nCol);
    forall j | 0 <= j < t.nCol
      ensures ColumnOk(t, n, y, r, j)
      ensures j >= iChng ==> y.anEq[j] == Size(t.c, j, r, n) > 0
    {
      assert ColumnOk(t, n, x, r, j);
      if x.anEq[j] == 0 {
        SizeOfOpen(t.c, j, r, n);
      }
      SizePositive(t.c, j, r, n);
    }
  }

  lemma VictimUntouched(p: Accum, q: Accum)
    requires Shape(p) && Shape(q) && VictimOk(p) && |q.a| == |p.a| && q.iMin == p.iMin && q.nCol == p.nCol && q.mxSample == p.mxSample
    requires forall k :: 0 <= k < |p.a| ==> q.a[k].isP == p.a[k].isP && q.a[k].iCol == p.a[k].iCol && q.a[k].iHash == p.a[k].iHash
    requires forall k, j :: 0 <= k < |p.a| && !p.a[k].isP && p.a[k].iCol <= j < p.nCol ==> q.a[k].anEq[j] == p.a[k].anEq[j]
    ensures VictimOk(q)
  {
    if |p.a| == p.mxSample {
      forall k | 0 <= k < |q.a| && !q.a[k].isP
        ensures !Better(q.a[q.iMin], q.a[k], q.nCol)
      {
        BetterReads(p.a[p.iMin], p.a[k], q.a[q.iMin], q.a[k], p.nCol);
      }
    }
  }

  lemma FillBuffer(t: Scan, n: nat, a: seq<Sample>, b: seq<Sample>, eq: seq<nat>, iChng: nat)
    requires ScanOk(t) && 0 < n <= |t.c| && iChng < t.nCol && SamplesOk(t, n, a)
    requires forall k :: 0 <= k < |a| ==> Deferred(t, n, a[k], iChng)
    requires |eq| == t.nCol && forall j :: 0 <= j < t.nCol ==> eq[j] == Running(t.c, j, n - 1)
    requires b == FillAll(a, t.nCol, eq, iChng)
    ensures SamplesOk(t, n, b) && forall k :: 0 <= k < |b| ==> Deferred(t, n, b[k], iChng)
    ensures forall k, j :: 0 <= k < |b| && iChng <= j < t.nCol ==> b[k].anEq[j] == Size(t.c, j, RowOf(b[k], t.nCol), n) > 0
    ensures forall k, j :: 0 <= k < |b| && !b[k].isP && b[k].iCol <= j < t.nCol ==> b[k].anEq[j] == a[k].anEq[j]
  {
    forall k | 0 <= k < |b|
      ensures SampleOk(t, n, b[k]) && Deferred(t, n, b[k], iChng)
      ensures forall j :: iChng <= j < t.nCol ==> b[k].anEq[j] == Size(t.c, j, RowOf(b[k], t.nCol), n) > 0
      ensures !b[k].isP ==> forall j :: b[k].iCol <= j < t.nCol ==> b[k].anEq[j] == a[k].anEq[j]
    {
      FillSample(t, n, a[k], b[k], eq, iChng);
    }
  }

  /** Every counter from column iChng on is final after samplePushPrevious. */
  ghost predicate Exact(t: Scan, n: nat, a: seq<Sample>, iChng: nat)
    requires ScanOk(t) && n <= |t.c| && SamplesOk(t, n, a)
  {
    forall k, j :: 0 <= k < |a| && iChng <= j < t.nCol ==> a[k].anEq[j] == Size(t.c, j, RowOf(a[k], t.nCol), n)
  }

  /** Filling the deferred counters closes columns iChng... */
  lemma FillCloses(t: Scan, n: nat, m: Accum, q: Accum, iChng: nat)
    requires ScanOk(t) && iChng < t.nCol && Mid(t, n, m, iChng) && Shape(q)
    requires q == m.(a := FillAll(m.a, m.nCol, m.current.anEq, iChng), nMaxEqZero := iChng)
    ensures Closed(t, n, q, iChng) && Exact(t, n, q.a, iChng)
  {
    hide Deferred;
    hide ColumnOk;
    hide CandidateOk;
    hide Better;
    hide VictimOk;
    FillBuffer(t, n, m.a, q.a, m.current.anEq, iChng);
    PeriodicsUntouched(t.per, n, m.a, q.a, t.nCol);
    VictimUntouched(m, q);
  }

  lemma NothingToFill(t: Scan, n: nat, q: Accum, iChng: nat)
    requires ScanOk(t) && iChng < t.nCol && Mid(t, n, q, iChng) && q.nMaxEqZero <= iChng
    ensures Closed(t, n, q, iChng) && Exact(t, n, q.a, iChng)
  {
    forall k, j | 0 <= k < |q.a| && iChng <= j < t.nCol
      ensures q.a[k].anEq[j] == Size(t.c, j, RowOf(q.a[k], t.nCol), n)
    {
      assert ColumnOk(t, n, q.a[k], RowOf(q.a[k], t.nCol), j);
    }
  }

  lemma GroupsClosed(t: Scan, n: nat, m: Accum, iChng: nat)
    requires ScanOk(t) && iChng < t.nCol && Mid(t, n, m, iChng)
    ensures Closed(t, n, CloseGroups(m, iChng), iChng)
    ensures Exact(t, n, CloseGroups(m, iChng).a, iChng)
  {
    hide Exact;
    hide Deferred;
    hide SampleOk;
    hide CandidateOk;
    hide Better;
    hide VictimOk;
    hide Describes;
    if iChng < m.nMaxEqZero {
      FillCloses(t, n, m, CloseGroups(m, iChng), iChng);
    } else {
      NothingToFill(t, n, m, iChng);
    }
  }

  /** samplePushPrevious */
  lemma PushPreviousCloses(t: Scan, n: nat, p: Accum, iChng: nat) returns (q: Accum)
    requires ScanOk(t) && iChng < t.nCol && Mid(t, n, p, t.nCol - 1) && CanInsert(p)
    ensures q == PushPrevious(p, iChng)
    ensures Closed(t, n, q, iChng)
    ensures Exact(t, n, q.a, iChng)
  {
    hide PushBests;
    hide CloseGroups;
    hide Buffer;
    hide CandidateOk;
    hide Better;
    hide VictimOk;
    hide Describes;
    hide Exact;
    hide Closed;
    var m := PushBestsKeepsMid(t, n, p, t.nCol - 1, iChng);
    q := CloseGroups(m, iChng);
    GroupsClosed(t, n, m, iChng);
  }

  /** A new row has been counted but not yet offered to the buffer. */
  ghost predicate Fresh(t: Scan, n: nat, p: Accum)
    requires ScanOk(t)
  {
    && 0 < n <= |t.c|
    && Shape(p) && p.nCol == t.nCol && p.nRow == n && p.iPrn == HashAt(t.seed, n - 1)
    && Describes(t, p.current, n - 1, 0)
    && (forall i :: 0 <= i < t.c[n - 1] && i < t.nCol - 1 ==> n > 1 && CandidateOk(t, n - 1, i, p.aBest[i]))
    && SamplesOk(t, n, p.a)
    && (forall k :: 0 <= k < |p.a| ==> RowOf(p.a[k], t.nCol) < n - 1 && Deferred(t, n, p.a[k], t.nCol - 1))
    && Sorted(p.a, t.nCol)
    && ZerosBelow(p.a, t.nCol, p.nMaxEqZero)
    && VictimOk(p)
    && PeriodicsKept(t.per, n - 1, p.a, t.nCol)
  }

  /** A closed sample seen after one more row. */
  lemma AgeSample(t: Scan, n: nat, x: Sample)
    requires ScanOk(t) && 0 < n < |t.c| && SampleOk(t, n, x) && Deferred(t, n, x, t.c[n])
    requires forall j :: t.c[n] <= j < t.nCol ==> x.anEq[j] != 0
    ensures SampleOk(t, n + 1, x) && Deferred(t, n + 1, x, t.nCol - 1)
  {
    var (r, n') := (RowOf(x, t.nCol), n + 1);
    forall j | 0 <= j < t.nCol
      ensures ColumnOk(t, n', x, r, j)
      ensures j < t.nCol - 1 && Open(t.c, j, r, n') ==> x.anEq[j] == 0
    {
      assert ColumnOk(t, n, x, r, j);
      SizeStep(t.c, j, r, n);
    }
    assert SampleOk(t, n', x);
  }

  /** The running counters of the new row. */
  lemma NextDescribes(t: Scan, n: nat, s: Sample, s': Sample)
    requires ScanOk(t) && 0 < n < |t.c| && Describes(t, s, n - 1, 0)
    requires s' == NextCounters(s, t.nCol, t.c[n]).(rowid := t.rowid[n], iHash := HashAt(t.seed, n))
    ensures Describes(t, s', n, 0)
  {
    forall j | 0 <= j < t.nCol
      ensures s'.anLt[j] == Start(t.c, j, n) && s'.anDLt[j] == Before(t.c, j, n) && s'.anEq[j] == Running(t.c, j, n)
    {
      assert s.anLt[j] == Start(t.c, j, n - 1);
    }
  }

  lemma AdvanceFirst(t: Scan, mxSample: nat, nPSample: nat) returns (q: Accum)
    requires ScanOk(t) && |t.c| > 0 && mxSample > 0 && nPSample > 0
    ensures q == Advance(Init(t.nCol, mxSample, nPSample, t.seed), 0, t.rowid[0])
    ensures q.mxSample == mxSample && q.nPSample == nPSample
    ensures Fresh(t, 1, q)
  {
    q := Advance(Init(t.nCol, mxSample, nPSample, t.seed), 0, t.rowid[0]);
  }

  /** statPush up to the periodic sample. */
  lemma AdvanceNext(t: Scan, n: nat, p: Accum) returns (q: Accum)
    requires ScanOk(t) && Mid(t, n, p, t.nCol - 1) && n < |t.c| && CanInsert(p)
    ensures q == Advance(p, t.c[n], t.rowid[n]) && q.mxSample == p.mxSample && q.nPSample == p.nPSample
    ensures Fresh(t, n + 1, q)
  {
    hide Closed;
    hide Fresh;
    hide Describes;
    hide Exact;
    hide VictimOk;
    var m := PushPreviousCloses(t, n, p, t.c[n]);
    ClosedBuffer(t, n, m, t.c[n]);
    var prn := Lcg(m.iPrn);
    var cur := NextCounters(m.current, t.nCol, t.c[n]).(rowid := t.rowid[n], iHash := prn);
    NextDescribes(t, n, m.current, cur);
    q := m.(nRow := n + 1, iPrn := prn, current := cur);
    AgeBuffer(t, n, m.a);
    NextIsFresh(t, n, m, q);
  }

  /** The row counted after those before it are closed. */
  lemma NextIsFresh(t: Scan, n: nat, m: Accum, q: Accum)
    requires ScanOk(t) && n < |t.c| && Closed(t, n, m, t.c[n]) && Describes(t, q.current, n, 0) && !q.current.isP
    requires q == m.(nRow := n + 1, iPrn := HashAt(t.seed, n), current := q.current)
    requires SamplesOk(t, n + 1, m.a) && forall k :: 0 <= k < |m.a| ==> Deferred(t, n + 1, m.a[k], t.nCol - 1)
    ensures Fresh(t, n + 1, q)
  {
    hide Deferred;
    hide ColumnOk;
    hide CandidateOk;
    hide Better;
    hide RunningFrom;
    hide VictimOk;
    VictimUntouched(m, q);
  }

  lemma ClosedBuffer(t: Scan, n: nat, m: Accum, iChng: nat)
    requires ScanOk(t) && Closed(t, n, m, iChng)
    ensures 0 < n <= |t.c| && m.nCol == t.nCol && m.iPrn == HashAt(t.seed, n - 1) && Describes(t, m.current, n - 1, 0) && !m.current.isP
    ensures SamplesOk(t, n, m.a) && forall k :: 0 <= k < |m.a| ==> Deferred(t, n, m.a[k], iChng)
  {
  }

  lemma AgeBuffer(t: Scan, n: nat, a: seq<Sample>)
    requires ScanOk(t) && 0 < n < |t.c| && SamplesOk(t, n, a)
    requires (forall k :: 0 <= k < |a| ==> Deferred(t, n, a[k], t.c[n])) && Exact(t, n, a, t.c[n])
    ensures SamplesOk(t, n + 1, a) && forall k :: 0 <= k < |a| ==> Deferred(t, n + 1, a[k], t.nCol - 1)
  {
    forall k | 0 <= k < |a|
      ensures SampleOk(t, n + 1, a[k]) && Deferred(t, n + 1, a[k], t.nCol - 1)
    {
      forall j | t.c[n] <= j < t.nCol
        ensures a[k].anEq[j] != 0
      {
        SizePositive(t.c, j, RowOf(a[k], t.nCol), n);
      }
      AgeSample(t, n, a[k]);
    }
  }

  /** The periodic sample taken of the current row. */
  lemma PeriodicSampleOk(t: Scan, n: nat, cur: Sample, x: Sample)
    requires ScanOk(t) && 0 < n <= |t.c| && Describes(t, cur, n - 1, 0)
    requires x == cur.(isP := true, iCol := 0, anEq := ZeroFirst(cur.anEq, t.nCol - 1))
    ensures SampleOk(t, n, x) && Deferred(t, n, x, t.nCol - 1) && RowOf(x, t.nCol) == n - 1
    ensures forall j :: 0 <= j < t.nCol && x.anEq[j] == 0 ==> j < t.nCol - 1
  {
    var r := RowOf(x, t.nCol);
    assert Start(t.c, t.nCol - 1, n - 1) == n - 1;
    forall j | 0 <= j < t.nCol
      ensures ColumnOk(t, n, x, r, j)
    {
      assert Size(t.c, j, r, n) == Running(t.c, j, r);
    }
  }

  /** sampleInsert of the periodic sample. */
  lemma InsertPeriodic(t: Scan, n: nat, p: Accum) returns (q: Accum)
    requires ScanOk(t) && Fresh(t, n, p) && t.per[n - 1] && CanInsert(p)
    ensures q == Insert(p, p.current.(isP := true, iCol := 0), t.nCol - 1)
    ensures Buffer(t, n, q.a, t.nCol - 1, q.nMaxEqZero)
    ensures CanInsert(q) ==> VictimOk(q)
    ensures !CanInsert(q) ==> forall k :: 0 <= k < |q.a| ==> q.a[k].isP
  {
    var x := p.current.(isP := true, iCol := 0, anEq := ZeroFirst(p.current.anEq, t.nCol - 1));
    var nMax := if t.nCol - 1 > p.nMaxEqZero then t.nCol - 1 else p.nMaxEqZero;
    PeriodicSampleOk(t, n, p.current, x);
    AppendPeriodic(t, n, p, x, nMax);
    hide Buffer;
    var p1 := p.(nMaxEqZero := nMax, a := Kept(p) + [x]);
    q := FindNewMin(p1);
    if CanInsert(q) {
      FindNewMinOk(p1);
    } else {
      NoVictim(p1);
    }
  }

  lemma AppendPeriodic(t: Scan, n: nat, p: Accum, x: Sample, nMax: nat)
    requires ScanOk(t) && Fresh(t, n, p) && t.per[n - 1] && CanInsert(p) && nMax >= t.nCol - 1
    requires SampleOk(t, n, x) && Deferred(t, n, x, t.nCol - 1) && RowOf(x, t.nCol) == n - 1 && x.isP
    ensures Buffer(t, n, Kept(p) + [x], t.nCol - 1, nMax)
  {
    var victim := if |p.a| >= p.mxSample then p.iMin else -1;
    AppendKeepsSorted(p.a, Kept(p), x, victim, t.nCol);
    AppendKeepsPeriodics(t.per, n - 1, n, p.a, Kept(p), x, victim, t.nCol);
    KeptFrom(p.a, Kept(p), victim);
    AppendAtTop(t, n, p.a, Kept(p), x, nMax);
  }

  /** No victim is found only among periodic samples. */
  lemma NoVictim(p: Accum)
    requires Shape(p.(iMin := -1)) && !CanInsert(FindNewMin(p))
    ensures forall k :: 0 <= k < |p.a| ==> p.a[k].isP
  {
    forall k | 0 <= k < |p.a|
      ensures p.a[k].isP
    {
      if !p.a[k].isP {
        MinIndexFinds(p.a, p.nCol, |p.a|, k);
      }
    }
  }

  lemma AppendAtTop(t: Scan, n: nat, a: seq<Sample>, kept: seq<Sample>, x: Sample, nMax: nat)
    requires ScanOk(t) && 0 < n <= |t.c| && SamplesOk(t, n, a) && nMax >= t.nCol - 1
    requires forall k :: 0 <= k < |a| ==> Deferred(t, n, a[k], t.nCol - 1)
    requires forall k :: 0 <= k < |kept| ==> kept[k] in a
    requires SampleOk(t, n, x) && Deferred(t, n, x, t.nCol - 1)
    requires Shaped(kept + [x], t.nCol) && Sorted(kept + [x], t.nCol) && PeriodicsKept(t.per, n, kept + [x], t.nCol)
    ensures Buffer(t, n, kept + [x], t.nCol - 1, nMax)
  {
    var b := kept + [x];
    forall k | 0 <= k < |b|
      ensures SampleOk(t, n, b[k]) && Deferred(t, n, b[k], t.nCol - 1)
      ensures forall j :: 0 <= j < t.nCol && b[k].anEq[j] == 0 ==> j < t.nCol - 1
    {
      var y := b[k];
      if k < |kept| {
        assert y in a;
      }
      assert SampleOk(t, n, y);
      forall j | 0 <= j < t.nCol && y.anEq[j] == 0
        ensures j < t.nCol - 1
      {
        assert ColumnOk(t, n, y, RowOf(y, t.nCol), j);
      }
    }
  }

  /** Between pushes nothing is deferred on the last column, so a fresh buffer is a stable one. */
  lemma FreshBuffer(t: Scan, n: nat, p: Accum)
    requires ScanOk(t) && Fresh(t, n, p) && !t.per[n - 1]
    ensures Buffer(t, n, p.a, t.nCol - 1, p.nMaxEqZero)
  {
    forall k, j | 0 <= k < |p.a| && 0 <= j < t.nCol && p.a[k].anEq[j] == 0
      ensures j < t.nCol - 1
    {
      assert ColumnOk(t, n, p.a[k], RowOf(p.a[k], t.nCol), j);
    }
    assert PeriodicsKept(t.per, n, p.a, t.nCol) by {
      forall r | 0 <= r < n && t.per[r]
        ensures exists k :: 0 <= k < |p.a| && p.a[k].isP && RowOf(p.a[k], t.nCol) == r
      {
        assert r < n - 1;
      }
    }
  }

  /** The running counts of a sample decide the comparison, whoever carries them. */
  lemma TailOfRow(t: Scan, s: Sample, r: nat, i: nat, y: Sample)
    requires ScanOk(t) && r < |t.c| && i < t.nCol && Describes(t, s, r, i + 1) && s.iCol == i && SampleShape(y, t.nCol) && y.iCol == i
    ensures BetterPost(RowSample(t, r, i), y, t.nCol) == BetterPost(s, y, t.nCol)
    ensures BetterPost(y, RowSample(t, r, i), t.nCol) == BetterPost(y, s, t.nCol)
  {
    TailReads(RowSample(t, r, i), y, s, y, t.nCol, i + 1);
    TailReads(y, RowSample(t, r, i), y, s, t.nCol, i + 1);
  }

  /** The candidate of a column whose group has just started is the current row. */
  lemma CandidateReset(t: Scan, n: nat, i: nat, cur: Sample)
    requires ScanOk(t) && 0 < n <= |t.c| && t.c[n - 1] <= i < t.nCol - 1
    requires Describes(t, cur, n - 1, 0) && cur.iCol == i && !cur.isP
    ensures CandidateOk(t, n, i, cur)
  {
    assert Start(t.c, t.nCol - 1, n - 1) == n - 1;
  }

  /** The current row takes over: it beats the old candidate, hence every row before. */
  lemma CandidateReplaced(t: Scan, n: nat, i: nat, best: Sample, cur: Sample)
    requires ScanOk(t) && 1 < n <= |t.c| && i < t.c[n - 1] && i < t.nCol - 1 && CandidateOk(t, n - 1, i, best)
    requires Describes(t, cur, n - 1, 0) && cur.iCol == i && !cur.isP && BetterPost(cur, best, t.nCol)
    ensures CandidateOk(t, n, i, cur)
  {
    var r := RowOf(best, t.nCol);
    assert Start(t.c, t.nCol - 1, n - 1) == n - 1;
    forall k | Start(t.c, i, n - 1) <= k < n - 1
      ensures BetterPost(cur, RowSample(t, k, i), t.nCol)
    {
      var y := RowSample(t, k, i);
      TailOfRow(t, best, r, i, cur);
      BeatsThrough(cur, best, y, t.nCol, i);
    }
  }

  lemma BeatsThrough(x: Sample, best: Sample, y: Sample, nCol: nat, i: nat)
    requires SampleShape(x, nCol) && SampleShape(best, nCol) && SampleShape(y, nCol) && x.iCol == best.iCol == y.iCol == i
    requires BetterPost(x, best, nCol)
    ensures !BetterPost(y, best, nCol) || BetterPost(best, y, nCol) ==> BetterPost(x, y, nCol)
  {
    TailWeakOrder(x, y, best, nCol, i + 1);
    TailWeakOrder(best, x, y, nCol, i + 1);
  }

  /** The old candidate stays: the current row does not beat it. */
  lemma CandidateStays(t: Scan, n: nat, i: nat, best: Sample, cur: Sample)
    requires ScanOk(t) && 1 < n <= |t.c| && i < t.c[n - 1] && i < t.nCol - 1 && CandidateOk(t, n - 1, i, best)
    requires Describes(t, cur, n - 1, 0) && cur.iCol == i && !cur.isP && !BetterPost(cur, best, t.nCol)
    ensures CandidateOk(t, n, i, best)
  {
    TailOfRow(t, cur, n - 1, i, best);
  }

  /** The aBest[] update of statPush, for row r. */
  lemma UpdateBestKeeps(t: Scan, r: nat, aBest: seq<Sample>, cur: Sample)
    requires ScanOk(t) && r < |t.c| && |aBest| == t.nCol && Shaped(aBest, t.nCol)
    requires forall i :: 0 <= i < t.nCol ==> aBest[i].iCol == i
    requires forall i :: 0 <= i < t.c[r] && i < t.nCol - 1 ==> r > 0 && CandidateOk(t, r, i, aBest[i])
    requires Describes(t, cur, r, 0) && !cur.isP
    ensures var b := UpdateBest(aBest, cur, t.nCol, t.c[r], t.nCol - 1);
      forall i :: 0 <= i < t.nCol - 1 ==> CandidateOk(t, r + 1, i, b[i])
  {
    var n := r + 1;
    var b := UpdateBest(aBest, cur, t.nCol, t.c[r], t.nCol - 1);
    forall i | 0 <= i < t.nCol - 1
      ensures CandidateOk(t, n, i, b[i])
    {
      var x := cur.(iCol := i);
      assert Describes(t, x, r, 0);
      if i >= t.c[r] {
        CandidateReset(t, n, i, x);
      } else if BetterPost(x, aBest[i], t.nCol) {
        CandidateReplaced(t, n, i, aBest[i], x);
      } else {
        CandidateStays(t, n, i, aBest[i], x);
      }
    }
  }

  /** The end of statPush: candidates updated, current.iCol left at the last column tried. */
  lemma FinishRow(t: Scan, r: nat, m: Accum, cur: Sample) returns (q: Accum)
    requires ScanOk(t) && r < |t.c| && Shape(m) && m.nCol == t.nCol && m.nRow == r + 1 && m.iPrn == HashAt(t.seed, r)
    requires forall i :: 0 <= i < t.c[r] && i < t.nCol - 1 ==> r > 0 && CandidateOk(t, r, i, m.aBest[i])
    requires Describes(t, cur, r, 0) && !cur.isP
    requires Buffer(t, r + 1, m.a, t.nCol - 1, m.nMaxEqZero) && (CanInsert(m) ==> VictimOk(m))
    ensures q == m.(aBest := UpdateBest(m.aBest, cur, t.nCol, t.c[r], t.nCol - 1),
                    current := if t.nCol > 1 then cur.(iCol := t.nCol - 2) else cur)
    ensures Shape(q) && (CanInsert(q) ==> Mid(t, r + 1, q, t.nCol - 1))
  {
    hide CandidateOk;
    hide Describes;
    hide VictimOk;
    hide Buffer;
    hide BetterPost;
    ShapeOfRow(t, cur, r);
    UpdateBestKeeps(t, r, m.aBest, cur);
    q := m.(aBest := UpdateBest(m.aBest, cur, t.nCol, t.c[r], t.nCol - 1),
            current := if t.nCol > 1 then cur.(iCol := t.nCol - 2) else cur);
    RowUpdated(t, r, m, cur, q);
  }

  lemma ShapeOfRow(t: Scan, s: Sample, r: nat)
    requires ScanOk(t) && r < |t.c| && Describes(t, s, r, 0)
    ensures SampleShape(s, t.nCol)
  {
  }

  lemma RowUpdated(t: Scan, r: nat, m: Accum, cur: Sample, q: Accum)
    requires ScanOk(t) && r < |t.c| && Shape(m) && m.nCol == t.nCol && Describes(t, cur, r, 0) && !cur.isP
    requires q == m.(aBest := UpdateBest(m.aBest, cur, t.nCol, t.c[r], t.nCol - 1),
                     current := if t.nCol > 1 then cur.(iCol := t.nCol - 2) else cur)
    ensures Shape(q) && Describes(t, q.current, r, 0) && (VictimOk(m) ==> VictimOk(q))
  {
    hide VictimOk;
    hide BetterPost;
    UpdatedShape(m, cur, t.c[r], q);
    if VictimOk(m) {
      VictimUntouched(m, q);
    }
  }

  lemma UpdatedShape(m: Accum, cur: Sample, iChng: nat, q: Accum)
    requires Shape(m) && SampleShape(cur, m.nCol) && !cur.isP
    requires q == m.(aBest := UpdateBest(m.aBest, cur, m.nCol, iChng, m.nCol - 1),
                     current := if m.nCol > 1 then cur.(iCol := m.nCol - 2) else cur)
    ensures Shape(q)
  {
    hide BetterPost;
  }

  /** The periodic sample, taken or not. */
  lemma TakeKeeps(t: Scan, r: nat, p: Accum) returns (m: Accum)
    requires ScanOk(t) && Fresh(t, r + 1, p) && CanInsert(p)
    requires t.per[r] == Periodic(r, p.nPSample)
    ensures m == TakePeriodic(p) && Shape(m) && m.nCol == t.nCol && m.mxSample == p.mxSample && m.nPSample == p.nPSample
    ensures m.nRow == p.nRow && m.iPrn == p.iPrn && m.aBest == p.aBest
    ensures m.current == p.current || m.current == p.current.(iCol := 0)
    ensures Buffer(t, r + 1, m.a, t.nCol - 1, m.nMaxEqZero) && (CanInsert(m) ==> VictimOk(m))
    ensures !CanInsert(m) ==> forall k :: 0 <= k < |m.a| ==> m.a[k].isP
  {
    assert RowOf(p.current, t.nCol) == r by {
      assert Start(t.c, t.nCol - 1, r) == r;
    }
    if t.per[r] {
      m := InsertPeriodic(t, r + 1, p);
      m := m.(current := p.current.(iCol := 0));
      return;
    }
    FreshBuffer(t, r + 1, p);
    return p;
  }

  /** What the fresh state says about row r. */
  lemma FreshRow(t: Scan, r: nat, p: Accum)
    requires ScanOk(t) && Fresh(t, r + 1, p)
    ensures Shape(p) && p.nCol == t.nCol && p.nRow == r + 1 && p.iPrn == HashAt(t.seed, r) && !p.current.isP
    ensures Describes(t, p.current, r, 0) && Describes(t, p.current.(iCol := 0), r, 0)
    ensures forall i :: 0 <= i < t.c[r] && i < t.nCol - 1 ==> r > 0 && CandidateOk(t, r, i, p.aBest[i])
  {
    hide CandidateOk;
  }

  /** statPush from the periodic sample on, for row r. */
  lemma CollectKeeps(t: Scan, r: nat, p: Accum) returns (q: Accum)
    requires ScanOk(t) && Fresh(t, r + 1, p) && CanInsert(p)
    requires t.per[r] == Periodic(r, p.nPSample)
    ensures q == Collect(p, t.c[r]) && Shape(q) && q.nCol == t.nCol && q.mxSample == p.mxSample && q.nPSample == p.nPSample
    ensures Buffer(t, r + 1, q.a, t.nCol - 1, q.nMaxEqZero)
    ensures CanInsert(q) ==> Mid(t, r + 1, q, t.nCol - 1)
    ensures !CanInsert(q) ==> forall k :: 0 <= k < |q.a| ==> q.a[k].isP
  {
    hide Buffer;
    hide VictimOk;
    hide Describes;
    hide CandidateOk;
    hide Mid;
    FreshRow(t, r, p);
    var m := TakeKeeps(t, r, p);
    q := FinishRow(t, r, m, m.current);
  }
}
