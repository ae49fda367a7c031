/** The results about a whole scan: every retained sample carries exact whole-index counts, the
    samples come in index order, periodic samples are never lost, and the buffer finds a victim
    exactly as long as fewer periodic rows than slots have gone by. */
module StatTheorems {
  import opened Division
  import opened PrefixGroups
  import opened IndexRows
  import opened StatSpec
  import opened StatProof
  import opened StatChoice
  import opened StatCoverage
  import opened StatScan
  import opened Wrappers

  /** The accumulator after n rows; None if assert( iMin>=0 ) would have failed on the way. */
  ghost function Run(t: Scan, mxSample: nat, nP: nat, n: nat): (r: Option<Accum>)
    requires ScanOk(t) && mxSample > 0 && nP > 0 && n <= |t.c|
    ensures r.Some? ==> Shape(r.value) && CanInsert(r.value) && r.value.nCol == t.nCol && r.value.mxSample == mxSample
  {
    if n == 0 then Some(Init(t.nCol, mxSample, nP, t.seed))
    else match Run(t, mxSample, nP, n - 1)
      case None => None
      case Some(p) =>
        var q := Push(p, t.c[n - 1], t.rowid[n - 1]);
        if CanInsert(q) then Some(q) else None
  }

  /** t.per marks the periodic rows. */
  ghost predicate PeriodsMarked(t: Scan, nPSample: nat)
    requires ScanOk(t) && nPSample > 0
  {
    forall r :: 0 <= r < |t.c| ==> t.per[r] == Periodic(r, nPSample)
  }

  /** Row r is periodic exactly when the number of rows up to it is a multiple of nP. */
  lemma PeriodicIsMultiple(r: nat, nP: nat)
    requires nP > 0
    ensures Periodic(r, nP) <==> r + 1 == Multiple(Quotient(r + 1, nP), nP)
    ensures forall m: nat :: r + 1 == Multiple(m, nP) ==> Periodic(r, nP)
  {
    var (p, q) := (Quotient(r, nP), Quotient(r + 1, nP));
    QuotientBounds(r, nP);
    QuotientBounds(r + 1, nP);
    forall m: nat | r + 1 == Multiple(m, nP)
      ensures m == q
    {
      assert Multiple(q + 1, nP) == Multiple(q, nP) + nP;
      MultipleMonotone(m, q, nP);
      MultipleMonotone(q, m, nP);
      MultipleMonotone(q + 1, m, nP);
    }
    MultipleMonotone(p + 1, q, nP);
    MultipleMonotone(q + 1, p, nP);
  }

  /** The k-th sample of an all-periodic buffer is of the (k+1)-th periodic row or a later one. */
  lemma {:induction false} PeriodicSpread(a: seq<Sample>, nCol: nat, nP: nat, k: nat)
    requires nCol > 0 && nP > 0 && Shaped(a, nCol) && Sorted(a, nCol) && k < |a|
    requires forall i :: 0 <= i < |a| ==> Periodic(RowOf(a[i], nCol), nP)
    ensures Multiple(k + 1, nP) <= RowOf(a[k], nCol) + 1
  {
    var x := RowOf(a[k], nCol);
    PeriodicIsMultiple(x, nP);
    var q := Quotient(x + 1, nP);
    if k > 0 {
      PeriodicSpread(a, nCol, nP, k - 1);
      assert RowOf(a[k - 1], nCol) < x;
      MultipleMonotone(q, k, nP);
    }
    MultipleMonotone(k + 1, q, nP);
  }

  /** Conversely the m-th periodic row, if seen, is held at index m-1 or later. */
  lemma {:induction false} PeriodicIndex(per: seq<bool>, n: nat, a: seq<Sample>, nCol: nat, nP: nat, m: nat) returns (k: nat)
    requires nCol > 0 && nP > 0 && n <= |per| && Shaped(a, nCol) && Sorted(a, nCol) && PeriodicsKept(per, n, a, nCol)
    requires forall r :: 0 <= r < n ==> per[r] == Periodic(r, nP)
    requires 1 <= m && Multiple(m, nP) <= n
    ensures m - 1 <= k < |a| && a[k].isP && RowOf(a[k], nCol) == Multiple(m, nP) - 1
  {
    var r := Multiple(m, nP) - 1;
    PeriodicIsMultiple(r, nP);
    assert 0 <= r < n && per[r];
    k :| 0 <= k < |a| && a[k].isP && RowOf(a[k], nCol) == r;
    if m > 1 {
      var j := PeriodicIndex(per, n, a, nCol, nP, m - 1);
      assert RowOf(a[j], nCol) < RowOf(a[k], nCol);
    }
  }

  /** With mx periodic rows seen, the m-th of them is the m-th retained sample. */
  lemma {:induction false} AtIndex(per: seq<bool>, n: nat, a: seq<Sample>, nCol: nat, nP: nat, m: nat, mx: nat)
    requires nCol > 0 && nP > 0 && n <= |per| && Shaped(a, nCol) && Sorted(a, nCol) && PeriodicsKept(per, n, a, nCol)
    requires forall r :: 0 <= r < n ==> per[r] == Periodic(r, nP)
    requires 1 <= m <= mx && |a| <= mx && Multiple(mx, nP) <= n
    ensures m - 1 < |a| && a[m - 1].isP && RowOf(a[m - 1], nCol) == Multiple(m, nP) - 1
    decreases mx - m
  {
    MultipleMonotone(m, mx, nP);
    var k := PeriodicIndex(per, n, a, nCol, nP, m);
    if m < mx {
      AtIndex(per, n, a, nCol, nP, m + 1, mx);
      assert RowOf(a[k], nCol) < RowOf(a[m], nCol);
    }
  }

  /** While there is a victim, fewer than mxSample periodic rows have been seen. */
  lemma VictimNeedsRoom(t: Scan, n: nat, p: Accum)
    requires ScanOk(t) && Mid(t, n, p, t.nCol - 1) && CanInsert(p) && PeriodsMarked(t, p.nPSample)
    ensures n < Multiple(p.mxSample, p.nPSample)
  {
    if Multiple(p.mxSample, p.nPSample) <= n {
      AtIndex(t.per, n, p.a, t.nCol, p.nPSample, p.mxSample, p.mxSample);
      AtIndex(t.per, n, p.a, t.nCol, p.nPSample, p.iMin + 1, p.mxSample);
    }
  }

  /** A buffer of periodic samples only needs mxSample periodic rows. */
  lemma PeriodicsNeedRows(t: Scan, n: nat, p: Accum)
    requires ScanOk(t) && 0 < n <= |t.c| && Shape(p) && p.nCol == t.nCol && Buffer(t, n, p.a, t.nCol - 1, p.nMaxEqZero)
    requires PeriodsMarked(t, p.nPSample) && |p.a| == p.mxSample && forall k :: 0 <= k < |p.a| ==> p.a[k].isP
    ensures Multiple(p.mxSample, p.nPSample) <= n
  {
    PeriodicSpread(p.a, t.nCol, p.nPSample, |p.a| - 1);
  }

  /** A state that the run can be in after n rows. */
  ghost predicate Good(t: Scan, mxSample: nat, nP: nat, n: nat, p: Accum)
    requires ScanOk(t)
  {
    && mxSample > 0 && n <= |t.c| && p.mxSample == mxSample && p.nPSample == nP > 0
    && if n == 0 then p == Init(t.nCol, mxSample, nP, t.seed) else Mid(t, n, p, t.nCol - 1) && CanInsert(p)
  }

  /** A push keeps the state good, unless it is the one that fills the buffer with periodic samples. */
  lemma GoodStep(t: Scan, mxSample: nat, nP: nat, n: nat, p: Accum) returns (q: Accum)
    requires ScanOk(t) && n < |t.c| && Good(t, mxSample, nP, n, p) && PeriodsMarked(t, nP)
    ensures q == Push(p, t.c[n], t.rowid[n])
    ensures CanInsert(q) ==> Good(t, mxSample, nP, n + 1, q)
    ensures !CanInsert(q) ==> Multiple(mxSample, nP) <= n + 1
  {
    if n == 0 {
      var f := AdvanceFirst(t, mxSample, nP);
      q := CollectFresh(t, 0, f);
      return;
    }
    var f := AdvanceNext(t, n, p);
    q := CollectFresh(t, n, f);
  }

  lemma CollectFresh(t: Scan, r: nat, f: Accum) returns (q: Accum)
    requires ScanOk(t) && Fresh(t, r + 1, f) && CanInsert(f) && PeriodsMarked(t, f.nPSample)
    ensures q == Collect(f, t.c[r])
    ensures q.mxSample == f.mxSample && q.nPSample == f.nPSample
    ensures CanInsert(q) ==> Mid(t, r + 1, q, t.nCol - 1)
    ensures !CanInsert(q) ==> Multiple(f.mxSample, f.nPSample) <= r + 1
  {
    q := CollectKeeps(t, r, f);
    if !CanInsert(q) {
      PeriodicsNeedRows(t, r + 1, q);
    }
  }

  /** The run up to row n: a good state, or too many periodic rows. */
  lemma {:induction false} RunDecides(t: Scan, mxSample: nat, nP: nat, n: nat) returns (p: Accum)
    requires ScanOk(t) && mxSample > 0 && nP > 0 && n <= |t.c| && PeriodsMarked(t, nP)
    ensures Run(t, mxSample, nP, n).None? ==> Multiple(mxSample, nP) <= n
    ensures Run(t, mxSample, nP, n).Some? ==> Run(t, mxSample, nP, n).value == p && Good(t, mxSample, nP, n, p)
  {
    hide Push;
    hide Mid;
    if n == 0 {
      return Init(t.nCol, mxSample, nP, t.seed);
    }
    var q := RunDecides(t, mxSample, nP, n - 1);
    if Run(t, mxSample, nP, n - 1).None? {
      return q;
    }
    p := GoodStep(t, mxSample, nP, n - 1, q);
  }

  /** After any number of rows the groups that have ended are covered. */
  lemma {:induction false} RunCovers(t: Scan, mxSample: nat, nP: nat, n: nat)
    requires ScanOk(t) && mxSample > 0 && nP > 0 && 0 < n <= |t.c| && PeriodsMarked(t, nP)
    requires Run(t, mxSample, nP, n).Some?
    ensures Coverage(t, n, Run(t, mxSample, nP, n).value.a, mxSample, t.nCol - 1)
    ensures AllChosen(t, n, Run(t, mxSample, nP, n).value.a, mxSample, true)
  {
    hide Push;
    hide Mid;
    hide Coverage;
    hide AllChosen;
    if n == 1 {
      assert Run(t, mxSample, nP, 0) == Some(Init(t.nCol, mxSample, nP, t.seed));
      FirstRowCovers(t, mxSample, nP);
      FirstRowChooses(t, mxSample, nP);
    } else {
      RunCovers(t, mxSample, nP, n - 1);
      var p := RunDecides(t, mxSample, nP, n - 1);
      PushCovers(t, n - 1, p);
      PushChooses(t, n - 1, p);
    }
  }

  /** The eviction loop finds a victim on every push of the first n rows exactly if n rows hold
      fewer periodic samples than there are slots. */
  lemma VictimExactlyWhen(t: Scan, mxSample: nat, nP: nat, n: nat)
    requires ScanOk(t) && mxSample > 0 && nP > 0 && n <= |t.c| && PeriodsMarked(t, nP)
    ensures Run(t, mxSample, nP, n).Some? <==> n / nP < mxSample
  {
    var p := RunDecides(t, mxSample, nP, n);
    if n > 0 && Run(t, mxSample, nP, n).Some? {
      VictimNeedsRoom(t, n, p);
    }
    MultipleMonotone(1, mxSample, nP);
    IsDivision(n, nP);
    QuotientBounds(n, nP);
    MultipleMonotone(mxSample, Quotient(n, nP), nP);
    MultipleMonotone(Quotient(n, nP) + 1, mxSample, nP);
  }

  /** With an estimate no smaller than the row count there are at most mxSample/3 periodic rows. */
  lemma ExactEstimateSuffices(n: nat, nEst: nat, mxSample: nat)
    requires mxSample > 0 && n <= nEst
    ensures n / PeriodOf(nEst, mxSample) <= mxSample / 3
  {
    var d := mxSample / 3 + 1;
    RoundedUp(nEst, d);
    FewerMultiples(n, PeriodOf(nEst, mxSample), d);
  }

  lemma FewerMultiples(n: nat, nP: nat, d: nat)
    requires nP > 0 && n < nP * d
    ensures n / nP < d
  {
    var e := n / nP - d;
    assert e * nP == (n / nP) * nP - d * nP;
  }

  /** What the estimate has to be: a victim is found on every push of the first n rows exactly if
      the estimate is at least about a third of n.  The count that stat_init() is given is exact. */
  lemma EstimateExactlyWhen(t: Scan, mxSample: nat, nEst: nat, n: nat)
    requires ScanOk(t) && mxSample > 0 && n <= |t.c| && PeriodsMarked(t, PeriodOf(nEst, mxSample))
    ensures Run(t, mxSample, PeriodOf(nEst, mxSample), n).Some? <==> n / mxSample * (mxSample / 3 + 1) <= nEst
  {
    hide Run;
    hide PeriodsMarked;
    hide ScanOk;
    VictimExactlyWhen(t, mxSample, PeriodOf(nEst, mxSample), n);
    EnoughRows(mxSample, nEst, n);
  }

  lemma EnoughRows(mxSample: nat, nEst: nat, n: nat)
    requires mxSample > 0
    ensures n / PeriodOf(nEst, mxSample) < mxSample <==> n / mxSample * (mxSample / 3 + 1) <= nEst
  {
    hide PeriodOf;
    assert n / PeriodOf(nEst, mxSample) < mxSample <==> n / mxSample < PeriodOf(nEst, mxSample) by {
      QuotientsBelow(n, PeriodOf(nEst, mxSample), mxSample);
    }
    PeriodReaches(mxSample, nEst, n / mxSample);
  }

  lemma PeriodReaches(mxSample: nat, nEst: nat, q: nat)
    requires mxSample > 0
    ensures q < PeriodOf(nEst, mxSample) <==> q * (mxSample / 3 + 1) <= nEst
  {
    QuotientReaches(nEst, mxSample / 3 + 1, q);
  }

  /** n < k * m, said by either quotient. */
  lemma QuotientsBelow(n: nat, k: nat, m: nat)
    requires k > 0 && m > 0
    ensures n / k < m <==> n / m < k
  {
    if n < k * m {
      FewerMultiples(n, k, m);
      FewerMultiples(n, m, k);
    } else {
      ManyMultiples(n, k, m);
      ManyMultiples(n, m, k);
    }
  }

  lemma ManyMultiples(n: nat, nP: nat, d: nat)
    requires nP > 0 && nP * d <= n
    ensures d <= n / nP
  {
    if n / nP < d {
      RoundedUp(n, nP);
      Product(nP, n / nP + 1, d);
    }
  }

  lemma Product(k: nat, x: nat, y: nat)
    requires x <= y
    ensures x * k <= k * y
  {
  }

  lemma QuotientReaches(x: nat, d: nat, q: nat)
    requires d > 0
    ensures q <= x / d <==> q * d <= x
  {
    if q * d <= x {
      ManyMultiples(x, d, q);
    } else {
      FewerMultiples(x, d, q);
    }
  }

  /** Sample s carries row r's identity and its exact whole-index counts, in every column. */
  ghost predicate ExactFor(rows: seq<Row>, nCol: nat, s: Sample, r: nat)
    requires Wide(rows, nCol) && r < |rows|
  {
    && SampleShape(s, nCol) && s.rowid == rows[r].rowid
    && forall j :: 0 <= j < nCol ==>
         && s.anEq[j] == |RowsEqual(rows, nCol, r, j)|
         && s.anLt[j] == |RowsLess(rows, nCol, r, j)|
         && s.anDLt[j] == |PrefixesLess(rows, nCol, r, j)|
  }

  /** What ANALYZE passes to the accumulator while it scans these rows. */
  ghost function ScanOf(rows: seq<Row>, nCol: nat, nP: nat, seed: nat): (t: Scan)
    requires IsIndex(rows, nCol) && nP > 0
    ensures ScanOk(t) && |t.c| == |rows| && t.nCol == nCol && PeriodsMarked(t, nP)
  {
    ChangesAreChanges(rows, nCol);
    Scan(ChangesOf(rows, nCol), seq(|rows|, k requires 0 <= k < |rows| => rows[k].rowid),
         seq(|rows|, k requires 0 <= k < |rows| => Periodic(k, nP)), seed, nCol)
  }

  /** A sample whose counters are all final is exact. */
  lemma FinalIsExact(rows: seq<Row>, nCol: nat, nP: nat, seed: nat, s: Sample)
    requires IsIndex(rows, nCol) && nP > 0 && |rows| > 0
    requires var t := ScanOf(rows, nCol, nP, seed);
      && SampleOk(t, |rows|, s)
      && forall j :: 0 <= j < nCol ==> s.anEq[j] == Size(t.c, j, RowOf(s, nCol), |rows|)
    ensures RowOf(s, nCol) < |rows| && ExactFor(rows, nCol, s, RowOf(s, nCol))
  {
    var t := ScanOf(rows, nCol, nP, seed);
    var r := RowOf(s, nCol);
    ChangesAreChanges(rows, nCol);
    forall j | 0 <= j < nCol
      ensures s.anEq[j] == |RowsEqual(rows, nCol, r, j)| && s.anLt[j] == |RowsLess(rows, nCol, r, j)|
      ensures s.anDLt[j] == |PrefixesLess(rows, nCol, r, j)|
    {
      assert ColumnOk(t, |rows|, s, r, j);
      CountEqual(rows, nCol, t.c, r, j);
      CountLess(rows, nCol, t.c, r, j);
      CountDistinctLess(rows, nCol, t.c, r, j);
    }
  }

  /** Exact samples, in index order. */
  ghost predicate SamplesExact(rows: seq<Row>, nCol: nat, a: seq<Sample>)
    requires Wide(rows, nCol) && nCol > 0
  {
    && Shaped(a, nCol)
    && (forall k :: 0 <= k < |a| ==> RowOf(a[k], nCol) < |rows| && ExactFor(rows, nCol, a[k], RowOf(a[k], nCol)))
    && (forall k, l :: 0 <= k < l < |a| ==> RowOf(a[k], nCol) < RowOf(a[l], nCol))
  }

  /** The rows equal to row r on columns 0..j have a sample among them, or there is no room: the buffer is
      full, and every sample in it that is not periodic was taken for a prefix that more rows share, or
      as many on no more columns. */
  ghost predicate RowCovered(rows: seq<Row>, nCol: nat, a: seq<Sample>, mxSample: nat, r: nat, j: nat)
    requires Wide(rows, nCol) && nCol > 0 && SamplesExact(rows, nCol, a) && r < |rows| && j < nCol
  {
    || (exists k :: 0 <= k < |a| && Same(rows, RowOf(a[k], nCol), r, j))
    || (|a| == mxSample && forall k :: 0 <= k < |a| && !a[k].isP ==> Outranks(a[k], |RowsEqual(rows, nCol, r, j)|, j))
  }

  /** Covered, in terms of the rows. */
  lemma CoveredRow(rows: seq<Row>, nCol: nat, nP: nat, seed: nat, a: seq<Sample>, mxSample: nat, r: nat, j: nat)
    requires IsIndex(rows, nCol) && nP > 0 && SamplesExact(rows, nCol, a) && r < |rows| && j < nCol
    requires Covered(ScanOf(rows, nCol, nP, seed), |rows|, a, mxSample, r, j)
    ensures RowCovered(rows, nCol, a, mxSample, r, j)
  {
    var t := ScanOf(rows, nCol, nP, seed);
    ChangesAreChanges(rows, nCol);
    if k :| 0 <= k < |a| && StandsFor(t, a[k], r, j) {
      GroupByPosition(rows, nCol, t.c, r, RowOf(a[k], nCol), j);
    } else {
      CountEqual(rows, nCol, t.c, r, j);
    }
  }

  /** The samples that stat_get() hands out after a whole scan: exact, in index order, no more than
      mxSample, every periodic row among them. */
  lemma FlushedSamplesAreExact(rows: seq<Row>, nCol: nat, mxSample: nat, nP: nat, seed: nat) returns (q: Accum)
    requires IsIndex(rows, nCol) && |rows| > 0 && mxSample > 0 && nP > 0 && |rows| / nP < mxSample
    ensures var t := ScanOf(rows, nCol, nP, seed);
      && Run(t, mxSample, nP, |rows|).Some? && q == PushPrevious(Run(t, mxSample, nP, |rows|).value, 0)
    ensures Shape(q) && q.nCol == nCol && |q.a| <= mxSample
    ensures SamplesExact(rows, nCol, q.a)
    ensures forall r :: 0 <= r < |rows| && Periodic(r, nP) ==> exists k :: 0 <= k < |q.a| && RowOf(q.a[k], nCol) == r
  {
    var t := ScanOf(rows, nCol, nP, seed);
    VictimExactlyWhen(t, mxSample, nP, |rows|);
    var p := RunDecides(t, mxSample, nP, |rows|);
    q := PushPreviousCloses(t, |rows|, p, 0);
    forall k | 0 <= k < |q.a|
      ensures RowOf(q.a[k], nCol) < |rows| && ExactFor(rows, nCol, q.a[k], RowOf(q.a[k], nCol))
    {
      FinalIsExact(rows, nCol, nP, seed, q.a[k]);
    }
    forall r | 0 <= r < |rows| && Periodic(r, nP)
      ensures exists k :: 0 <= k < |q.a| && RowOf(q.a[k], nCol) == r
    {
      assert t.per[r];
    }
  }

  ghost predicate RowsCovered(rows: seq<Row>, nCol: nat, a: seq<Sample>, mxSample: nat)
    requires Wide(rows, nCol) && nCol > 0 && SamplesExact(rows, nCol, a)
  {
    forall r, j :: 0 <= r < |rows| && 0 <= j < nCol - 1 ==> RowCovered(rows, nCol, a, mxSample, r, j)
  }

  /** While there is room, a sample that is not periodic is of the row with the largest hash of those that
      are equal to it on all columns but the last, and of the first row if several have it. */
  ghost predicate RowsChosen(rows: seq<Row>, nCol: nat, a: seq<Sample>, mxSample: nat, seed: nat)
    requires Wide(rows, nCol) && nCol > 0 && SamplesExact(rows, nCol, a)
  {
    |a| < mxSample ==> forall k :: 0 <= k < |a| && !a[k].isP ==> nCol >= 2 && RowChosen(rows, nCol, seed, RowOf(a[k], nCol))
  }

  ghost predicate RowChosen(rows: seq<Row>, nCol: nat, seed: nat, x: nat)
    requires Wide(rows, nCol) && nCol >= 2 && x < |rows|
  {
    forall r :: 0 <= r < |rows| && Same(rows, r, x, nCol - 2) ==>
      HashAt(seed, r) <= HashAt(seed, x) && (r < x ==> HashAt(seed, r) < HashAt(seed, x))
  }

  lemma ChosenRows(rows: seq<Row>, nCol: nat, nP: nat, seed: nat, a: seq<Sample>, mxSample: nat)
    requires IsIndex(rows, nCol) && nP > 0 && SamplesExact(rows, nCol, a)
    requires AllChosen(ScanOf(rows, nCol, nP, seed), |rows|, a, mxSample, false)
    ensures RowsChosen(rows, nCol, a, mxSample, seed)
  {
    hide ExactFor;
    hide RowChosen;
    hide Chosen;
    var t := ScanOf(rows, nCol, nP, seed);
    if |a| < mxSample {
      forall k | 0 <= k < |a| && !a[k].isP
        ensures nCol >= 2 && RowChosen(rows, nCol, seed, RowOf(a[k], nCol))
      {
        assert WellChosen(t, |rows|, a[k], false);
        ChosenRow(rows, nCol, nP, seed, RowOf(a[k], nCol));
      }
    }
  }

  lemma ChosenRow(rows: seq<Row>, nCol: nat, nP: nat, seed: nat, x: nat)
    requires IsIndex(rows, nCol) && nP > 0 && nCol >= 2 && x < |rows| && Chosen(ScanOf(rows, nCol, nP, seed), |rows|, x)
    ensures RowChosen(rows, nCol, seed, x)
  {
    hide HashAt;
    hide Same;
    var t := ScanOf(rows, nCol, nP, seed);
    ChangesAreChanges(rows, nCol);
    forall r | 0 <= r < |rows| && Same(rows, r, x, nCol - 2)
      ensures HashAt(seed, r) <= HashAt(seed, x) && (r < x ==> HashAt(seed, r) < HashAt(seed, x))
    {
      SameMeansOneGroup(rows, nCol, t.c, r, x, nCol - 2);
    }
  }

  lemma SameMeansOneGroup(rows: seq<Row>, nCol: nat, c: seq<nat>, r: nat, x: nat, j: nat)
    requires Scanned(rows, nCol, c) && r < |rows| && x < |rows| && j < nCol && Same(rows, r, x, j)
    ensures Start(c, j, r) == Start(c, j, x)
  {
    GroupByPosition(rows, nCol, c, x, r, j);
    if r <= x {
      StartOfMember(c, j, r, x);
    } else {
      StartOfMember(c, j, x, r);
    }
  }

  /** Row r is the last of so many times period rows. */
  predicate Nth(r: nat, period: nat)
    requires period > 0
  {
    (r + 1) % period == 0
  }

  /** Of n rows, every period-th has a sample, which is marked as periodic, and no other one is. */
  ghost predicate PeriodicRows(a: seq<Sample>, nCol: nat, n: nat, period: nat)
    requires nCol > 0 && Shaped(a, nCol) && period > 0
  {
    && (forall k :: 0 <= k < |a| ==> (a[k].isP <==> Nth(RowOf(a[k], nCol), period)))
    && (forall r :: 0 <= r < n && Nth(r, period) ==> exists k :: 0 <= k < |a| && RowOf(a[k], nCol) == r)
  }

  /** What ANALYZE keeps of an index: exact samples in index order, every period-th row among them and marked
      so, of every prefix of fewer than all columns some row unless the buffer is full of samples for
      prefixes that at least as many rows share, and while there is room the row chosen by its hash. */
  ghost predicate WellSampled(rows: seq<Row>, nCol: nat, a: seq<Sample>, mxSample: nat, period: nat, seed: nat)
    requires Wide(rows, nCol) && nCol > 0 && period > 0
  {
    && |a| <= mxSample
    && SamplesExact(rows, nCol, a)
    && PeriodicRows(a, nCol, |rows|, period)
    && RowsCovered(rows, nCol, a, mxSample)
    && RowsChosen(rows, nCol, a, mxSample, seed)
  }

  /** The samples after the flush are well chosen. */
  lemma FlushedSamplesCover(rows: seq<Row>, nCol: nat, mxSample: nat, nP: nat, seed: nat, q: Accum)
    requires IsIndex(rows, nCol) && |rows| > 0 && mxSample > 0 && nP > 0
    requires var t := ScanOf(rows, nCol, nP, seed);
      && Run(t, mxSample, nP, |rows|).Some? && q == PushPrevious(Run(t, mxSample, nP, |rows|).value, 0)
    requires SamplesExact(rows, nCol, q.a) && |q.a| <= mxSample
    ensures WellSampled(rows, nCol, q.a, mxSample, nP, seed)
  {
    hide ScanOf;
    hide ScanOk;
    hide PeriodsMarked;
    hide SamplesExact;
    hide RowsChosen;
    hide RowsCovered;
    hide PeriodicRows;
    hide AllChosen;
    hide Coverage;
    hide Closed;
    hide Run;
    hide PushPrevious;
    hide Mid;
    ScanSizes(rows, nCol, nP, seed);
    var t := ScanOf(rows, nCol, nP, seed);
    var p := RunDecides(t, mxSample, nP, |rows|);
    RunCovers(t, mxSample, nP, |rows|);
    FlushCovers(t, |rows|, p, q);
    CoveredRows(rows, nCol, nP, seed, q.a, mxSample);
    ClosedPeriodics(t, |rows|, q, nP);
    ChosenRows(rows, nCol, nP, seed, q.a, mxSample);
  }

  lemma ScanSizes(rows: seq<Row>, nCol: nat, nP: nat, seed: nat)
    requires IsIndex(rows, nCol) && nP > 0
    ensures var t := ScanOf(rows, nCol, nP, seed);
      ScanOk(t) && PeriodsMarked(t, nP) && |t.c| == |rows| && t.nCol == nCol
  {
  }

  lemma CoveredRows(rows: seq<Row>, nCol: nat, nP: nat, seed: nat, a: seq<Sample>, mxSample: nat)
    requires IsIndex(rows, nCol) && nP > 0 && SamplesExact(rows, nCol, a)
    requires Coverage(ScanOf(rows, nCol, nP, seed), |rows|, a, mxSample, 0)
    ensures RowsCovered(rows, nCol, a, mxSample)
  {
    hide RowCovered;
    hide Covered;
    hide SamplesExact;
    forall r, j | 0 <= r < |rows| && 0 <= j < nCol - 1
      ensures RowCovered(rows, nCol, a, mxSample, r, j)
    {
      CoveredRow(rows, nCol, nP, seed, a, mxSample, r, j);
    }
  }

  lemma FlushCovers(t: Scan, n: nat, p: Accum, q: Accum)
    requires ScanOk(t) && Mid(t, n, p, t.nCol - 1) && CanInsert(p) && q == PushPrevious(p, 0)
    requires Coverage(t, n, p.a, p.mxSample, t.nCol - 1) && AllChosen(t, n, p.a, p.mxSample, true)
    ensures Closed(t, n, q, 0) && AllChosen(t, n, q.a, p.mxSample, false) && Coverage(t, n, q.a, p.mxSample, 0)
  {
    hide Coverage;
    hide PushPrevious;
    hide Exact;
    hide Closed;
    hide AllChosen;
    PushPreviousCovers(t, n, p, 0);
    Undone(t, n, p.a, p.mxSample);
    PushPreviousChooses(t, n, p, 0);
    var _ := PushPreviousCloses(t, n, p, 0);
  }

  /** The samples marked as periodic are those of every nP-th row. */
  lemma ClosedPeriodics(t: Scan, n: nat, q: Accum, nP: nat)
    requires ScanOk(t) && Closed(t, n, q, 0) && nP > 0 && PeriodsMarked(t, nP)
    ensures Shaped(q.a, t.nCol) && PeriodicRows(q.a, t.nCol, n, nP)
  {
    hide Nth;
    hide Periodic;
    hide Deferred;
    hide CandidateOk;
    hide Describes;
    hide ColumnOk;
    hide VictimOk;
    forall r | 0 <= r < n
      ensures t.per[r] <==> Nth(r, nP)
    {
      EveryNth(r, nP);
    }
    forall k | 0 <= k < |q.a|
      ensures q.a[k].isP <==> Nth(RowOf(q.a[k], t.nCol), nP)
    {
      assert SampleOk(t, n, q.a[k]);
      if t.per[RowOf(q.a[k], t.nCol)] {
        var l :| 0 <= l < |q.a| && q.a[l].isP && RowOf(q.a[l], t.nCol) == RowOf(q.a[k], t.nCol);
        assert l == k;
      }
    }
  }

  lemma EveryNth(r: nat, nP: nat)
    requires nP > 0
    ensures Periodic(r, nP) <==> Nth(r, nP)
  {
    PeriodicIsMultiple(r, nP);
    QuotientBounds(r + 1, nP);
    IsDivision(r + 1, nP);
  }
}
