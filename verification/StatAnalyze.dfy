/** The scan of one index: stat_init, one stat_push for each row, then the samples. */
module StatAnalyze {
  import opened IndexRows
  import opened StatSpec
  import opened StatProof
  import opened StatTheorems
  import opened Stat4
  import opened Wrappers

  /** One stat_push for each row, in index order. */
  method PushRows(p: StatAccum, rows: seq<Row>, ghost t: Scan)
    requires IsIndex(rows, p.nCol) && ScanOk(t) && p.Valid()
    requires p.mxSample > 0 && p.nPSample > 0 && p.nCol == t.nCol && t.c == ChangesOf(rows, p.nCol)
    requires forall k :: 0 <= k < |rows| ==> t.rowid[k] == rows[k].rowid
    requires Run(t, p.mxSample, p.nPSample, 0) == Some(p.Value())
    requires Run(t, p.mxSample, p.nPSample, |rows|).Some?
    modifies p`nRow, p`iPrn, p`current, p`nSample, p`iMin, p`nMaxEqZero, p.a, p.aBest
    ensures p.Valid() && Run(t, p.mxSample, p.nPSample, |rows|) == Some(p.Value())
  {
    hide Push;
    hide Run;
    hide Shape;
    for k := 0 to |rows|
      invariant p.Valid() && Run(t, p.mxSample, p.nPSample, k) == Some(p.Value())
    {
      ghost var v := p.Value();
      var iChng := if k == 0 then 0 else FirstDiff(rows[k - 1].key, rows[k].key, 0);
      assert t.c[k] == iChng;
      RunReaches(t, p.mxSample, p.nPSample, k + 1, |rows|);
      RunUnfolds(t, p.mxSample, p.nPSample, k, k + 1, v);
      p.StatPush(iChng, rows[k].rowid);
    }
  }

  /** What ANALYZE does with an index, when the estimate handed to stat_init is the row count. */
  method AnalyzeIndex(rows: seq<Row>, nCol: nat, mxSample: nat) returns (p: StatAccum)
    requires IsIndex(rows, nCol) && |rows| > 0 && mxSample > 0
    ensures fresh(p) && p.Valid() && p.nCol == nCol
    ensures WellSampled(rows, nCol, p.a[..p.nSample], mxSample, |rows| / (mxSample / 3 + 1) + 1, Seed(nCol, |rows|))
  {
    hide Push;
    hide PushPrevious;
    hide WellSampled;
    hide SamplesExact;
    hide Run;
    hide Shape;
    hide Seed;
    p := new StatAccum.StatInit(nCol, mxSample, |rows|);
    var nP := p.nPSample;
    ghost var t := ScanOf(rows, nCol, nP, Seed(nCol, |rows|));
    ExactEstimateSuffices(|rows|, |rows|, mxSample);
    VictimExactlyWhen(t, mxSample, nP, |rows|);
    RunStarts(t, mxSample, nP);
    PushRows(p, rows, t);
    ghost var q := FlushedSamplesAreExact(rows, nCol, mxSample, nP, Seed(nCol, |rows|));
    FlushedSamplesCover(rows, nCol, mxSample, nP, Seed(nCol, |rows|), q);
    p.Flush();
    assert p.Value() == q;
  }

  lemma RunStarts(t: Scan, mxSample: nat, nP: nat)
    requires ScanOk(t) && mxSample > 0 && nP > 0
    ensures Run(t, mxSample, nP, 0) == Some(Init(t.nCol, mxSample, nP, t.seed))
  {
  }

  /** A run passes through every shorter run. */
  lemma {:induction false} RunReaches(t: Scan, mxSample: nat, nP: nat, n: nat, m: nat)
    requires ScanOk(t) && mxSample > 0 && nP > 0 && n <= m <= |t.c| && Run(t, mxSample, nP, m).Some?
    ensures Run(t, mxSample, nP, n).Some?
    decreases m
  {
    hide Push;
    if n < m {
      RunReaches(t, mxSample, nP, n, m - 1);
    }
  }

  lemma RunUnfolds(t: Scan, mxSample: nat, nP: nat, k: nat, n: nat, v: Accum)
    requires ScanOk(t) && mxSample > 0 && nP > 0 && k < n == k + 1 <= |t.c|
    requires Run(t, mxSample, nP, k) == Some(v) && Run(t, mxSample, nP, n).Some?
    ensures CanInsert(v) && Shape(v) && v.nCol == t.nCol
    ensures Run(t, mxSample, nP, n) == Some(Push(v, t.c[k], t.rowid[k]))
  {
    hide Push;
    assert Run(t, mxSample, nP, n - 1) == Some(v);
  }
}
