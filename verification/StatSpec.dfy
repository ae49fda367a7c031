/** What the STAT4 accumulator computes, as functions on values: one function for each routine of
    analyze.c.  The class StatAccum in module Stat4 is proved equal to these step by step, and
    module StatProof proves what they mean for a whole scan. */
module StatSpec {
  import opened Division
  import opened Lists

  /** StatSample.  anEq[j] == 0 means "the group on columns 0..j has not ended yet". */
  datatype Sample = Sample(
    anEq: seq<nat>, anLt: seq<nat>, anDLt: seq<nat>,
    rowid: int, isP: bool, iCol: nat, iHash: nat)

  /** StatAccum, for nLimit == 0.  a holds the nSample samples retained so far. */
  datatype Accum = Accum(
    nCol: nat, mxSample: nat, nPSample: nat, nRow: nat, iPrn: nat,
    current: Sample, aBest: seq<Sample>, a: seq<Sample>,
    iMin: int, nMaxEqZero: nat)

  predicate SampleShape(s: Sample, nCol: nat) {
    |s.anEq| == nCol && |s.anLt| == nCol && |s.anDLt| == nCol && s.iCol < nCol
  }

  ghost predicate Shaped(a: seq<Sample>, nCol: nat) {
    forall i :: 0 <= i < |a| ==> SampleShape(a[i], nCol)
  }

  /** The sizes every operation relies on. */
  ghost predicate Shape(p: Accum) {
    && 0 < p.nCol && 0 < p.mxSample && 0 < p.nPSample
    && SampleShape(p.current, p.nCol) && !p.current.isP
    && |p.aBest| == p.nCol && Shaped(p.aBest, p.nCol)
    && (forall i :: 0 <= i < p.nCol ==> p.aBest[i].iCol == i && !p.aBest[i].isP)
    && |p.a| <= p.mxSample && Shaped(p.a, p.nCol)
    && (|p.a| == p.mxSample ==> -1 <= p.iMin < |p.a|)
  }

  /** A row's place in the scan: rows strictly below it on all columns. */
  function RowOf(s: Sample, nCol: nat): nat
    requires 0 < nCol && SampleShape(s, nCol)
  {
    s.anLt[nCol - 1]
  }

  /** The linear congruential generator behind the tie-breaking hash, on 32-bit words. */
  function Lcg(x: nat): nat {
    (x * 1103515245 + 12345) % 0x1_0000_0000
  }

  /** The generator takes different numbers to different ones; 4005161829 is its multiplier's inverse. */
  lemma LcgPermutes(x: nat, y: nat)
    requires x < 0x1_0000_0000 && y < 0x1_0000_0000 && Lcg(x) == Lcg(y)
    ensures x == y
  {
    var t := (x * 1103515245 + 12345) / 0x1_0000_0000 - (y * 1103515245 + 12345) / 0x1_0000_0000;
    var e := t * 4005161829 - (x - y) * 1029054899;
    assert x - y == e * 0x1_0000_0000;
  }

  /** Comparison of counts from column k on, then of the hash. */
  predicate TailBetter(x: Sample, y: Sample, nCol: nat, k: nat)
    requires SampleShape(x, nCol) && SampleShape(y, nCol) && k <= nCol
    decreases nCol - k
  {
    if k == nCol then x.iHash > y.iHash
    else x.anEq[k] > y.anEq[k] || (x.anEq[k] == y.anEq[k] && TailBetter(x, y, nCol, k + 1))
  }

  /** sampleIsBetterPost */
  predicate BetterPost(x: Sample, y: Sample, nCol: nat)
    requires SampleShape(x, nCol) && SampleShape(y, nCol)
  {
    TailBetter(x, y, nCol, x.iCol + 1)
  }

  /** sampleIsBetter */
  predicate Better(x: Sample, y: Sample, nCol: nat)
    requires SampleShape(x, nCol) && SampleShape(y, nCol)
  {
    var (eqX, eqY) := (x.anEq[x.iCol], y.anEq[y.iCol]);
    || eqX > eqY
    || (eqX == eqY && (x.iCol < y.iCol || (x.iCol == y.iCol && BetterPost(x, y, nCol))))
  }

  function ZeroFirst(s: seq<nat>, n: nat): (r: seq<nat>)
    requires n <= |s|
    ensures |r| == |s| && forall j :: 0 <= j < |s| ==> r[j] == if j < n then 0 else s[j]
  {
    seq(n, _ => 0) + s[n..]
  }

  /** Index, among a[k..], of the sample to upgrade: the best one whose group on columns 0..col is
      still open; the highest index wins a tie.  |a| if there is none. */
  function UpgradeFrom(a: seq<Sample>, nCol: nat, col: nat, k: nat): (u: nat)
    requires col < nCol && k <= |a| && Shaped(a, nCol)
    ensures k <= u <= |a|
    ensures u < |a| ==> SampleShape(a[u], nCol) && a[u].anEq[col] == 0
    decreases |a| - k
  {
    if k == |a| then |a|
    else
      var u := UpgradeFrom(a, nCol, col, k + 1);
      if a[k].anEq[col] == 0 && (u == |a| || Better(a[k], a[u], nCol)) then k else u
  }

  /** Least preferred non-periodic sample among a[..k]; the lowest index wins a tie; -1 if none. */
  function MinIndex(a: seq<Sample>, nCol: nat, k: nat): (m: int)
    requires k <= |a| && Shaped(a, nCol)
    ensures -1 <= m < k && (m >= 0 ==> !a[m].isP)
  {
    if k == 0 then -1
    else
      var m := MinIndex(a, nCol, k - 1);
      if !a[k - 1].isP && (m < 0 || Better(a[m], a[k - 1], nCol)) then k - 1 else m
  }

  /** The find_new_min part of sampleInsert. */
  function FindNewMin(p: Accum): (q: Accum)
    requires Shape(p.(iMin := -1))
    ensures Shape(q)
  {
    if |p.a| >= p.mxSample then p.(iMin := MinIndex(p.a, p.nCol, |p.a|)) else p
  }

  /** sampleInsert may be called: if the buffer is full there is a victim. */
  predicate CanInsert(p: Accum) {
    |p.a| == p.mxSample ==> p.iMin >= 0
  }

  predicate OpenPeriodic(a: seq<Sample>, nCol: nat, col: nat)
    requires col < nCol && Shaped(a, nCol)
  {
    exists k :: 0 <= k < |a| && SampleShape(a[k], nCol) && a[k].isP && a[k].anEq[col] == 0
  }

  /** sampleInsert */
  function Insert(p: Accum, s: Sample, nEqZero: nat): (q: Accum)
    requires Shape(p) && SampleShape(s, p.nCol) && nEqZero <= p.nCol && CanInsert(p)
    ensures Shape(q) && q.nCol == p.nCol && q.mxSample == p.mxSample && q.nPSample == p.nPSample
    ensures q.nRow == p.nRow && q.iPrn == p.iPrn && q.current == p.current && q.aBest == p.aBest
  {
    var p1 := if nEqZero > p.nMaxEqZero then p.(nMaxEqZero := nEqZero) else p;
    if !s.isP && OpenPeriodic(p.a, p.nCol, s.iCol) then p1
    else
      var u := UpgradeFrom(p.a, p.nCol, s.iCol, 0);
      if !s.isP && u < |p.a| then
        var up := p.a[u].(iCol := s.iCol, anEq := p.a[u].anEq[s.iCol := s.anEq[s.iCol]]);
        FindNewMin(p1.(a := p.a[u := up]))
      else
        FindNewMin(p1.(a := Kept(p) + [s.(anEq := ZeroFirst(s.anEq, nEqZero))]))
  }

  /** The buffer that sampleInsert appends to: full, it first loses the victim. */
  function Kept(p: Accum): (k: seq<Sample>)
    requires Shape(p) && CanInsert(p)
    ensures Shaped(k, p.nCol) && |k| < p.mxSample
  {
    if |p.a| >= p.mxSample then Removed(p.a, p.iMin) else p.a
  }

  /** The candidate of column i, with its group on columns 0..i closed. */
  function CloseBest(p: Accum, i: nat): (q: Accum)
    requires Shape(p) && i < p.nCol
    ensures Shape(q)
  {
    p.(aBest := p.aBest[i := p.aBest[i].(anEq := p.aBest[i].anEq[i := p.current.anEq[i]])])
  }

  predicate Worthy(p: Accum, s: Sample)
    requires Shape(p) && SampleShape(s, p.nCol) && CanInsert(p)
  {
    |p.a| < p.mxSample || Better(s, p.a[p.iMin], p.nCol)
  }

  lemma {:induction false} MinIndexFinds(a: seq<Sample>, nCol: nat, k: nat, i: nat)
    requires i < k <= |a| && !a[i].isP && Shaped(a, nCol)
    ensures MinIndex(a, nCol, k) >= 0
  {
    if i < k - 1 {
      MinIndexFinds(a, nCol, k - 1, i);
    }
  }

  /** Inserting a non-periodic sample never leaves the buffer without a victim. */
  lemma InsertKeepsVictim(p: Accum, s: Sample, nEqZero: nat)
    requires Shape(p) && SampleShape(s, p.nCol) && nEqZero <= p.nCol && CanInsert(p) && !s.isP
    ensures CanInsert(Insert(p, s, nEqZero))
  {
    var q := Insert(p, s, nEqZero);
    if |q.a| == q.mxSample && !OpenPeriodic(p.a, p.nCol, s.iCol) {
      var u := UpgradeFrom(p.a, p.nCol, s.iCol, 0);
      MinIndexFinds(q.a, q.nCol, |q.a|, if u < |p.a| then u else |q.a| - 1);
    }
  }

  /** One turn of the candidate loop of samplePushPrevious. */
  function PushBest(p: Accum, i: nat): (q: Accum)
    requires Shape(p) && i < p.nCol && CanInsert(p)
    ensures Shape(q) && CanInsert(q)
    ensures q.nCol == p.nCol && q.mxSample == p.mxSample && q.nPSample == p.nPSample
    ensures q.nRow == p.nRow && q.iPrn == p.iPrn && q.current == p.current
  {
    var q := CloseBest(p, i);
    if Worthy(q, q.aBest[i]) then
      InsertKeepsVictim(q, q.aBest[i], i);
      Insert(q, q.aBest[i], i)
    else q
  }

  /** The candidate loop, for columns i-1 down to iChng. */
  function PushBests(p: Accum, i: nat, iChng: nat): (q: Accum)
    requires Shape(p) && iChng <= i <= p.nCol && CanInsert(p)
    ensures Shape(q) && CanInsert(q)
    ensures q.nCol == p.nCol && q.mxSample == p.mxSample && q.nPSample == p.nPSample
    ensures q.nRow == p.nRow && q.iPrn == p.iPrn && q.current == p.current
    decreases i
  {
    if i == iChng then p else PushBests(PushBest(p, i - 1), i - 1, iChng)
  }

  /** Deferred counters: from column `from` on, the counters still 0 take their value from eq. */
  function FillEq(anEq: seq<nat>, eq: seq<nat>, from: nat): (r: seq<nat>)
    requires |anEq| == |eq|
    ensures |r| == |anEq|
    ensures forall j :: 0 <= j < |r| ==> r[j] == if j >= from && anEq[j] == 0 then eq[j] else anEq[j]
  {
    seq(|anEq|, j requires 0 <= j < |anEq| => if j >= from && anEq[j] == 0 then eq[j] else anEq[j])
  }

  function FillAll(a: seq<Sample>, nCol: nat, eq: seq<nat>, from: nat): (r: seq<Sample>)
    requires Shaped(a, nCol) && |eq| == nCol
    ensures |r| == |a| && forall k :: 0 <= k < |a| ==> r[k] == a[k].(anEq := FillEq(a[k].anEq, eq, from))
  {
    seq(|a|, k requires 0 <= k < |a| => a[k].(anEq := FillEq(a[k].anEq, eq, from)))
  }

  /** The last part of samplePushPrevious: deferred counters from column iChng on become final. */
  function CloseGroups(p: Accum, iChng: nat): (q: Accum)
    requires Shape(p) && iChng < p.nCol
    ensures Shape(q) && q.iMin == p.iMin && |q.a| == |p.a|
    ensures q.nCol == p.nCol && q.mxSample == p.mxSample && q.nPSample == p.nPSample
    ensures q.nRow == p.nRow && q.iPrn == p.iPrn && q.current == p.current
  {
    if iChng < p.nMaxEqZero then p.(a := FillAll(p.a, p.nCol, p.current.anEq, iChng), nMaxEqZero := iChng) else p
  }

  /** samplePushPrevious */
  function PushPrevious(p: Accum, iChng: nat): (q: Accum)
    requires Shape(p) && iChng < p.nCol && CanInsert(p)
    ensures Shape(q) && CanInsert(q)
    ensures q.nCol == p.nCol && q.mxSample == p.mxSample && q.nPSample == p.nPSample
    ensures q.nRow == p.nRow && q.iPrn == p.iPrn && q.current == p.current
  {
    CloseGroups(PushBests(p, p.nCol - 1, iChng), iChng)
  }

  /** The running counters for a row that first differs from its predecessor in column iChng. */
  function NextCounters(s: Sample, nCol: nat, iChng: nat): (r: Sample)
    requires SampleShape(s, nCol) && iChng < nCol
    ensures SampleShape(r, nCol)
  {
    s.(anEq := seq(nCol, j requires 0 <= j < nCol => if j < iChng then s.anEq[j] + 1 else 1),
       anLt := seq(nCol, j requires 0 <= j < nCol => if j < iChng then s.anLt[j] else s.anLt[j] + s.anEq[j]),
       anDLt := seq(nCol, j requires 0 <= j < nCol => if j < iChng then s.anDLt[j] else s.anDLt[j] + 1))
  }

  /** Is the row with nLt rows before it a periodic sample? */
  predicate Periodic(nLt: nat, nPSample: nat)
    requires nPSample > 0
  {
    Quotient(nLt, nPSample) != Quotient(nLt + 1, nPSample)
  }

  /** The aBest[] update of statPush, for columns below i. */
  function UpdateBest(aBest: seq<Sample>, s: Sample, nCol: nat, iChng: nat, i: nat): (r: seq<Sample>)
    requires Shaped(aBest, nCol) && |aBest| == nCol && SampleShape(s, nCol) && i <= nCol
    requires forall k :: 0 <= k < nCol ==> aBest[k].iCol == k
    ensures |r| == nCol
    ensures forall k :: 0 <= k < nCol ==>
      r[k] == if k < i && (k >= iChng || BetterPost(s.(iCol := k), aBest[k], nCol)) then s.(iCol := k) else aBest[k]
  {
    seq(nCol, k requires 0 <= k < nCol =>
      if k < i && (k >= iChng || BetterPost(s.(iCol := k), aBest[k], nCol)) then s.(iCol := k) else aBest[k])
  }

  lemma UpdateBestStep(aBest: seq<Sample>, s: Sample, nCol: nat, iChng: nat, i: nat)
    requires Shaped(aBest, nCol) && |aBest| == nCol && SampleShape(s, nCol) && i < nCol
    requires forall k :: 0 <= k < nCol ==> aBest[k].iCol == k
    ensures UpdateBest(aBest, s, nCol, iChng, 0) == aBest && UpdateBest(aBest, s, nCol, iChng, i)[i] == aBest[i]
    ensures UpdateBest(aBest, s, nCol, iChng, i + 1) == UpdateBest(aBest, s, nCol, iChng, i)[
              i := if i >= iChng || BetterPost(s.(iCol := i), aBest[i], nCol) then s.(iCol := i) else aBest[i]]
  {
    hide BetterPost;
  }

  /** statPush up to the periodic sample: previous row closed, counters of the new row in place. */
  function Advance(p: Accum, iChng: nat, rowid: int): (q: Accum)
    requires Shape(p) && iChng < p.nCol && CanInsert(p)
    ensures Shape(q) && CanInsert(q) && q.nCol == p.nCol && q.mxSample == p.mxSample && q.nPSample == p.nPSample
  {
    var p1 := if p.nRow == 0 then p.(current := p.current.(anEq := seq(p.nCol, _ => 1)))
              else var q := PushPrevious(p, iChng); q.(current := NextCounters(q.current, q.nCol, iChng));
    var prn := Lcg(p1.iPrn);
    p1.(nRow := p1.nRow + 1, iPrn := prn, current := p1.current.(rowid := rowid, iHash := prn))
  }

  /** The current row offered as a periodic sample. */
  function TakePeriodic(p: Accum): (q: Accum)
    requires Shape(p) && CanInsert(p)
    ensures Shape(q) && q.nCol == p.nCol && q.mxSample == p.mxSample && q.nPSample == p.nPSample
  {
    if Periodic(RowOf(p.current, p.nCol), p.nPSample)
    then Insert(p, p.current.(isP := true, iCol := 0), p.nCol - 1).(current := p.current.(iCol := 0))
    else p
  }

  /** statPush from the periodic sample on. */
  function Collect(p: Accum, iChng: nat): (q: Accum)
    requires Shape(p) && iChng < p.nCol && CanInsert(p)
    ensures Shape(q) && q.nCol == p.nCol && q.mxSample == p.mxSample && q.nPSample == p.nPSample
  {
    var q := TakePeriodic(p);
    q.(aBest := UpdateBest(q.aBest, q.current, q.nCol, iChng, q.nCol - 1),
       current := if q.nCol > 1 then q.current.(iCol := q.nCol - 2) else q.current)
  }

  /** statPush */
  function Push(p: Accum, iChng: nat, rowid: int): (q: Accum)
    requires Shape(p) && iChng < p.nCol && CanInsert(p)
    ensures Shape(q) && q.nCol == p.nCol && q.mxSample == p.mxSample && q.nPSample == p.nPSample
  {
    Collect(Advance(p, iChng, rowid), iChng)
  }

  function ZeroSample(nCol: nat, i: nat): Sample {
    Sample(seq(nCol, _ => 0), seq(nCol, _ => 0), seq(nCol, _ => 0), 0, false, i, 0)
  }

  /** How often a periodic sample is taken. */
  function PeriodOf(nEst: nat, mxSample: nat): (n: nat)
    ensures n > 0
  {
    nEst / (mxSample / 3 + 1) + 1
  }

  /** statInit, given the sampling period */
  function Init(nCol: nat, mxSample: nat, nPSample: nat, seed: nat): (p: Accum)
    requires nCol > 0 && mxSample > 0 && nPSample > 0
    ensures Shape(p) && CanInsert(p)
  {
    Accum(nCol, mxSample, nPSample, 0, seed, ZeroSample(nCol, 0),
          seq(nCol, i requires 0 <= i < nCol => ZeroSample(nCol, i)), [], 0, 0)
  }
}
