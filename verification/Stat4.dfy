/** The accumulator object of analyze.c, its fields updated in place.  Every method is proved to
    take the object's value exactly where the function of module StatSpec takes it. */
module Stat4 {
  import opened Division
  import opened Lists
  import opened StatSpec

  /** The seed of the tie-breaking generator, on 32-bit words. */
  function Seed(nCol: nat, nEst: nat): (s: nat)
    ensures s < 0x1_0000_0000
  {
    var x: bv32 := ((0x689e962d * nCol) % 0x1_0000_0000) as bv32;
    var y: bv32 := ((0xd0944565 * (nEst % 0x1_0000_0000)) % 0x1_0000_0000) as bv32;
    (x ^ y) as nat
  }

  class StatAccum {
    const nCol: nat
    const mxSample: nat
    const nPSample: nat
    var nRow: nat
    var iPrn: nat
    var current: Sample
    const aBest: array<Sample>
    const a: array<Sample>
    var nSample: nat
    var iMin: int
    var nMaxEqZero: nat
    var iGet: int

    ghost predicate Sized()
      reads this
    {
      aBest.Length == nCol && a.Length == mxSample && nSample <= mxSample && aBest != a
    }

    /** The object's value. */
    ghost function Value(): Accum
      reads this, aBest, a
      requires Sized()
    {
      Accum(nCol, mxSample, nPSample, nRow, iPrn, current, aBest[..], a[..nSample], iMin, nMaxEqZero)
    }

    ghost predicate Valid()
      reads this, aBest, a
    {
      Sized() && Shape(Value())
    }

    constructor StatInit(nCol: nat, mxSample: nat, nEst: nat)
      requires nCol > 0 && mxSample > 0
      ensures Valid() && fresh(aBest) && fresh(a) && iGet == -1
      ensures Value() == Init(nCol, mxSample, PeriodOf(nEst, mxSample), Seed(nCol, nEst))
    {
      hide Seed;
      hide PeriodOf;
      this.nCol, this.mxSample, nPSample := nCol, mxSample, PeriodOf(nEst, mxSample);
      nRow, iPrn, current := 0, Seed(nCol, nEst), ZeroSample(nCol, 0);
      aBest := new Sample[nCol](i requires 0 <= i < nCol => ZeroSample(nCol, i));
      a := new Sample[mxSample](_ => ZeroSample(nCol, 0));
      nSample, iMin, nMaxEqZero, iGet := 0, 0, 0, -1;
    }

    /** The search, newest sample first, for a sample to upgrade. */
    method FindUpgrade(col: nat) returns (periodic: bool, u: nat)
      requires Valid() && col < nCol
      ensures periodic == OpenPeriodic(a[..nSample], nCol, col)
      ensures !periodic ==> u == UpgradeFrom(a[..nSample], nCol, col, 0)
    {
      ghost var s := a[..nSample];
      u := nSample;
      var i := nSample;
      while i > 0
        invariant 0 <= i <= nSample
        invariant u == UpgradeFrom(s, nCol, col, i)
        invariant forall k :: i <= k < nSample && s[k].isP ==> s[k].anEq[col] != 0
      {
        i := i - 1;
        assert s[i] == a[i] && SampleShape(s[i], nCol);
        if a[i].anEq[col] == 0 {
          if a[i].isP {
            return true, u;
          }
          if u == nSample || Better(a[i], a[u], nCol) {
            u := i;
          }
        }
      }
      periodic := false;
    }

    method FindMin()
      requires Sized() && Shape(Value().(iMin := -1))
      modifies this`iMin
      ensures Valid() && Value() == FindNewMin(old(Value()))
    {
      if nSample >= mxSample {
        ghost var s := a[..nSample];
        var m := -1;
        for i := 0 to mxSample
          invariant m == MinIndex(s, nCol, i)
        {
          assert s[i] == a[i];
          if !a[i].isP && (m < 0 || Better(a[m], a[i], nCol)) {
            m := i;
          }
        }
        iMin := m;
      }
    }

    /** The upgrade of sample u to pNew's column. */
    method Upgrade(u: nat, pNew: Sample)
      requires Valid() && u < nSample && SampleShape(pNew, nCol)
      modifies this`iMin, a
      ensures Valid()
      ensures Value() == FindNewMin(old(Value()).(a := old(a[..nSample])[u := old(a[u]).(
                iCol := pNew.iCol, anEq := old(a[u]).anEq[pNew.iCol := pNew.anEq[pNew.iCol]])]))
    {
      ghost var s := a[..nSample];
      a[u] := a[u].(iCol := pNew.iCol, anEq := a[u].anEq[pNew.iCol := pNew.anEq[pNew.iCol]]);
      assert a[..nSample] == s[u := a[u]];
      FindMin();
    }

    /** Removal of sample iMin, the samples after it moving down. */
    method Evict()
      requires Sized() && 0 <= iMin < nSample
      modifies this`nSample, a
      ensures Sized() && a[..nSample] == Removed(old(a[..nSample]), iMin)
    {
      ghost var s := a[..nSample];
      forall k | iMin <= k < nSample - 1 {
        a[k] := a[k + 1];
      }
      nSample := nSample - 1;
      assert a[..nSample] == Removed(s, iMin);
    }

    method Append(x: Sample)
      requires Sized() && nSample < mxSample && SampleShape(x, nCol) && Shape(Value().(iMin := -1))
      modifies this`nSample, this`iMin, a
      ensures Valid() && Value() == FindNewMin(old(Value()).(a := old(a[..nSample]) + [x]))
    {
      ghost var s := a[..nSample];
      a[nSample] := x;
      nSample := nSample + 1;
      assert a[..nSample] == s + [x];
      FindMin();
    }

    method SampleInsert(pNew: Sample, nEqZero: nat)
      requires Valid() && SampleShape(pNew, nCol) && nEqZero <= nCol && CanInsert(Value())
      modifies this`nSample, this`iMin, this`nMaxEqZero, a
      ensures Valid() && Value() == Insert(old(Value()), pNew, nEqZero)
    {
      hide UpgradeFrom;
      hide FindNewMin;
      if nEqZero > nMaxEqZero {
        nMaxEqZero := nEqZero;
      }
      if !pNew.isP {
        var periodic, u := FindUpgrade(pNew.iCol);
        if periodic {
          return;
        }
        if u < nSample {
          Upgrade(u, pNew);
          return;
        }
      }
      if nSample >= mxSample {
        Evict();
      }
      Append(pNew.(anEq := ZeroFirst(pNew.anEq, nEqZero)));
    }

    /** One turn of the loop over aBest[]. */
    method OfferBest(i: nat)
      requires Valid() && i < nCol && CanInsert(Value())
      modifies this`nSample, this`iMin, this`nMaxEqZero, a, aBest
      ensures Valid() && CanInsert(Value()) && Value() == PushBest(old(Value()), i)
    {
      ghost var w := Value();
      aBest[i] := aBest[i].(anEq := aBest[i].anEq[i := current.anEq[i]]);
      assert Value() == CloseBest(w, i);
      if nSample < mxSample || Better(aBest[i], a[iMin], nCol) {
        SampleInsert(aBest[i], i);
      }
      assert Value() == PushBest(w, i);
    }

    /** The loop over aBest[], from column nCol-2 down to iChng. */
    method OfferBests(iChng: nat)
      requires Valid() && iChng < nCol && CanInsert(Value())
      modifies this`nSample, this`iMin, this`nMaxEqZero, a, aBest
      ensures Valid() && CanInsert(Value()) && Value() == PushBests(old(Value()), nCol - 1, iChng)
    {
      hide PushBest;
      hide Shape;
      ghost var v := Value();
      var i := nCol - 1;
      while i > iChng
        invariant iChng <= i < nCol
        invariant Valid() && CanInsert(Value())
        invariant PushBests(Value(), i, iChng) == PushBests(v, nCol - 1, iChng)
      {
        OfferBest(i - 1);
        i := i - 1;
      }
    }

    method SamplePushPrevious(iChng: nat)
      requires Valid() && iChng < nCol && CanInsert(Value())
      modifies this`nSample, this`iMin, this`nMaxEqZero, a, aBest
      ensures Valid() && CanInsert(Value()) && Value() == PushPrevious(old(Value()), iChng)
    {
      hide PushBests;
      hide CloseGroups;
      OfferBests(iChng);
      CloseDeferred(iChng);
    }

    method CloseDeferred(iChng: nat)
      requires Valid() && iChng < nCol
      modifies this`nMaxEqZero, a
      ensures Valid() && Value() == CloseGroups(old(Value()), iChng)
    {
      if iChng < nMaxEqZero {
        FillDeferred(iChng);
        nMaxEqZero := iChng;
      }
    }

    /** Deferred counters of the retained samples take their final value. */
    method FillDeferred(iChng: nat)
      requires Valid() && iChng < nCol
      modifies a
      ensures Sized() && a[..nSample] == FillAll(old(a[..nSample]), nCol, current.anEq, iChng)
    {
      ghost var s := a[..nSample];
      var i := nSample;
      while i > 0
        invariant 0 <= i <= nSample
        invariant forall k :: 0 <= k < i ==> a[k] == s[k]
        invariant forall k :: i <= k < nSample ==> a[k] == s[k].(anEq := FillEq(s[k].anEq, current.anEq, iChng))
      {
        i := i - 1;
        assert SampleShape(s[i], nCol);
        var eq := a[i].anEq;
        for j := iChng to nCol
          invariant |eq| == nCol
          invariant forall l :: 0 <= l < nCol ==>
            eq[l] == if iChng <= l < j && s[i].anEq[l] == 0 then current.anEq[l] else s[i].anEq[l]
        {
          if eq[j] == 0 {
            eq := eq[j := current.anEq[j]];
          }
        }
        assert eq == FillEq(s[i].anEq, current.anEq, iChng);
        a[i] := a[i].(anEq := eq);
      }
    }

    /** The counters of current for the next row. */
    method NextRow(iChng: nat)
      requires Valid() && iChng < nCol
      modifies this`current
      ensures Sized() && Value() == old(Value()).(current := NextCounters(old(current), nCol, iChng))
    {
      ghost var s := current;
      var eq, lt, dlt := current.anEq, current.anLt, current.anDLt;
      for i := 0 to iChng
        invariant |eq| == nCol && forall l :: 0 <= l < nCol ==> eq[l] == if l < i then s.anEq[l] + 1 else s.anEq[l]
      {
        eq := eq[i := eq[i] + 1];
      }
      for i := iChng to nCol
        invariant |eq| == nCol && |lt| == nCol && |dlt| == nCol
        invariant forall l :: 0 <= l < nCol ==> eq[l] == if l < iChng then s.anEq[l] + 1 else if l < i then 1 else s.anEq[l]
        invariant forall l :: 0 <= l < nCol ==> lt[l] == if iChng <= l < i then s.anLt[l] + s.anEq[l] else s.anLt[l]
        invariant forall l :: 0 <= l < nCol ==> dlt[l] == if iChng <= l < i then s.anDLt[l] + 1 else s.anDLt[l]
      {
        dlt := dlt[i := dlt[i] + 1];
        lt := lt[i := lt[i] + eq[i]];
        eq := eq[i := 1];
      }
      var n := NextCounters(s, nCol, iChng);
      assert eq == n.anEq && lt == n.anLt && dlt == n.anDLt;
      current := current.(anEq := eq, anLt := lt, anDLt := dlt);
    }

    /** The aBest[] update: current is left with the last column tried. */
    method OfferCurrent(iChng: nat)
      requires Valid() && iChng < nCol
      modifies this`current, aBest
      ensures Valid()
      ensures Value() == old(Value()).(
                aBest := UpdateBest(old(aBest[..]), old(current), nCol, iChng, nCol - 1),
                current := if nCol > 1 then old(current).(iCol := nCol - 2) else old(current))
    {
      hide Better;
      hide BetterPost;
      hide TailBetter;
      ghost var (s, b) := (current, aBest[..]);
      for i := 0 to nCol - 1
        invariant current == if i == 0 then s else s.(iCol := i - 1)
        invariant aBest[..] == UpdateBest(b, s, nCol, iChng, i)
      {
        UpdateBestStep(b, s, nCol, iChng, i);
        current := current.(iCol := i);
        if i >= iChng || BetterPost(current, aBest[i], nCol) {
          aBest[i] := current;
        }
      }
    }

    /** The previous row closed, and the counters of the new row in place. */
    method BeginRow(iChng: nat, rowid: int)
      requires Valid() && iChng < nCol && CanInsert(Value())
      modifies this`nRow, this`iPrn, this`current, this`nSample, this`iMin, this`nMaxEqZero, a, aBest
      ensures Valid() && CanInsert(Value()) && Value() == Advance(old(Value()), iChng, rowid)
    {
      if nRow == 0 {
        current := current.(anEq := seq(nCol, _ => 1));
      } else {
        SamplePushPrevious(iChng);
        NextRow(iChng);
      }
      nRow := nRow + 1;
      iPrn := Lcg(iPrn);
      current := current.(rowid := rowid, iHash := iPrn);
    }

    /** The current row inserted as a periodic sample, if it is one. */
    method OfferPeriodic()
      requires Valid() && CanInsert(Value())
      modifies this`current, this`nSample, this`iMin, this`nMaxEqZero, a
      ensures Valid() && Value() == TakePeriodic(old(Value()))
    {
      hide Insert;
      hide Quotient;
      var nLt := current.anLt[nCol - 1];
      if Quotient(nLt, nPSample) != Quotient(nLt + 1, nPSample) {
        SampleInsert(current.(isP := true, iCol := 0), nCol - 1);
        current := current.(iCol := 0);
      }
    }

    /** stat_push() for a row that first differs from its predecessor in column iChng. */
    method StatPush(iChng: nat, rowid: int)
      requires Valid() && iChng < nCol && CanInsert(Value())
      modifies this`nRow, this`iPrn, this`current, this`nSample, this`iMin, this`nMaxEqZero, a, aBest
      ensures Valid() && Value() == Push(old(Value()), iChng, rowid)
    {
      BeginRow(iChng, rowid);
      OfferPeriodic();
      OfferCurrent(iChng);
    }

    /** The first stat_get(STAT_GET_ROWID) after a scan closes every group; later ones do not. */
    method Flush()
      requires Valid() && CanInsert(Value())
      modifies this`iGet, this`nSample, this`iMin, this`nMaxEqZero, a, aBest
      ensures Valid() && Value() == if old(iGet) < 0 then PushPrevious(old(Value()), 0) else old(Value())
      ensures iGet == if old(iGet) < 0 then 0 else old(iGet)
    {
      if iGet < 0 {
        SamplePushPrevious(0);
        iGet := 0;
      }
    }
  }
}
