/** Which row of a group is kept.  While there is room, a sample that is not periodic is of the row with
    the largest hash among those that are equal on all columns but the last. */
module StatChoice {
  import opened PrefixGroups
  import opened StatSpec
  import opened StatOrder
  import opened StatProof
  import opened StatScan
  import opened StatCoverage

  /** Of the rows of its group on all columns but the last, row x has the largest hash, and is the first
      that has it. */
  ghost predicate Chosen(t: Scan, n: nat, x: nat)
    requires ScanOk(t) && x < n <= |t.c| && t.nCol >= 2
  {
    forall r :: 0 <= r < n && Start(t.c, t.nCol - 2, r) == Start(t.c, t.nCol - 2, x) ==>
      HashAt(t.seed, r) <= HashAt(t.seed, x) && (r < x ==> HashAt(t.seed, r) < HashAt(t.seed, x))
  }

  /** s is periodic, or of the row chosen in its group; done says that the group has ended. */
  ghost predicate WellChosen(t: Scan, n: nat, s: Sample, done: bool)
    requires ScanOk(t) && n <= |t.c|
  {
    s.isP || (
      && t.nCol >= 2 && SampleShape(s, t.nCol) && RowOf(s, t.nCol) < n && Chosen(t, n, RowOf(s, t.nCol))
      && (done ==> !Open(t.c, t.nCol - 2, RowOf(s, t.nCol), n)))
  }

  ghost predicate AllChosen(t: Scan, n: nat, a: seq<Sample>, mx: nat, done: bool)
    requires ScanOk(t) && n <= |t.c|
  {
    |a| < mx ==> forall k :: 0 <= k < |a| ==> WellChosen(t, n, a[k], done)
  }

  /** The candidate of the last column but one is chosen by hash. */
  lemma CandidateChosen(t: Scan, n: nat, s: Sample)
    requires ScanOk(t) && 0 < n <= |t.c| && t.nCol >= 2 && CandidateOk(t, n, t.nCol - 2, s)
    ensures Chosen(t, n, RowOf(s, t.nCol))
  {
    var i, x := t.nCol - 2, RowOf(s, t.nCol);
    StartOfMember(t.c, i, x, n - 1);
    forall r | 0 <= r < n && Start(t.c, i, r) == Start(t.c, i, x)
      ensures HashAt(t.seed, r) <= HashAt(t.seed, x) && (r < x ==> HashAt(t.seed, r) < HashAt(t.seed, x))
    {
      var y := RowSample(t, r, i);
      OneRow(t, r);
      OneRow(t, x);
      assert TailBetter(s, y, t.nCol, i + 1) <==> HashAt(t.seed, x) > HashAt(t.seed, r);
      assert TailBetter(y, s, t.nCol, i + 1) <==> HashAt(t.seed, r) > HashAt(t.seed, x);
    }
  }

  /** On all columns a row is alone. */
  lemma OneRow(t: Scan, r: nat)
    requires ScanOk(t) && r < |t.c|
    ensures Running(t.c, t.nCol - 1, r) == 1
  {
  }

  /** While there is room, a candidate that no sample of its group is open for is one of the last column
      but one: of any other there would be a sample already. */
  lemma RoomMeansLast(t: Scan, n: nat, p: Accum, i: nat)
    requires ScanOk(t) && i < t.nCol - 1 && Mid(t, n, p, i + 1) && Coverage(t, n, p.a, p.mxSample, i + 1)
    requires |p.a| < p.mxSample && forall k :: 0 <= k < |p.a| ==> p.a[k].anEq[i] != 0
    ensures i == t.nCol - 2
  {
    hide CandidateOk;
    hide Describes;
    hide VictimOk;
    hide Deferred;
    hide SampleOk;
    hide StandsFor;
    if i < t.nCol - 2 {
      assert Covered(t, n, p.a, p.mxSample, n - 1, i + 1);
      var k :| 0 <= k < |p.a| && StandsFor(t, p.a[k], n - 1, i + 1);
      StandingIsOpen(t, n, i, p.a[k]);
    }
  }

  lemma StandingIsOpen(t: Scan, n: nat, i: nat, x: Sample)
    requires ScanOk(t) && 0 < n <= |t.c| && i < t.nCol - 1 && SampleOk(t, n, x) && Deferred(t, n, x, i + 1)
    requires StandsFor(t, x, n - 1, i + 1)
    ensures x.anEq[i] == 0
  {
    StartMonotone(t.c, i, i + 1, n - 1);
    OpenMeansZero(t, n, i, x);
  }

  /** Changes of counters choose no other rows. */
  lemma SameChosen(t: Scan, n: nat, a: seq<Sample>, b: seq<Sample>, mx: nat, done: bool)
    requires ScanOk(t) && n <= |t.c| && AllChosen(t, n, a, mx, done) && |b| == |a|
    requires forall k :: 0 <= k < |a| ==> Keeps(a[k], b[k], t.nCol)
    ensures AllChosen(t, n, b, mx, done)
  {
    hide Chosen;
    if |a| < mx {
      forall k | 0 <= k < |b|
        ensures WellChosen(t, n, b[k], done)
      {
        assert Keeps(a[k], b[k], t.nCol) && WellChosen(t, n, a[k], done);
      }
    }
  }

  lemma NoneOpen(a: seq<Sample>, nCol: nat, i: nat)
    requires i < nCol && Shaped(a, nCol) && !OpenPeriodic(a, nCol, i) && UpgradeFrom(a, nCol, i, 0) == |a|
    ensures forall k :: 0 <= k < |a| ==> a[k].anEq[i] != 0
  {
    UpgradeIsBest(a, nCol, i, 0);
  }

  lemma AppendChosen(t: Scan, n: nat, a: seq<Sample>, x: Sample, mx: nat, done: bool)
    requires ScanOk(t) && n <= |t.c| && |a| < mx && AllChosen(t, n, a, mx, done) && WellChosen(t, n, x, done)
    ensures AllChosen(t, n, a + [x], mx, done)
  {
  }

  lemma MidShape(t: Scan, n: nat, p: Accum, lvl: nat)
    requires ScanOk(t) && Mid(t, n, p, lvl)
    ensures 0 < n <= |t.c| && Shape(p) && p.nCol == t.nCol && SamplesOk(t, n, p.a)
  {
  }

  lemma MidCandidate(t: Scan, n: nat, p: Accum, i: nat)
    requires ScanOk(t) && i < t.nCol && Mid(t, n, p, i + 1)
    ensures 0 < n <= |t.c| && Shape(p) && p.nCol == t.nCol && CandidateOk(t, n, i, p.aBest[i])
  {
  }

  /** One turn of the candidate loop. */
  lemma PushBestChooses(t: Scan, n: nat, p: Accum, i: nat)
    requires ScanOk(t) && i < t.nCol - 1 && Mid(t, n, p, i + 1) && CanInsert(p) && Coverage(t, n, p.a, p.mxSample, i + 1)
    requires AllChosen(t, n, p.a, p.mxSample, false)
    ensures AllChosen(t, n, PushBest(p, i).a, p.mxSample, false)
  {
    hide Coverage;
    hide AllChosen;
    hide Mid;
    hide Better;
    MidShape(t, n, p, i + 1);
    var q := CloseBest(p, i);
    var s := q.aBest[i];
    CloseCandidate(t, n, p, i);
    if Worthy(q, s) && !OpenPeriodic(p.a, t.nCol, i) {
      var u := UpgradeFrom(p.a, t.nCol, i, 0);
      InsertForms(q, s, i, u, if i > q.nMaxEqZero then i else q.nMaxEqZero);
      if u < |p.a| {
        UpgradeChooses(t, n, p.a, p.mxSample, i, s, u);
      } else if |p.a| < p.mxSample {
        NoneOpen(p.a, t.nCol, i);
        RoomMeansLast(t, n, p, i);
        MidCandidate(t, n, p, i);
        CandidateChosen(t, n, p.aBest[i]);
        AppendChosen(t, n, p.a, s.(anEq := ZeroFirst(s.anEq, i)), p.mxSample, false);
      } else {
        FullChosen(t, n, PushBest(p, i).a, p.mxSample);
      }
    }
  }

  lemma UpgradeChooses(t: Scan, n: nat, a: seq<Sample>, mx: nat, i: nat, s: Sample, u: nat)
    requires ScanOk(t) && 0 < n <= |t.c| && i < t.nCol - 1 && SamplesOk(t, n, a) && AllChosen(t, n, a, mx, false)
    requires ClosedCandidate(t, n, i, s) && u < |a| && !a[u].isP && a[u].anEq[i] == 0
    ensures AllChosen(t, n, a[u := a[u].(iCol := i, anEq := a[u].anEq[i := s.anEq[i]])], mx, false)
  {
    CandidateBeatsOpenSample(t, n, i, s, a[u]);
    SameChosen(t, n, a, a[u := a[u].(iCol := i, anEq := a[u].anEq[i := s.anEq[i]])], mx, false);
  }

  lemma FullChosen(t: Scan, n: nat, a: seq<Sample>, mx: nat)
    requires ScanOk(t) && n <= |t.c| && |a| >= mx
    ensures AllChosen(t, n, a, mx, false)
  {
  }

  lemma {:induction false} PushBestsChoose(t: Scan, n: nat, p: Accum, i: nat, iChng: nat)
    requires ScanOk(t) && iChng <= i < t.nCol && Mid(t, n, p, i) && CanInsert(p) && Coverage(t, n, p.a, p.mxSample, i)
    requires AllChosen(t, n, p.a, p.mxSample, false)
    ensures AllChosen(t, n, PushBests(p, i, iChng).a, p.mxSample, false)
    decreases i
  {
    hide Coverage;
    hide AllChosen;
    hide CandidateOk;
    hide Describes;
    hide Buffer;
    hide VictimOk;
    hide PushBest;
    if i > iChng {
      PushBestChooses(t, n, p, i - 1);
      PushBestCovers(t, n, p, i - 1);
      PushBestKeepsMid(t, n, p, i - 1);
      PushBestsChoose(t, n, PushBest(p, i - 1), i - 1, iChng);
    }
  }

  /** samplePushPrevious */
  lemma PushPreviousChooses(t: Scan, n: nat, p: Accum, iChng: nat)
    requires ScanOk(t) && iChng < t.nCol && Mid(t, n, p, t.nCol - 1) && CanInsert(p)
    requires Coverage(t, n, p.a, p.mxSample, t.nCol - 1) && AllChosen(t, n, p.a, p.mxSample, false)
    ensures AllChosen(t, n, PushPrevious(p, iChng).a, p.mxSample, false)
  {
    hide Coverage;
    hide AllChosen;
    hide PushBests;
    hide CloseGroups;
    PushBestsChoose(t, n, p, t.nCol - 1, iChng);
    var m := PushBestsKeepsMid(t, n, p, t.nCol - 1, iChng);
    CloseGroupsChoose(t, n, m, iChng);
  }

  lemma CloseGroupsChoose(t: Scan, n: nat, m: Accum, iChng: nat)
    requires ScanOk(t) && iChng < t.nCol && 0 < n <= |t.c| && Shape(m) && m.nCol == t.nCol && SamplesOk(t, n, m.a)
    requires AllChosen(t, n, m.a, m.mxSample, false)
    ensures AllChosen(t, n, CloseGroups(m, iChng).a, m.mxSample, false)
  {
    hide AllChosen;
    SameChosen(t, n, m.a, CloseGroups(m, iChng).a, m.mxSample, false);
  }

  /** Row n ends the group of the row before it, or nothing has been done for it. */
  lemma NextRowChooses(t: Scan, n: nat, p: Accum)
    requires ScanOk(t) && 0 < n < |t.c| && Shape(p) && p.nCol == t.nCol && CanInsert(p)
    requires AllChosen(t, n, p.a, p.mxSample, true) && Shaped(p.a, t.nCol)
    requires AllChosen(t, n, PushPrevious(p, t.c[n]).a, p.mxSample, false)
    ensures AllChosen(t, n + 1, PushPrevious(p, t.c[n]).a, p.mxSample, true)
  {
  }

  /** A periodic sample is in nobody's way. */
  lemma CollectChooses(t: Scan, n: nat, p: Accum, iChng: nat)
    requires ScanOk(t) && Fresh(t, n, p) && CanInsert(p) && iChng < t.nCol
    requires AllChosen(t, n, p.a, p.mxSample, true)
    ensures AllChosen(t, n, Collect(p, iChng).a, p.mxSample, true)
  {
    hide CandidateOk;
    hide Describes;
    hide VictimOk;
    hide Chosen;
  }

  /** statPush */
  lemma PushChooses(t: Scan, n: nat, p: Accum)
    requires ScanOk(t) && n < |t.c| && Mid(t, n, p, t.nCol - 1) && CanInsert(p)
    requires Coverage(t, n, p.a, p.mxSample, t.nCol - 1) && AllChosen(t, n, p.a, p.mxSample, true)
    ensures AllChosen(t, n + 1, Push(p, t.c[n], t.rowid[n]).a, p.mxSample, true)
  {
    hide Coverage;
    hide AllChosen;
    hide Collect;
    hide PushPrevious;
    Undone(t, n, p.a, p.mxSample);
    PushPreviousChooses(t, n, p, t.c[n]);
    NextRowChooses(t, n, p);
    var f := AdvanceNext(t, n, p);
    CollectChooses(t, n + 1, f, t.c[n]);
  }

  lemma Undone(t: Scan, n: nat, a: seq<Sample>, mx: nat)
    requires ScanOk(t) && n <= |t.c| && AllChosen(t, n, a, mx, true)
    ensures AllChosen(t, n, a, mx, false)
  {
    hide Chosen;
  }

  lemma FirstRowChooses(t: Scan, mxSample: nat, nP: nat)
    requires ScanOk(t) && |t.c| > 0 && mxSample > 0 && nP > 0
    ensures AllChosen(t, 1, Push(Init(t.nCol, mxSample, nP, t.seed), t.c[0], t.rowid[0]).a, mxSample, true)
  {
    hide Collect;
    var f := AdvanceFirst(t, mxSample, nP);
    CollectChooses(t, 1, f, 0);
  }
}
