/** The open-addressed table inside a Bitvec: a cyclic array of values, 0 for an empty slot, each
    value stored in the first slot that was free at or after its home slot. */
module ProbeTable {
  import opened Division

  /** BITVEC_HASH of a value, which is stored one greater than its zero-based number. */
  function Home(v: nat, n: nat): (h: nat)
    requires v > 0 && n > 0
    ensures h < n
  {
    Remainder(v - 1, n)
  }

  function Next(h: nat, n: nat): nat
    requires h < n
  {
    if h + 1 >= n then 0 else h + 1
  }

  /** Slot x is met before slot k by a probe that starts at slot h. */
  predicate Before(h: nat, k: nat, x: nat) {
    if h <= k then h <= x < k else h <= x || x < k
  }

  /** Steps from slot h round to slot e. */
  function Distance(h: nat, e: nat, n: nat): nat
    requires h < n && e < n
  {
    if h <= e then e - h else e + n - h
  }

  ghost predicate Distinct(t: seq<nat>) {
    forall i, j :: 0 <= i < j < |t| && t[i] != 0 ==> t[i] != t[j]
  }

  /** No empty slot between a value's home and its place. */
  ghost predicate Reachable(t: seq<nat>) {
    forall k, x :: 0 <= k < |t| && 0 <= x < |t| && t[k] != 0 && Before(Home(t[k], |t|), k, x) ==> t[x] != 0
  }

  ghost predicate TableOk(t: seq<nat>) {
    |t| > 0 && Distinct(t) && Reachable(t)
  }

  /** The values held. */
  ghost function Elements(t: seq<nat>): set<nat> {
    set v | v in t && v != 0
  }

  ghost predicate HasHole(t: seq<nat>) {
    exists e :: 0 <= e < |t| && t[e] == 0
  }

  /** Fewer values than slots leave an empty slot, so every probe ends. */
  lemma {:induction false} FewLeaveHole(t: seq<nat>)
    requires Distinct(t)
    ensures HasHole(t) || |Elements(t)| == |t|
  {
    if |t| > 0 {
      var (s, v) := (t[..|t| - 1], t[|t| - 1]);
      FewLeaveHole(s);
      if v == 0 {
        assert t[|t| - 1] == 0;
      } else if HasHole(s) {
        var e :| 0 <= e < |s| && s[e] == 0;
        assert t[e] == 0;
      } else {
        LastIsNew(t);
      }
    }
  }

  lemma LastIsNew(t: seq<nat>)
    requires |t| > 0 && Distinct(t) && t[|t| - 1] != 0
    ensures |Elements(t)| == |Elements(t[..|t| - 1])| + 1
  {
    var (s, v) := (t[..|t| - 1], t[|t| - 1]);
    assert t == s + [v];
    assert Elements(t) == Elements(s) + {v};
    assert v !in s;
  }

  /** A probe that starts at the home of v and has come to slot h without meeting v or a hole. */
  ghost predicate Probed(t: seq<nat>, v: nat, h: nat) {
    && 0 < v && h < |t|
    && forall x :: 0 <= x < |t| && Before(Home(v, |t|), h, x) ==> t[x] != 0 && t[x] != v
  }

  /** One step on: the probe never comes back to its start while there is a hole. */
  lemma ProbeStep(t: seq<nat>, v: nat, h: nat)
    requires Probed(t, v, h) && t[h] != 0 && t[h] != v && HasHole(t)
    ensures Probed(t, v, Next(h, |t|))
    ensures forall e :: 0 <= e < |t| && t[e] == 0 ==> Distance(Next(h, |t|), e, |t|) < Distance(h, e, |t|)
  {
    var (n, s) := (|t|, Home(v, |t|));
    var e :| 0 <= e < n && t[e] == 0;
    assert Next(h, n) != s;
  }

  /** A probe that comes to a hole proves the value absent. */
  lemma HoleMeansAbsent(t: seq<nat>, v: nat, h: nat)
    requires TableOk(t) && Probed(t, v, h) && t[h] == 0
    ensures v !in Elements(t)
  {
    forall k | 0 <= k < |t|
      ensures t[k] != v
    {
    }
  }

  /** Storing the value in that hole. */
  lemma Store(t: seq<nat>, v: nat, h: nat)
    requires TableOk(t) && Probed(t, v, h) && t[h] == 0
    ensures TableOk(t[h := v]) && Elements(t[h := v]) == Elements(t) + {v}
    ensures |Elements(t[h := v])| == |Elements(t)| + 1
  {
    HoleMeansAbsent(t, v, h);
    var u := t[h := v];
    forall w
      ensures w in Elements(u) <==> w in Elements(t) + {v}
    {
      if w in Elements(t) {
        var k :| 0 <= k < |t| && t[k] == w;
        assert u[k] == w;
      }
      assert u[h] == v;
    }
    assert Elements(u) == Elements(t) + {v};
  }

  lemma ElementsStep(t: seq<nat>, j: nat)
    requires j < |t|
    ensures Elements(t[..j + 1]) == if t[j] != 0 then Elements(t[..j]) + {t[j]} else Elements(t[..j])
    ensures t[j] != 0 ==> t[j] in Elements(t)
  {
    assert t[..j + 1] == t[..j] + [t[j]];
  }

  /** While a table is rebuilt without value i, the next value is not there yet and there is room. */
  lemma NotBefore(t: seq<nat>, j: nat, i: nat)
    requires Distinct(t) && |Elements(t)| < |t| && j < |t| && t[j] != 0
    ensures t[j] !in Elements(t[..j]) && |Elements(t[..j]) - {i}| < |t|
  {
    SubsetCount(Elements(t[..j]) - {i}, Elements(t));
  }

  lemma {:induction false} SubsetCount(a: set<nat>, b: set<nat>)
    requires a <= b
    ensures |a| <= |b|
  {
    assert b == a + (b - a);
  }

  lemma ElementsEmpty(t: seq<nat>)
    ensures Elements(t[..0]) == {}
  {
  }

  lemma EmptyTable(t: seq<nat>)
    requires |t| > 0 && forall k :: 0 <= k < |t| ==> t[k] == 0
    ensures TableOk(t) && Elements(t) == {}
  {
  }
}
