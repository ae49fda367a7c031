/** Indexes of a WITHOUT ROWID table: the primary key without repetitions, covering the table, and every
    other index ending in the primary key columns that it lacks. */
module WithoutRowids {
  import opened HashKeys
  import opened Memory
  import opened SqlText

  /** An index column: the table column, its collating sequence, and its sort order. */
  datatype IndexColumn = IndexColumn(column: int, coll: Text, desc: bool)

  const BINARY: Text := [66, 73, 78, 65, 82, 89]

  /** One column under one collating sequence, whose name is case-insensitive. */
  predicate Same(a: IndexColumn, b: IndexColumn) {
    a.column == b.column && Fold(a.coll) == Fold(b.coll)
  }

  ghost predicate Has(s: seq<IndexColumn>, c: IndexColumn) {
    exists i :: 0 <= i < |s| && Same(s[i], c)
  }

  /** The first of every group of equal columns, in order. */
  ghost function Firsts(s: seq<IndexColumn>): seq<IndexColumn> {
    if s == [] then []
    else
      var rest, last := Firsts(s[..|s| - 1]), s[|s| - 1];
      if Has(s[..|s| - 1], last) then rest else rest + [last]
  }

  /** The columns of pk that key lacks, in order. */
  ghost function Missing(key: seq<IndexColumn>, pk: seq<IndexColumn>): seq<IndexColumn> {
    if pk == [] then []
    else
      var rest, last := Missing(key, pk[..|pk| - 1]), pk[|pk| - 1];
      if Has(key, last) then rest else rest + [last]
  }

  ghost predicate NoRepeats(s: seq<IndexColumn>) {
    forall i, j :: 0 <= i < j < |s| ==> !Same(s[i], s[j])
  }

  /** Firsts has no repetitions and leaves nothing out. */
  lemma {:induction false} FirstsNoRepeats(s: seq<IndexColumn>)
    ensures NoRepeats(Firsts(s))
    ensures forall c :: Has(Firsts(s), c) <==> Has(s, c)
    ensures forall c :: c in Firsts(s) ==> c in s
    ensures s != [] ==> Firsts(s) != [] && Firsts(s)[0] == s[0]
  {
    hide Same;
    if s != [] {
      var rest, last := s[..|s| - 1], s[|s| - 1];
      FirstsNoRepeats(rest);
      SameIsEquivalence();
      assert s == rest + [last];
      forall c ensures Has(Firsts(s), c) <==> Has(s, c) {
        HasAppend(rest, last, c);
        HasAppend(Firsts(rest), last, c);
        if Has(rest, last) && Same(last, c) {
          var i :| 0 <= i < |rest| && Same(rest[i], last);
          assert Same(rest[i], c);
        }
      }
      forall i | 0 <= i < |Firsts(rest)| && !Has(rest, last) ensures !Same(Firsts(rest)[i], last) {
        assert !Has(Firsts(rest), last);
      }
    }
  }

  /** One column more. */
  lemma FirstsStep(s: seq<IndexColumn>, i: nat)
    requires i < |s|
    ensures Firsts(s[..i + 1]) == Firsts(s[..i]) + if Has(Firsts(s[..i]), s[i]) then [] else [s[i]]
    ensures i == 0 ==> Firsts(s[..i + 1]) == [s[0]]
  {
    hide Has;
    FirstsNoRepeats(s[..i]);
    assert s[..i + 1][..i] == s[..i];
    if i == 0 {
      NoneHas(s[..0], s[0]);
    }
  }

  lemma NoneHas(s: seq<IndexColumn>, c: IndexColumn)
    requires s == []
    ensures !Has(s, c)
  {
  }

  lemma SameIsEquivalence()
    ensures forall a, b, c :: Same(a, b) && Same(b, c) ==> Same(a, c)
    ensures forall a, b :: Same(a, b) ==> Same(b, a)
  {
    hide Fold;
  }

  lemma HasAppend(s: seq<IndexColumn>, x: IndexColumn, c: IndexColumn)
    ensures Has(s + [x], c) <==> Has(s, c) || Same(x, c)
  {
    hide Same;
    if Has(s, c) {
      var i :| 0 <= i < |s| && Same(s[i], c);
      assert Same((s + [x])[i], c);
    }
    if Same(x, c) {
      assert Same((s + [x])[|s|], c);
    }
  }

  /** The same columns, all ascending: sort orders are not carried over to the columns added. */
  ghost function Ascending(s: seq<IndexColumn>): (r: seq<IndexColumn>)
    ensures |r| == |s| && forall i :: 0 <= i < |r| ==> r[i] == s[i].(desc := false)
  {
    seq(|s|, i requires 0 <= i < |s| => s[i].(desc := false))
  }

  ghost predicate HasNumber(s: seq<IndexColumn>, x: int) {
    exists i :: 0 <= i < |s| && s[i].column == x
  }

  /** The stored columns among the first n of the table that the key does not name. */
  ghost function Surplus(key: seq<IndexColumn>, isVirtual: seq<bool>, n: nat): (r: seq<IndexColumn>)
    requires n <= |isVirtual|
    ensures forall i :: 0 <= i < |r| ==> 0 <= r[i].column < n
  {
    if n == 0 then []
    else
      var rest := Surplus(key, isVirtual, n - 1);
      if !HasNumber(key, n - 1) && !isVirtual[n - 1] then rest + [IndexColumn(n - 1, BINARY, false)] else rest
  }

  lemma MissingStep(key: seq<IndexColumn>, pk: seq<IndexColumn>, i: nat)
    requires i < |pk|
    ensures Missing(key, pk[..i + 1]) == Missing(key, pk[..i]) + if Has(key, pk[i]) then [] else [pk[i]]
  {
    hide Has;
    assert pk[..i + 1][..i] == pk[..i];
  }

  /** With the columns that it lacks a key has the whole primary key, and still nothing twice. */
  lemma {:induction false} MissingCompletes(key: seq<IndexColumn>, pk: seq<IndexColumn>)
    ensures forall c :: c in pk ==> Has(key + Missing(key, pk), c)
    ensures forall c :: c in Missing(key, pk) ==> c in pk && !Has(key, c)
    ensures NoRepeats(pk) ==> NoRepeats(Missing(key, pk))
  {
    hide Same;
    hide Has;
    if pk != [] {
      var rest, last := pk[..|pk| - 1], pk[|pk| - 1];
      MissingCompletes(key, rest);
      var before := key + Missing(key, rest);
      assert pk == rest + [last];
      if Has(key, last) {
        HasMore(key, Missing(key, rest), last);
      } else {
        SameIsSelf(last);
        assert key + Missing(key, pk) == before + [last];
        HasAppend(before, last, last);
        forall c | c in rest ensures Has(before + [last], c) {
          HasAppend(before, last, c);
        }
      }
      if NoRepeats(pk) {
        LastDiffers(key, rest, last);
      }
    }
  }

  lemma LastDiffers(key: seq<IndexColumn>, rest: seq<IndexColumn>, last: IndexColumn)
    requires NoRepeats(rest + [last]) && forall c :: c in Missing(key, rest) ==> c in rest
    ensures NoRepeats(rest) && forall i :: 0 <= i < |Missing(key, rest)| ==> !Same(Missing(key, rest)[i], last)
  {
    hide Same;
    var pk := rest + [last];
    assert forall i, j :: 0 <= i < j < |rest| ==> rest[i] == pk[i] && rest[j] == pk[j];
    forall i | 0 <= i < |Missing(key, rest)| ensures !Same(Missing(key, rest)[i], last) {
      assert Missing(key, rest)[i] in rest;
      var k :| 0 <= k < |rest| && rest[k] == Missing(key, rest)[i];
      assert !Same(pk[k], pk[|rest|]);
    }
  }

  lemma SameIsSelf(c: IndexColumn)
    ensures Same(c, c)
  {
  }

  lemma HasMore(s: seq<IndexColumn>, t: seq<IndexColumn>, c: IndexColumn)
    requires Has(s, c)
    ensures Has(s + t, c)
  {
    hide Same;
    var i :| 0 <= i < |s| && Same(s[i], c);
    assert Same((s + t)[i], c);
  }

  /** With the surplus columns a key names every stored column, and no virtual one that it did not name. */
  lemma {:induction false} SurplusCovers(key: seq<IndexColumn>, isVirtual: seq<bool>, n: nat, x: int)
    requires n <= |isVirtual|
    ensures HasNumber(key + Surplus(key, isVirtual, n), x) <==> HasNumber(key, x) || (0 <= x < n && !isVirtual[x])
  {
    if n > 0 {
      var rest, all := key + Surplus(key, isVirtual, n - 1), key + Surplus(key, isVirtual, n);
      SurplusCovers(key, isVirtual, n - 1, x);
      if !HasNumber(key, n - 1) && !isVirtual[n - 1] {
        assert all == rest + [IndexColumn(n - 1, BINARY, false)];
        NumberAppend(rest, IndexColumn(n - 1, BINARY, false), x);
      }
    } else {
      assert key + Surplus(key, isVirtual, n) == key;
    }
  }

  lemma NumberAppend(s: seq<IndexColumn>, c: IndexColumn, x: int)
    ensures HasNumber(s + [c], x) <==> HasNumber(s, x) || c.column == x
  {
    if HasNumber(s, x) {
      var i :| 0 <= i < |s| && s[i].column == x;
      assert (s + [c])[i].column == x;
    }
    if c.column == x {
      assert (s + [c])[|s|].column == x;
    }
  }

  // Order

  /** c stands before d in s. */
  ghost predicate Precedes(s: seq<IndexColumn>, c: IndexColumn, d: IndexColumn) {
    exists i, j :: 0 <= i < j < |s| && s[i] == c && s[j] == d
  }

  /** The columns of t stand in the order of s. */
  ghost predicate InOrder(t: seq<IndexColumn>, s: seq<IndexColumn>) {
    && (forall c :: c in t ==> c in s)
    && forall k, l :: 0 <= k < l < |t| ==> Precedes(s, t[k], t[l])
  }

  lemma OrderAppend(t: seq<IndexColumn>, s: seq<IndexColumn>, x: IndexColumn)
    requires InOrder(t, s)
    ensures InOrder(t, s + [x]) && InOrder(t + [x], s + [x])
  {
    forall k, l | 0 <= k < l < |t| + 1
      ensures Precedes(s + [x], (t + [x])[k], (t + [x])[l])
    {
      if l < |t| {
        assert Precedes(s, t[k], t[l]);
        var i, j :| 0 <= i < j < |s| && s[i] == t[k] && s[j] == t[l];
        assert (s + [x])[i] == t[k] && (s + [x])[j] == t[l];
      } else {
        assert t[k] in t;
        var i :| 0 <= i < |s| && s[i] == t[k];
        assert (s + [x])[i] == t[k] && (s + [x])[|s|] == x;
      }
    }
    forall k, l | 0 <= k < l < |t|
      ensures Precedes(s + [x], t[k], t[l])
    {
      assert Precedes(s + [x], (t + [x])[k], (t + [x])[l]);
    }
  }

  /** Neither removing repeats nor picking out what is missing changes the order. */
  lemma {:induction false} FirstsInOrder(s: seq<IndexColumn>)
    ensures InOrder(Firsts(s), s)
  {
    hide Has;
    hide InOrder;
    if s != [] {
      FirstsInOrder(s[..|s| - 1]);
      OrderAppend(Firsts(s[..|s| - 1]), s[..|s| - 1], s[|s| - 1]);
      assert s == s[..|s| - 1] + [s[|s| - 1]];
    } else {
      NothingInOrder(s);
    }
  }

  lemma {:induction false} MissingInOrder(key: seq<IndexColumn>, pk: seq<IndexColumn>)
    ensures InOrder(Missing(key, pk), pk)
  {
    hide Has;
    hide InOrder;
    if pk != [] {
      MissingInOrder(key, pk[..|pk| - 1]);
      OrderAppend(Missing(key, pk[..|pk| - 1]), pk[..|pk| - 1], pk[|pk| - 1]);
      assert pk == pk[..|pk| - 1] + [pk[|pk| - 1]];
    } else {
      NothingInOrder(pk);
    }
  }

  lemma NothingInOrder(s: seq<IndexColumn>)
    ensures InOrder([], s)
  {
  }

  /** The columns added to cover the table come in table order, ascending, under the collating sequence
      BINARY. */
  lemma {:induction false} SurplusInOrder(key: seq<IndexColumn>, isVirtual: seq<bool>, n: nat)
    requires n <= |isVirtual|
    ensures var r := Surplus(key, isVirtual, n);
      && (forall k, l :: 0 <= k < l < |r| ==> r[k].column < r[l].column)
      && forall k :: 0 <= k < |r| ==> !r[k].desc && Spelled(r[k].coll, "BINARY", "BINARY")
  {
    hide HasNumber;
    hide Spelled;
    if n > 0 {
      SurplusInOrder(key, isVirtual, n - 1);
      SurplusStep(key, isVirtual, n - 1);
      BinarySpelled();
      var rest := Surplus(key, isVirtual, n - 1);
      assert forall k :: 0 <= k < |rest| ==> rest[k].column < n - 1;
    }
  }

  lemma BinarySpelled()
    ensures Spelled(BINARY, "BINARY", "BINARY")
  {
  }

  // What counts as one column, in letters

  /** One column of the table under collating sequences whose names differ in case at most. */
  ghost predicate OneColumn(a: IndexColumn, b: IndexColumn) {
    a.column == b.column && SameButCase(a.coll, b.coll)
  }

  ghost predicate Names(s: seq<IndexColumn>, c: IndexColumn) {
    exists i :: 0 <= i < |s| && OneColumn(s[i], c)
  }

  lemma HasMeans(s: seq<IndexColumn>, c: IndexColumn)
    ensures Has(s, c) <==> Names(s, c)
  {
    hide Fold;
    forall i | 0 <= i < |s|
      ensures Same(s[i], c) <==> OneColumn(s[i], c)
    {
      FoldMeans(s[i].coll, c.coll);
    }
  }

  /** The columns of now are those of was that no earlier one repeats. */
  ghost predicate KeepsFirst(was: seq<IndexColumn>, now: seq<IndexColumn>) {
    forall k :: 0 <= k < |was| && !Names(was[..k], was[k]) ==> was[k] in now
  }

  lemma {:induction false} FirstsKeepFirst(s: seq<IndexColumn>)
    ensures KeepsFirst(s, Firsts(s))
  {
    hide Names;
    hide Has;
    if s != [] {
      var rest, last := s[..|s| - 1], s[|s| - 1];
      FirstsKeepFirst(rest);
      HasMeans(rest, last);
      forall k | 0 <= k < |s| && !Names(s[..k], s[k])
        ensures s[k] in Firsts(s)
      {
        if k < |rest| {
          assert s[..k] == rest[..k] && s[k] == rest[k];
          assert rest[k] in Firsts(rest);
        }
      }
    }
  }

  /** cols holds every column of the primary key that the key does not name. */
  ghost predicate FillsIn(key: seq<IndexColumn>, pk: seq<IndexColumn>, cols: seq<IndexColumn>) {
    forall c :: c in pk && !Names(key, c) ==> c.(desc := false) in cols
  }

  lemma {:induction false} MissingFillsIn(key: seq<IndexColumn>, pk: seq<IndexColumn>)
    ensures forall c :: c in pk && !Names(key, c) ==> c in Missing(key, pk)
  {
    hide Names;
    if pk != [] {
      MissingFillsIn(key, pk[..|pk| - 1]);
      HasMeans(key, pk[|pk| - 1]);
    }
  }

  lemma CompletedFillsIn(key: seq<IndexColumn>, pk: seq<IndexColumn>)
    ensures FillsIn(key, pk, key + Ascending(Missing(key, pk)))
  {
    hide Missing;
    MissingFillsIn(key, pk);
    var missing := Missing(key, pk);
    forall c | c in pk && !Names(key, c)
      ensures c.(desc := false) in key + Ascending(missing)
    {
      var i :| 0 <= i < |missing| && missing[i] == c;
      assert Ascending(missing)[i] == c.(desc := false);
    }
  }

  /** A column under two collating sequences is two columns: a key with both loses neither, and a key with
      one lacks the other. */
  lemma TwoCollations(a: IndexColumn, b: IndexColumn)
    requires a.column == b.column && !SameButCase(a.coll, b.coll)
    ensures Firsts([a, b]) == [a, b] && Missing([a], [b]) == [b]
  {
    HasMeans([a], b);
    assert [a, b][..1] == [a] && [a][..0] == [] && [b][..0] == [];
    NoneHas([], a);
    assert Firsts([]) == [] && Missing([a], []) == [];
    assert Firsts([a]) == [a];
  }

  class Index {
    var aCol: array<IndexColumn>
    var nKeyCol: nat
    var nColumn: nat
    var bAscKeyBug: bool

    ghost predicate Valid()
      reads this
    {
      nKeyCol <= nColumn <= aCol.Length
    }

    ghost function Key(): seq<IndexColumn>
      requires Valid()
      reads this, aCol
    {
      aCol[..nKeyCol]
    }

    ghost function Columns(): seq<IndexColumn>
      requires Valid()
      reads this, aCol
    {
      aCol[..nColumn]
    }

    /** isDupColumn */
    method IsDupColumn(nKey: nat, c: IndexColumn) returns (dup: bool)
      requires nKey <= aCol.Length
      ensures dup <==> Has(aCol[..nKey], c)
    {
      for i := 0 to nKey
        invariant !Has(aCol[..i], c)
      {
        assert aCol[..i + 1] == aCol[..i] + [aCol[i]];
        HasAppend(aCol[..i], aCol[i], c);
        if aCol[i].column == c.column {
          var cmp := StrICmp(aCol[i].coll, c.coll);
          if cmp == 0 {
            assert Same(aCol[..nKey][i], c);
            return true;
          }
        }
      }
      dup := false;
    }

    /** hasColumn */
    method HasColumn(nCol: nat, x: int) returns (has: bool)
      requires nCol <= aCol.Length
      ensures has <==> HasNumber(aCol[..nCol], x)
    {
      for i := 0 to nCol
        invariant !HasNumber(aCol[..i], x)
      {
        if x == aCol[i].column {
          assert aCol[..nCol][i].column == x;
          return true;
        }
        assert aCol[..i + 1] == aCol[..i] + [aCol[i]];
      }
      has := false;
    }

    /** resizeIndexObject: room for n columns, those added zeroed; false when there is no memory. */
    method Resize(n: nat, mem: Heap) returns (ok: bool)
      requires Valid()
      modifies this`aCol, this`nColumn, mem
      ensures mem.refusals >= old(mem.refusals) && (ok <==> mem.refusals == old(mem.refusals))
      ensures Valid() && nColumn >= old(nColumn) && (aCol == old(aCol) || fresh(aCol))
      ensures aCol[..old(nColumn)] == old(aCol[..nColumn])
      ensures old(nColumn) >= n ==> ok && aCol == old(aCol) && nColumn == old(nColumn)
      ensures old(nColumn) < n && ok ==> nColumn == n && forall k :: old(nColumn) <= k < n ==> aCol[k] == IndexColumn(0, [], false)
    {
      if nColumn >= n {
        return true;
      }
      ok := mem.Malloc();
      if !ok {
        return false;
      }
      var z := new IndexColumn[n](_ => IndexColumn(0, [], false));
      for k := 0 to nColumn
        invariant aCol == old(aCol) && nColumn == old(nColumn)
        invariant mem.refusals == old(mem.refusals)
        invariant z[..k] == aCol[..k] && forall i :: k <= i < n ==> z[i] == IndexColumn(0, [], false)
      {
        z[k] := aCol[k];
      }
      aCol, nColumn := z, n;
    }

    /** The primary key loses its repeated columns, in place. */
    method RemoveRepeats()
      requires Valid() && nKeyCol > 0
      modifies this`nKeyCol, this`nColumn, aCol
      ensures Valid() && nColumn == nKeyCol && Key() == Firsts(old(Key()))
    {
      hide Firsts;
      hide Has;
      ghost var was := Key();
      var i, j := 1, 1;
      FirstsStep(was, 0);
      while i < nKeyCol
        invariant 1 <= j <= i <= nKeyCol == |was| && |was| <= aCol.Length
        invariant aCol[..j] == Firsts(was[..i])
        invariant forall k :: i <= k < nKeyCol ==> aCol[k] == was[k]
      {
        var dup := IsDupColumn(j, aCol[i]);
        FirstsStep(was, i);
        if !dup {
          aCol[j] := aCol[i];
          j := j + 1;
        }
        i := i + 1;
      }
      assert was[..i] == was;
      nKeyCol := j;
      nColumn := j;
    }

    /** The rowid tail of this index becomes the primary key columns that its key lacks. */
    method AppendMissing(pk: seq<IndexColumn>, mem: Heap) returns (ok: bool)
      requires Valid() && nColumn <= nKeyCol + 1
      requires forall k :: nKeyCol <= k < nColumn ==> !aCol[k].desc
      modifies this, aCol, mem
      ensures mem.refusals >= old(mem.refusals) && (ok <==> mem.refusals == old(mem.refusals))
      ensures Valid() && nKeyCol == old(nKeyCol) && Key() == old(Key()) && (aCol == old(aCol) || fresh(aCol))
      ensures ok ==> Completed(this, old(Key()), pk)
      ensures ok ==> bAscKeyBug == (old(bAscKeyBug) || exists c :: c in Missing(Key(), pk) && c.desc)
    {
      hide Has;
      ghost var key := Key();
      var n := CountMissing(pk);
      if n == 0 {
        nColumn := nKeyCol;
        return true;
      }
      ok := Resize(nKeyCol + n, mem);
      if ok {
        assert Key() == key;
        FillMissing(pk);
      }
    }

    method CountMissing(pk: seq<IndexColumn>) returns (n: nat)
      requires Valid()
      ensures n == |Missing(Key(), pk)|
    {
      hide Has;
      n := 0;
      for i := 0 to |pk|
        invariant n == |Missing(Key(), pk[..i])|
      {
        var dup := IsDupColumn(nKeyCol, pk[i]);
        MissingStep(Key(), pk, i);
        if !dup {
          n := n + 1;
        }
      }
      assert pk[..|pk|] == pk;
    }

    /** The loop that stores the missing columns after the key. */
    method FillMissing(pk: seq<IndexColumn>)
      requires Valid() && nColumn == nKeyCol + |Missing(Key(), pk)|
      requires forall k :: nKeyCol <= k < nColumn ==> !aCol[k].desc
      modifies this`bAscKeyBug, aCol
      ensures Key() == old(Key()) && Columns() == Key() + Ascending(Missing(Key(), pk))
      ensures bAscKeyBug == (old(bAscKeyBug) || exists c :: c in Missing(Key(), pk) && c.desc)
    {
      hide Has;
      hide Missing;
      hide Ascending;
      ghost var key := Key();
      var j := nKeyCol;
      NothingMissing(key, pk);
      for i := 0 to |pk|
        invariant nKeyCol <= j <= nColumn && aCol[..j] == key + Ascending(Missing(key, pk[..i]))
        invariant forall k :: j <= k < nColumn ==> !aCol[k].desc
        invariant bAscKeyBug == (old(bAscKeyBug) || exists c :: c in Missing(key, pk[..i]) && c.desc)
      {
        assert Key() == aCol[..j][..nKeyCol] == key;
        var dup := IsDupColumn(nKeyCol, pk[i]);
        MissingStep(key, pk, i);
        MissingGrows(key, pk, i + 1);
        AscendingStep(Missing(key, pk[..i]), pk[i]);
        if !dup {
          aCol[j] := aCol[j].(column := pk[i].column, coll := pk[i].coll);
          if pk[i].desc {
            bAscKeyBug := true;
          }
          j := j + 1;
        }
      }
      assert pk[..|pk|] == pk;
      assert Key() == aCol[..j][..nKeyCol] == key;
    }

    /** The primary key gets every stored column that it does not name yet. */
    method CoverTable(isVirtual: seq<bool>, mem: Heap) returns (ok: bool)
      requires Valid() && nColumn == nKeyCol
      modifies this`aCol, this`nColumn, aCol, mem
      ensures mem.refusals >= old(mem.refusals) && (ok <==> mem.refusals == old(mem.refusals))
      ensures Valid() && nKeyCol == old(nKeyCol) && Key() == old(Key()) && (aCol == old(aCol) || fresh(aCol))
      ensures ok ==> Columns() == Key() + Surplus(Key(), isVirtual, |isVirtual|)
    {
      hide HasNumber;
      ghost var key := Key();
      var nExtra := CountSurplus(isVirtual);
      ok := Resize(nKeyCol + nExtra, mem);
      if ok {
        assert Key() == key;
        FillSurplus(isVirtual);
      }
    }

    method CountSurplus(isVirtual: seq<bool>) returns (nExtra: nat)
      requires Valid()
      ensures nExtra == |Surplus(Key(), isVirtual, |isVirtual|)|
    {
      hide HasNumber;
      nExtra := 0;
      for i := 0 to |isVirtual|
        invariant nExtra == |Surplus(Key(), isVirtual, i)|
      {
        var has := HasColumn(nKeyCol, i);
        if !has && !isVirtual[i] {
          nExtra := nExtra + 1;
        }
      }
    }

    method FillSurplus(isVirtual: seq<bool>)
      requires Valid() && nColumn == nKeyCol + |Surplus(Key(), isVirtual, |isVirtual|)|
      requires forall k :: nKeyCol <= k < nColumn ==> !aCol[k].desc
      modifies aCol
      ensures Key() == old(Key()) && Columns() == Key() + Surplus(Key(), isVirtual, |isVirtual|)
    {
      hide HasNumber;
      hide Surplus;
      ghost var key := Key();
      var j := nKeyCol;
      NoSurplus(key, isVirtual);
      for i := 0 to |isVirtual|
        invariant nKeyCol <= j <= nColumn && aCol[..j] == key + Surplus(key, isVirtual, i)
        invariant forall k :: j <= k < nColumn ==> !aCol[k].desc
      {
        var has := HasColumn(j, i);
        SurplusGrows(key, isVirtual, i + 1);
        SurplusStep(key, isVirtual, i);
        SurplusCovers(key, isVirtual, i, i);
        if !has && !isVirtual[i] {
          aCol[j] := aCol[j].(column := i, coll := BINARY);
          j := j + 1;
        }
      }
      assert Key() == aCol[..j][..nKeyCol] == key;
    }
  }

  /** The other indexes of the table as they are when their columns end in the rowid or in their key. */
  ghost predicate RowidIndexes(pPk: Index, others: seq<Index>)
    reads pPk, others, set i | 0 <= i < |others| :: others[i].aCol
  {
    && (forall i :: 0 <= i < |others| ==>
      && others[i].Valid() && others[i].nColumn <= others[i].nKeyCol + 1
      && (forall k :: others[i].nKeyCol <= k < others[i].nColumn ==> !others[i].aCol[k].desc)
      && others[i] != pPk && others[i].aCol != pPk.aCol)
    && (forall i, j :: 0 <= i < j < |others| ==> others[i] != others[j] && others[i].aCol != others[j].aCol)
  }

  /** The index has its key still, and after it the primary key columns that the key lacks. */
  ghost predicate Completed(pIdx: Index, key: seq<IndexColumn>, pk: seq<IndexColumn>)
    reads pIdx, pIdx.aCol
  {
    pIdx.Valid() && pIdx.Key() == key && pIdx.Columns() == key + Ascending(Missing(key, pk))
  }

  /** convertToWithoutRowidTable, for a table whose PRIMARY KEY is an index already; false when there is
      no memory. */
  method ConvertToWithoutRowid(pPk: Index, others: seq<Index>, isVirtual: seq<bool>, mem: Heap) returns (ok: bool)
    requires pPk.Valid() && pPk.nKeyCol > 0 && RowidIndexes(pPk, others)
    modifies pPk, pPk.aCol, others, set i | 0 <= i < |others| :: others[i].aCol
    modifies mem
    ensures mem.refusals >= old(mem.refusals) && (ok <==> mem.refusals == old(mem.refusals))
    ensures pPk.Valid() && (ok ==>
      && pPk.Key() == Firsts(old(pPk.Key()))
      && pPk.Columns() == pPk.Key() + Surplus(pPk.Key(), isVirtual, |isVirtual|))
    ensures ok ==> forall i :: 0 <= i < |others| ==> Completed(others[i], old(others[i].Key()), pPk.Key())
    ensures ok ==> KeepsFirst(old(pPk.Key()), pPk.Key())
    ensures ok ==> forall i :: 0 <= i < |others| ==>
      others[i].Valid() && FillsIn(old(others[i].Key()), pPk.Key(), others[i].Columns())
  {
    hide Firsts;
    hide Missing;
    hide Surplus;
    hide Ascending;
    hide KeepsFirst;
    hide FillsIn;
    FirstsKeepFirst(pPk.Key());
    pPk.RemoveRepeats();
    forall i | 0 <= i < |others| {
      CompletedFillsIn(others[i].Key(), pPk.Key());
    }
    ok := AppendAll(pPk, others, mem);
    if ok {
      ok := pPk.CoverTable(isVirtual, mem);
    }
  }

  /** The loop over the other indexes of the table. */
  method AppendAll(pPk: Index, others: seq<Index>, mem: Heap) returns (ok: bool)
    requires pPk.Valid() && RowidIndexes(pPk, others)
    modifies others, set i | 0 <= i < |others| :: others[i].aCol
    modifies mem
    ensures mem.refusals >= old(mem.refusals) && (ok <==> mem.refusals == old(mem.refusals))
    ensures forall i :: 0 <= i < |others| ==> others[i].aCol == old(others[i].aCol) || fresh(others[i].aCol)
    ensures ok ==> forall i :: 0 <= i < |others| ==> Completed(others[i], old(others[i].Key()), pPk.Key())
  {
    hide Missing;
    hide Ascending;
    hide Completed;
    for i := 0 to |others|
      invariant forall k :: 0 <= k < |others| ==> others[k].aCol == old(others[k].aCol) || (k < i && fresh(others[k].aCol))
      invariant mem.refusals == old(mem.refusals)
      invariant forall k :: 0 <= k < i ==> Completed(others[k], old(others[k].Key()), pPk.Key())
      invariant forall k :: i <= k < |others| ==> unchanged(others[k]) && unchanged(others[k].aCol)
    {
      ok := others[i].AppendMissing(pPk.aCol[..pPk.nKeyCol], mem);
      if !ok {
        return;
      }
    }
    ok := true;
  }

  lemma NothingMissing(key: seq<IndexColumn>, pk: seq<IndexColumn>)
    ensures Missing(key, pk[..0]) == [] && Ascending([]) == []
  {
  }

  lemma NoSurplus(key: seq<IndexColumn>, isVirtual: seq<bool>)
    ensures Surplus(key, isVirtual, 0) == []
  {
  }

  lemma AscendingStep(s: seq<IndexColumn>, c: IndexColumn)
    ensures Ascending(s + [c]) == Ascending(s) + [c.(desc := false)] && Ascending(s + []) == Ascending(s)
  {
    assert s + [] == s;
  }

  lemma SurplusStep(key: seq<IndexColumn>, isVirtual: seq<bool>, i: nat)
    requires i < |isVirtual|
    ensures Surplus(key, isVirtual, i + 1)
      == Surplus(key, isVirtual, i) + if !HasNumber(key, i) && !isVirtual[i] then [IndexColumn(i, BINARY, false)] else []
  {
    hide HasNumber;
  }

  lemma {:induction false} MissingGrows(key: seq<IndexColumn>, pk: seq<IndexColumn>, i: nat)
    requires i <= |pk|
    ensures |Missing(key, pk[..i])| <= |Missing(key, pk)|
    decreases |pk| - i
  {
    if i < |pk| {
      MissingStep(key, pk, i);
      MissingGrows(key, pk, i + 1);
    } else {
      assert pk[..i] == pk;
    }
  }

  lemma {:induction false} SurplusGrows(key: seq<IndexColumn>, isVirtual: seq<bool>, i: nat)
    requires i <= |isVirtual|
    ensures |Surplus(key, isVirtual, i)| <= |Surplus(key, isVirtual, |isVirtual|)|
    decreases |isVirtual| - i
  {
    if i < |isVirtual| {
      SurplusGrows(key, isVirtual, i + 1);
    }
  }
}
