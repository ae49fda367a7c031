/** Dropping a table: the order in which its root pages are destroyed, in a database that moves its
    largest root page into every page that comes free. */
module DestroyTables {
  import opened Wrappers

  /** An iteration may choose this root: it is below the last one destroyed, if any was. */
  predicate Eligible(root: nat, iDestroyed: nat) {
    iDestroyed == 0 || root < iDestroyed
  }

  /** The root pages left after iDestroyed. */
  ghost function Remaining(iTab: nat, idx: seq<nat>, iDestroyed: nat): set<nat> {
    set r | r in [iTab] + idx && r > 0 && Eligible(r, iDestroyed)
  }

  ghost predicate Descending(code: seq<nat>) {
    forall i, j :: 0 <= i < j < |code| ==> code[i] > code[j]
  }

  /** destroyTable: the operands of the OP_Destroy opcodes, in order; idx holds the root pages of the
      table's indices. */
  method DestroyTable(iTab: nat, idx: seq<nat>) returns (code: seq<nat>)
    ensures Descending(code)
    ensures forall r :: r in code <==> r > 0 && (r == iTab || r in idx)
  {
    var iDestroyed := 0;
    code := [];
    ghost var all := Remaining(iTab, idx, 0);
    while true
      invariant Descending(code) && (code == [] <==> iDestroyed == 0) && (code != [] ==> iDestroyed == code[|code| - 1])
      invariant forall r :: r in code <==> r in all && r !in Remaining(iTab, idx, iDestroyed)
      decreases Remaining(iTab, idx, iDestroyed)
    {
      var iLargest := 0;
      if Eligible(iTab, iDestroyed) {
        iLargest := iTab;
      }
      var i := 0;
      while i < |idx|
        invariant 0 <= i <= |idx|
        invariant iLargest == 0 || iLargest in Remaining(iTab, idx, iDestroyed)
        invariant Eligible(iTab, iDestroyed) ==> iTab <= iLargest
        invariant forall k :: 0 <= k < i && Eligible(idx[k], iDestroyed) ==> idx[k] <= iLargest
      {
        var iIdx := idx[i];
        if Eligible(iIdx, iDestroyed) && iIdx > iLargest {
          iLargest := iIdx;
        }
        i := i + 1;
      }
      if iLargest == 0 {
        return;
      }
      ghost var before := Remaining(iTab, idx, iDestroyed);
      code := code + [iLargest];
      iDestroyed := iLargest;
      assert iLargest in before && iLargest !in Remaining(iTab, idx, iDestroyed);
    }
  }

  /** Trees by root page, and the root pages that the schema table records for the trees that stay; the
      rows of the dropped table are gone before its pages are destroyed. */
  datatype Database = Database(roots: map<nat, nat>, schema: map<nat, nat>)

  ghost function Largest(s: set<nat>): (m: nat)
    requires s != {}
    ensures m in s && forall x :: x in s ==> x <= m
  {
    var x :| x in s;
    if s == {x} then x
    else
      var others := s - {x};
      var y := Largest(others);
      assert s == others + {x};
      if y > x then y else x
  }

  /** destroyRootPage: the tree at the page goes, the largest root page moves there, and the schema is
      told.  A page that is not a root page cannot be destroyed. */
  ghost function Destroy(db: Database, page: nat): Option<Database> {
    if page !in db.roots then None
    else
      var moved := Largest(db.roots.Keys);
      if moved == page then Some(db.(roots := db.roots - {page}))
      else
        Some(Database(
          db.roots[page := db.roots[moved]] - {moved},
          map t | t in db.schema :: if db.schema[t] == moved then page else db.schema[t]))
  }

  /** Running the opcodes. */
  ghost function Execute(db: Database, code: seq<nat>): Option<Database>
    decreases |code|
  {
    if code == [] then Some(db)
    else match Destroy(db, code[0])
      case None => None
      case Some(next) => Execute(next, code[1..])
  }

  /** The trees that the opcodes destroy. */
  ghost function Destroyed(db: Database, code: seq<nat>): seq<nat>
    decreases |code|
  {
    if code == [] || code[0] !in db.roots then []
    else [db.roots[code[0]]] + Destroyed(Destroy(db, code[0]).value, code[1..])
  }

  /** The pages of code hold the trees to be dropped, and the schema knows where all the others are. */
  ghost predicate Synced(db: Database, code: seq<nat>) {
    && (forall r :: r in code ==> r in db.roots)
    && (forall t :: t in db.schema ==> db.schema[t] in db.roots && db.roots[db.schema[t]] == t && db.schema[t] !in code)
    && (forall p :: p in db.roots ==> p in code || (db.roots[p] in db.schema && db.schema[db.roots[p]] == p))
  }

  lemma DestroyStep(db: Database, code: seq<nat>)
    requires code != [] && Descending(code) && Synced(db, code)
    ensures var next := Destroy(db, code[0]);
      && next.Some? && Synced(next.value, code[1..]) && next.value.schema.Keys == db.schema.Keys
      && forall r :: r in code[1..] ==> next.value.roots[r] == db.roots[r]
  {
    var page, rest := code[0], code[1..];
    assert page in code;
    var moved := Largest(db.roots.Keys);
    forall r | r in rest ensures r < page && r in code {
      var i :| 0 <= i < |rest| && rest[i] == r;
      assert code[i + 1] == r;
    }
    forall r | r in code ensures r == page || r in rest {
      var i :| 0 <= i < |code| && code[i] == r;
      assert i > 0 ==> rest[i - 1] == r;
    }
    assert moved >= page;
  }

  /** Destroyed in descending order, exactly the trees that were at the given pages go, each while it is
      still there; all others stay, where the schema says. */
  lemma {:induction false} DescendingDestroys(db: Database, code: seq<nat>)
    requires Descending(code) && Synced(db, code)
    ensures var after := Execute(db, code);
      && after.Some? && Synced(after.value, []) && after.value.schema.Keys == db.schema.Keys
    ensures |Destroyed(db, code)| == |code|
    ensures forall i :: 0 <= i < |code| ==> code[i] in db.roots && Destroyed(db, code)[i] == db.roots[code[i]]
    decreases |code|
  {
    if code != [] {
      var next := Destroy(db, code[0]).value;
      DestroyStep(db, code);
      DescendingDestroys(next, code[1..]);
      forall i | 0 < i < |code| ensures code[i] in db.roots && Destroyed(db, code)[i] == db.roots[code[i]] {
        assert code[i] == code[1..][i - 1];
      }
    }
  }

  /** In ascending order it would fail: destroying page 4 moves the root at page 5. */
  lemma AscendingFails()
    ensures exists db :: Synced(db, [4, 5]) && Execute(db, [4, 5]) == None
  {
    var db := Database(map[4 := 1, 5 := 2], map[]);
    assert 5 in db.roots.Keys;
    assert Largest(db.roots.Keys) == 5;
    var next := Destroy(db, 4).value;
    assert 5 !in next.roots;
    assert [4, 5][1..] == [5];
    assert Execute(next, [5]) == None;
    assert Synced(db, [4, 5]);
  }
}
