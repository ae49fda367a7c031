/** Buckets as contiguous runs of one list: bucket b owns the positions from starts[b] on, counts[b]
    of them. */
module HashRuns {
  import opened Lists

  ghost predicate Runs(slots: seq<nat>, starts: seq<nat>, counts: seq<nat>) {
    && |starts| == |counts|
    && (forall i :: 0 <= i < |slots| ==>
      slots[i] < |starts| && starts[slots[i]] <= i < starts[slots[i]] + counts[slots[i]])
    && (forall b :: 0 <= b < |starts| ==> starts[b] + counts[b] <= |slots|)
    && (forall b, i :: 0 <= b < |starts| && starts[b] <= i < starts[b] + counts[b] ==> slots[i] == b)
  }

  /** Where an element of bucket b is put: before the bucket's head, or first of all. */
  function InsertAt(starts: seq<nat>, counts: seq<nat>, b: nat): nat
    requires b < |starts| == |counts|
  {
    if counts[b] > 0 then starts[b] else 0
  }

  function StartsAfterInsert(starts: seq<nat>, b: nat, p: nat): (r: seq<nat>)
    requires b < |starts|
    ensures |r| == |starts|
    ensures forall c :: 0 <= c < |r| ==> r[c] == if c == b then p else if starts[c] >= p then starts[c] + 1 else starts[c]
  {
    seq(|starts|, c requires 0 <= c < |starts| => if c == b then p else if starts[c] >= p then starts[c] + 1 else starts[c])
  }

  function StartsAfterRemove(starts: seq<nat>, p: nat): (r: seq<nat>)
    ensures |r| == |starts|
    ensures forall c :: 0 <= c < |r| ==> r[c] == if starts[c] > p then starts[c] - 1 else starts[c]
  {
    seq(|starts|, c requires 0 <= c < |starts| => if starts[c] > p then starts[c] - 1 else starts[c])
  }

  lemma InsertKeepsRuns(slots: seq<nat>, starts: seq<nat>, counts: seq<nat>, b: nat)
    requires Runs(slots, starts, counts) && b < |starts|
    ensures var p := InsertAt(starts, counts, b);
      p <= |slots| && Runs(Inserted(slots, p, b), StartsAfterInsert(starts, b, p), counts[b := counts[b] + 1])
  {
    var p := InsertAt(starts, counts, b);
    var slots', starts', counts' := Inserted(slots, p, b), StartsAfterInsert(starts, b, p), counts[b := counts[b] + 1];
    assert counts[b] > 0 ==> slots[starts[b]] == b;
    forall i | 0 <= i < |slots'|
      ensures slots'[i] < |starts'| && starts'[slots'[i]] <= i < starts'[slots'[i]] + counts'[slots'[i]]
    {
      SlotInRun(slots, starts, counts, b, i);
    }
    forall c, i | 0 <= c < |starts'| && starts'[c] <= i < starts'[c] + counts'[c] ensures slots'[i] == c {
      RunHasSlot(slots, starts, counts, b, c, i);
    }
  }

  lemma SlotInRun(slots: seq<nat>, starts: seq<nat>, counts: seq<nat>, b: nat, i: nat)
    requires Runs(slots, starts, counts) && b < |starts| && i <= |slots|
    ensures var p := InsertAt(starts, counts, b);
      p <= |slots|
      && var c, starts', counts' := Inserted(slots, p, b)[i], StartsAfterInsert(starts, b, p), counts[b := counts[b] + 1];
      c < |starts'| && starts'[c] <= i < starts'[c] + counts'[c]
  {
    var p := InsertAt(starts, counts, b);
    assert counts[b] > 0 ==> slots[starts[b]] == b;
    if i != p {
      assert Inserted(slots, p, b)[i] == slots[if i < p then i else i - 1];
    }
  }

  lemma RunHasSlot(slots: seq<nat>, starts: seq<nat>, counts: seq<nat>, b: nat, c: nat, i: nat)
    requires Runs(slots, starts, counts) && b < |starts| && c < |starts|
    requires var starts' := StartsAfterInsert(starts, b, InsertAt(starts, counts, b));
      starts'[c] <= i < starts'[c] + counts[b := counts[b] + 1][c]
    ensures var p := InsertAt(starts, counts, b);
      p <= |slots| && i <= |slots| && Inserted(slots, p, b)[i] == c
  {
    assert counts[b] > 0 ==> slots[starts[b]] == b;
    if c != b && counts[c] > 0 {
      assert slots[starts[c]] == c;
    }
  }

  lemma RemoveKeepsHeads<T>(list: seq<T>, slots: seq<nat>, starts: seq<nat>, counts: seq<nat>, chains: seq<T>, p: nat, next: T)
    requires Runs(slots, starts, counts) && |slots| == |list| && p < |slots| && |chains| == |counts|
    requires Heads(list, starts, counts, chains)
    requires p + 1 < |list| ==> next == list[p + 1]
    ensures var b := slots[p];
      && counts[b] > 0
      && Heads(Removed(list, p), StartsAfterRemove(starts, p), counts[b := counts[b] - 1],
           chains[b := if starts[b] == p then next else chains[b]])
  {
    var b := slots[p];
    forall c | 0 <= c < |starts| && c != b && counts[c] > 0 ensures starts[c] != p {
      assert slots[starts[c]] == c;
    }
  }

  lemma RemoveKeepsRuns(slots: seq<nat>, starts: seq<nat>, counts: seq<nat>, p: nat)
    requires Runs(slots, starts, counts) && p < |slots|
    ensures counts[slots[p]] > 0
    ensures Runs(Removed(slots, p), StartsAfterRemove(starts, p), counts[slots[p] := counts[slots[p]] - 1])
  {
  }

  /** The head of every bucket that has one, in a list kept beside the slots. */
  ghost predicate Heads<T>(list: seq<T>, starts: seq<nat>, counts: seq<nat>, chains: seq<T>)
    requires |starts| == |counts| == |chains|
  {
    forall b :: 0 <= b < |starts| && counts[b] > 0 ==> starts[b] < |list| && chains[b] == list[starts[b]]
  }

  lemma HeadOf<T>(list: seq<T>, starts: seq<nat>, counts: seq<nat>, chains: seq<T>, b: nat)
    requires |starts| == |counts| == |chains| && b < |starts| && Heads(list, starts, counts, chains)
    ensures counts[b] > 0 ==> starts[b] < |list| && chains[b] == list[starts[b]]
  {
  }

  lemma InsertKeepsHeads<T>(list: seq<T>, starts: seq<nat>, counts: seq<nat>, chains: seq<T>, b: nat, x: T)
    requires |starts| == |counts| == |chains| && b < |starts| && Heads(list, starts, counts, chains)
    ensures var p := InsertAt(starts, counts, b);
      p <= |list| && Heads(Inserted(list, p, x), StartsAfterInsert(starts, b, p), counts[b := counts[b] + 1], chains[b := x])
  {
  }

  /** A bucket's run is all of the bucket. */
  lemma RunIsBucket(slots: seq<nat>, starts: seq<nat>, counts: seq<nat>, b: nat, i: nat)
    requires Runs(slots, starts, counts) && b < |starts| && i < |slots|
    ensures slots[i] == b <==> starts[b] <= i < starts[b] + counts[b]
  {
  }
}
