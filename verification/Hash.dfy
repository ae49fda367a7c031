/** The symbol table: one doubly linked list in which every bucket is a contiguous run. */
module HashTables {
  import opened Bytes
  import opened Division
  import opened HashKeys
  import opened HashRuns
  import opened Lists
  import opened Memory
  import opened SqlText

  class HashElem {
    var next: HashElem?
    var prev: HashElem?
    var data: object
    var pKey: Text
    var h: nat

    constructor (pKey: Text, h: nat, data: object)
      ensures this.pKey == pKey && this.h == h && this.data == data
    {
      this.pKey, this.h, this.data := pKey, h, data;
      next, prev := null, null;
    }
  }

  datatype Bucket = Bucket(count: nat, chain: HashElem?)

  datatype Entry = Entry(key: Text, data: object)

  /** SQLITE_MALLOC_SOFT_LIMIT, and sizeof(struct _ht) with 64-bit pointers */
  const SOFT_LIMIT: nat := 1024
  const BUCKET_SIZE: nat := 16

  /** The bucket of hash h among n. */
  function Slot(h: nat, n: nat): (b: nat)
    requires n > 0
    ensures b < n
  {
    Remainder(h, n)
  }

  ghost function ElemAt(s: seq<HashElem>, i: int): HashElem? {
    if 0 <= i < |s| then s[i] else null
  }

  /** The list from first is s, in both directions. */
  ghost predicate Linked(s: seq<HashElem>, first: HashElem?)
    reads s`next, s`prev
  {
    && (forall i, j :: 0 <= i < j < |s| ==> s[i] != s[j])
    && first == ElemAt(s, 0)
    && (forall i {:trigger s[i].prev} :: 0 <= i < |s| ==> s[i].prev == ElemAt(s, i - 1))
    && (forall i {:trigger s[i].next} :: 0 <= i < |s| ==> s[i].next == ElemAt(s, i + 1))
  }

  lemma Links(s: seq<HashElem>, first: HashElem?)
    requires Linked(s, first)
    ensures forall i, j :: 0 <= i < j < |s| ==> s[i] != s[j]
    ensures first == ElemAt(s, 0)
    ensures forall i {:trigger s[i].next} :: 0 <= i < |s| ==> s[i].next == ElemAt(s, i + 1)
  {
  }

  lemma EmptyLinks()
    ensures Linked([], null)
  {
  }

  /** The buckets, among n, of the elements of a list. */
  ghost function Slots(s: seq<HashElem>, n: nat): (r: seq<nat>)
    requires n > 0
    reads s`h
    ensures |r| == |s| && forall i :: 0 <= i < |r| ==> r[i] == Slot(s[i].h, n)
  {
    if s == [] then [] else Slots(s[..|s| - 1], n) + [Slot(s[|s| - 1].h, n)]
  }

  lemma SlotsInserted(s: seq<HashElem>, n: nat, p: nat, x: HashElem)
    requires n > 0 && p <= |s|
    ensures Slots(Inserted(s, p, x), n) == Inserted(Slots(s, n), p, Slot(x.h, n))
  {
    hide Slot;
  }

  lemma SlotsRemoved(s: seq<HashElem>, n: nat, p: nat)
    requires n > 0 && p < |s|
    ensures Slots(Removed(s, p), n) == Removed(Slots(s, n), p)
  {
    hide Slot;
  }

  ghost function Counts(t: seq<Bucket>): (c: seq<nat>)
    ensures |c| == |t| && forall b :: 0 <= b < |c| ==> c[b] == t[b].count
  {
    seq(|t|, b requires 0 <= b < |t| => t[b].count)
  }

  ghost function Chains(t: seq<Bucket>): (c: seq<HashElem?>)
    ensures |c| == |t| && forall b :: 0 <= b < |c| ==> c[b] == t[b].chain
  {
    seq(|t|, b requires 0 <= b < |t| => t[b].chain)
  }

  /** Every bucket of t is the run of the list s that its chain and count say, its elements those of s
      that belong in it. */
  ghost predicate Bucketed(s: seq<HashElem>, t: seq<Bucket>, starts: seq<nat>)
    requires |t| > 0
    reads s`h
  {
    |starts| == |t| && Runs(Slots(s, |t|), starts, Counts(t)) && Heads(s, starts, Counts(t), Chains(t))
  }

  lemma FieldsUpdated(t: seq<Bucket>, b: nat, x: Bucket)
    requires b < |t|
    ensures Counts(t[b := x]) == Counts(t)[b := x.count] && Chains(t[b := x]) == Chains(t)[b := x.chain]
  {
  }

  /** Where insertElement puts x, and what it makes of the buckets. */
  lemma BucketedInsert(s: seq<HashElem>, t: seq<Bucket>, starts: seq<nat>, b: nat, x: HashElem)
    requires |t| > 0 && Bucketed(s, t, starts) && b == Slot(x.h, |t|)
    ensures |starts| == |t|
    ensures var p := InsertAt(starts, Counts(t), b);
      && p <= |s| && (t[b].count > 0 ==> p < |s| && t[b].chain == s[p]) && (t[b].count == 0 ==> p == 0)
      && Bucketed(Inserted(s, p, x), t[b := Bucket(t[b].count + 1, x)], StartsAfterInsert(starts, b, p))
  {
    hide Slot;
    hide Runs;
    InsertKeepsRuns(Slots(s, |t|), starts, Counts(t), b);
    InsertKeepsHeads(s, starts, Counts(t), Chains(t), b, x);
    SlotsInserted(s, |t|, InsertAt(starts, Counts(t), b), x);
    FieldsUpdated(t, b, Bucket(t[b].count + 1, x));
  }

  /** What removeElement makes of the buckets. */
  lemma BucketedRemove(s: seq<HashElem>, t: seq<Bucket>, starts: seq<nat>, p: nat, next: HashElem?)
    requires |t| > 0 && Bucketed(s, t, starts) && p < |s| && next == ElemAt(s, p + 1)
    requires forall i, j :: 0 <= i < j < |s| ==> s[i] != s[j]
    ensures var b := Slot(s[p].h, |t|);
      && t[b].count > 0
      && Bucketed(Removed(s, p), t[b := Bucket(t[b].count - 1, if t[b].chain == s[p] then next else t[b].chain)],
           StartsAfterRemove(starts, p))
  {
    hide Slot;
    hide Runs;
    hide Heads;
    var b := Slot(s[p].h, |t|);
    HeadOf(s, starts, Counts(t), Chains(t), b);
    RemoveKeepsRuns(Slots(s, |t|), starts, Counts(t), p);
    RemoveKeepsHeads(s, Slots(s, |t|), starts, Counts(t), Chains(t), p, next);
    SlotsRemoved(s, |t|, p);
    FieldsUpdated(t, b, Bucket(t[b].count - 1, if t[b].chain == s[p] then next else t[b].chain));
  }

  lemma EmptyBuckets(t: seq<Bucket>, starts: seq<nat>)
    requires |t| > 0 && |starts| == |t| && forall b :: 0 <= b < |t| ==> t[b].count == 0 && starts[b] == 0
    ensures Bucketed([], t, starts)
  {
  }

  lemma BucketPlace(s: seq<HashElem>, t: seq<Bucket>, starts: seq<nat>, b: nat)
    requires |t| > 0 && Bucketed(s, t, starts) && b < |t|
    ensures |starts| == |t| && starts[b] + t[b].count <= |s|
    ensures t[b].count > 0 ==> t[b].chain == s[starts[b]]
  {
  }

  /** The elements are the entries of the model. */
  ghost predicate Models(m: map<seq<byte>, Entry>, s: seq<HashElem>)
    reads s`h, s`pKey, s`data
  {
    && (forall e :: e in s ==>
      && e.h == StrHash(e.pKey) && Fold(e.pKey) in m && m[Fold(e.pKey)] == Entry(e.pKey, e.data))
    && (forall e, f :: e in s && f in s && e != f ==> Fold(e.pKey) != Fold(f.pKey))
    && (forall k :: k in m ==> exists e :: e in s && Fold(e.pKey) == k)
  }

  lemma ModelsAdd(m: map<seq<byte>, Entry>, s: seq<HashElem>, now: seq<HashElem>, x: HashElem)
    requires Models(m, s) && multiset(now) == multiset(s) + multiset{x}
    requires x.h == StrHash(x.pKey) && Fold(x.pKey) !in m
    ensures Models(m[Fold(x.pKey) := Entry(x.pKey, x.data)], now)
  {
    hide Fold;
    hide StrHash;
    BagMembers(s, now, x);
    var m' := m[Fold(x.pKey) := Entry(x.pKey, x.data)];
    forall k | k in m' ensures exists e :: e in now && Fold(e.pKey) == k {
      if k != Fold(x.pKey) {
        var e :| e in s && Fold(e.pKey) == k;
        assert e in now;
      }
    }
  }

  lemma SameKeys<K, V>(m: map<K, V>, k: K, v: V)
    requires k in m
    ensures |m[k := v]| == |m|
  {
    assert m[k := v].Keys == m.Keys;
  }

  lemma BagMembers(s: seq<HashElem>, now: seq<HashElem>, x: HashElem)
    requires multiset(now) == multiset(s) + multiset{x}
    ensures forall e :: e in now <==> e in s || e == x
    ensures forall i :: 0 <= i < |now| ==> now[i] in s || now[i] == x
  {
    forall e ensures e in now <==> e in s || e == x {
      assert e in now <==> e in multiset(now);
      assert e in s <==> e in multiset(s);
    }
  }

  lemma ModelsRemove(m: map<seq<byte>, Entry>, s: seq<HashElem>, now: seq<HashElem>, x: HashElem)
    requires Models(m, s) && x in s && multiset(now) == multiset(s) - multiset{x}
    requires forall i, j :: 0 <= i < j < |s| ==> s[i] != s[j]
    ensures Models(m - {Fold(x.pKey)}, now) && |m - {Fold(x.pKey)}| == |m| - 1
  {
    hide Fold;
    hide StrHash;
    forall e ensures e in now <==> e in s && e != x {
      assert e in now <==> e in multiset(now);
      assert e in s <==> e in multiset(s);
      NoRepeats(s, e);
    }
    var m' := m - {Fold(x.pKey)};
    assert m'.Keys == m.Keys - {Fold(x.pKey)};
    forall k | k in m' ensures exists e :: e in now && Fold(e.pKey) == k {
      var e :| e in s && Fold(e.pKey) == k;
      assert e in now;
    }
  }

  lemma {:induction false} NoRepeats<T>(s: seq<T>, e: T)
    requires forall i, j :: 0 <= i < j < |s| ==> s[i] != s[j]
    ensures multiset(s)[e] <= 1
  {
    if s != [] {
      var n := |s| - 1;
      assert s == s[..n] + [s[n]];
      NoRepeats(s[..n], e);
      if e == s[n] {
        assert e !in s[..n];
        assert e !in multiset(s[..n]);
      }
    }
  }

  class Hash {
    var htsize: nat
    var count: nat
    var first: HashElem?
    var ht: array?<Bucket>

    /** the list, where each bucket starts in it, and what the table maps folded keys to */
    ghost var elems: seq<HashElem>
    ghost var starts: seq<nat>
    ghost var model: map<seq<byte>, Entry>

    /** The list is well linked, and every bucket is the run of it that its chain and count say. */
    ghost predicate Chained()
      reads this`first, this`ht, this`htsize, this`elems, this`starts, elems`next, elems`prev, elems`h, ht
    {
      && Linked(elems, first)
      && (ht == null ==> htsize == 0)
      && (ht != null ==> htsize == ht.Length > 0 && Bucketed(elems, ht[..], starts))
    }

    ghost predicate Valid()
      reads this, elems, ht
    {
      Chained() && count == |elems| == |model| && Models(model, elems)
    }

    ghost function Repr(): set<object>
      reads this
    {
      (set e: object | e in elems) + {this} + if ht == null then {} else {ht}
    }

    /** sqlite3HashInit */
    constructor ()
      ensures Valid() && model == map[] && fresh(Repr())
    {
      first, count, htsize, ht := null, 0, 0, null;
      elems, starts, model := [], [], map[];
    }

    /** insertElement; pEntry is a bucket, or -1 when there is no table */
    method InsertElement(pEntry: int, pNew: HashElem) returns (ghost p: nat)
      requires Chained() && pNew !in elems
      requires if ht == null then pEntry == -1 else pEntry == Slot(pNew.h, htsize)
      modifies this`first, this`elems, this`starts, ht, elems`next, elems`prev, pNew`next, pNew`prev
      ensures Chained()
      ensures p <= |old(elems)| && elems == Inserted(old(elems), p, pNew)
    {
      hide Bucketed;
      hide Slot;
      var pHead: HashElem? := null;
      p := 0;
      ghost var was := elems;
      if pEntry >= 0 {
        BucketedInsert(elems, ht[..], starts, pEntry, pNew);
        p := InsertAt(starts, Counts(ht[..]), pEntry);
        pHead := if ht[pEntry].count > 0 then ht[pEntry].chain else null;
        ht[pEntry] := Bucket(ht[pEntry].count + 1, pNew);
        starts := StartsAfterInsert(starts, pEntry, p);
      }
      elems := Inserted(elems, p, pNew);
      if pHead != null {
        LinkBefore(was, p, pHead, pNew);
      } else {
        LinkFront(was, pNew);
      }
    }

    /** insertElement into a bucket that has a head: splice pNew in before it. */
    method LinkBefore(ghost was: seq<HashElem>, ghost p: nat, pHead: HashElem, pNew: HashElem)
      requires Linked(was, first) && p < |was| && pNew !in was && pHead == was[p]
      modifies this`first, was`next, was`prev, pNew`next, pNew`prev
      ensures Linked(Inserted(was, p, pNew), first)
    {
      pNew.next := pHead;
      pNew.prev := pHead.prev;
      if pHead.prev != null {
        pHead.prev.next := pNew;
      } else {
        first := pNew;
      }
      pHead.prev := pNew;
    }

    /** insertElement in front of the list. */
    method LinkFront(ghost was: seq<HashElem>, pNew: HashElem)
      requires Linked(was, first) && pNew !in was
      modifies this`first, was`next, was`prev, pNew`next, pNew`prev
      ensures Linked(Inserted(was, 0, pNew), first)
    {
      pNew.next := first;
      if first != null {
        first.prev := pNew;
      }
      pNew.prev := null;
      first := pNew;
    }

    /** rehash: a table of newSize buckets, or as many as the soft limit allows, unless there is no memory
        for it or there are as many already. */
    method Rehash(newSize: nat, mem: Heap) returns (done: bool)
      requires Chained() && newSize > 0
      modifies this`ht, this`htsize, this`first, this`elems, this`starts, elems`next, elems`prev, mem
      ensures mem.refusals >= old(mem.refusals)
      ensures done <==> old(htsize) != (if newSize > 64 then 64 else newSize) && mem.refusals == old(mem.refusals)
      ensures Chained() && multiset(elems) == multiset(old(elems)) && |elems| == |old(elems)|
      ensures !done ==> elems == old(elems) && ht == old(ht) && htsize == old(htsize)
      ensures done ==> ht != null && fresh(ht)
      ensures done ==> htsize >= if newSize * BUCKET_SIZE > SOFT_LIMIT then SOFT_LIMIT / BUCKET_SIZE else newSize
    {
      hide Bucketed;
      hide Slot;
      var size := if newSize * BUCKET_SIZE > SOFT_LIMIT then SOFT_LIMIT / BUCKET_SIZE else newSize;
      if size == htsize {
        return false;
      }
      var ok := mem.Malloc();
      if !ok {
        return false;
      }
      var actual: nat :| actual >= size;
      ht := new Bucket[actual](_ => Bucket(0, null));
      htsize := actual;
      Redistribute();
      done := true;
    }

    /** rehash's loop: move every element of the old list into the empty buckets. */
    method Redistribute()
      requires Linked(elems, first) && ht != null && htsize == ht.Length > 0
      requires forall b :: 0 <= b < htsize ==> ht[b].count == 0
      modifies this`first, this`elems, this`starts, ht, elems`next, elems`prev
      ensures Chained() && multiset(elems) == multiset(old(elems)) && |elems| == |old(elems)|
    {
      hide Bucketed;
      hide Slot;
      hide Linked;
      ghost var was := elems;
      var elem := first;
      Links(elems, first);
      EmptyLinks();
      first := null;
      elems, starts := [], seq(htsize, _ => 0);
      EmptyBuckets(ht[..], starts);
      ghost var k := 0;
      while elem != null
        invariant 0 <= k <= |was| && elem == ElemAt(was, k)
        invariant Chained()
        invariant multiset(elems) == multiset(was[..k]) && |elems| == k
        invariant forall i {:trigger was[i].next} :: k <= i < |was| ==> was[i].next == ElemAt(was, i + 1)
        decreases |was| - k
      {
        elem := MoveElement(was, k, elem);
        k := k + 1;
      }
      assert was[..k] == was;
    }

    /** One turn of rehash's loop: element k of the old list. */
    method MoveElement(ghost was: seq<HashElem>, ghost k: nat, elem: HashElem) returns (nextElem: HashElem?)
      requires Chained() && ht != null && k < |was| && elem == was[k] && |elems| == k
      requires multiset(elems) == multiset(was[..k])
      requires forall i, j :: 0 <= i < j < |was| ==> was[i] != was[j]
      requires elem.next == ElemAt(was, k + 1)
      modifies this`first, this`elems, this`starts, ht, was[..k]`next, was[..k]`prev, elem`next, elem`prev
      ensures Chained() && nextElem == ElemAt(was, k + 1) && |elems| == k + 1
      ensures multiset(elems) == multiset(was[..k + 1])
    {
      hide Chained;
      HasTable();
      nextElem := elem.next;
      MovedBag(was, elems, k);
      ghost var before := elems;
      ghost var p := InsertElement(Slot(elem.h, htsize), elem);
      InsertedBag(before, p, elem);
    }

    /** findElementWithHash, with null for the element that stands for no match */
    method FindElementWithHash(pKey: Text) returns (elem: HashElem?, h: nat)
      requires Valid()
      ensures h == StrHash(pKey)
      ensures elem != null ==> elem in elems && Fold(elem.pKey) == Fold(pKey)
      ensures elem == null ==> Fold(pKey) !in model
    {
      hide Fold;
      hide StrHash;
      hide Bucketed;
      hide Slot;
      hide Models;
      h := ComputeHash(pKey);
      var n: nat;
      ghost var lo: nat := 0;
      if ht != null {
        var b := Slot(h, htsize);
        elem, n := ht[b].chain, ht[b].count;
        BucketPlace(elems, ht[..], starts, b);
        lo := starts[b];
      } else {
        elem, n := first, count;
      }
      NotMissed(pKey, h, lo, lo + n);
      elem := Search(elems, lo, elem, n, pKey, h);
    }

    /** The loop of findElementWithHash: n elements of the list, from the one at position lo. */
    method Search(ghost list: seq<HashElem>, ghost lo: nat, elem0: HashElem?, n0: nat, pKey: Text, h: nat)
        returns (elem: HashElem?)
      requires lo + n0 <= |list| && (n0 > 0 ==> elem0 == list[lo]) && h == StrHash(pKey)
      requires forall i {:trigger list[i].next} :: 0 <= i < |list| ==> list[i].next == ElemAt(list, i + 1)
      requires forall e :: e in list ==> e.h == StrHash(e.pKey)
      ensures elem != null ==> elem in list && Fold(elem.pKey) == Fold(pKey)
      ensures elem == null ==> forall i :: lo <= i < lo + n0 ==> Fold(list[i].pKey) != Fold(pKey)
    {
      hide Fold;
      hide StrHash;
      elem := elem0;
      var n := n0;
      ghost var k := lo;
      while n > 0
        invariant lo <= k && k + n == lo + n0 && (n > 0 ==> elem == list[k])
        invariant forall i :: lo <= i < k ==> Fold(list[i].pKey) != Fold(pKey)
      {
        if h == elem.h {
          var c := StrICmp(elem.pKey, pKey);
          if c == 0 {
            return;
          }
        } else if Fold(elem.pKey) == Fold(pKey) {
          FoldedHash(elem.pKey, pKey);
          assert false;
        }
        elem := elem.next;
        n, k := n - 1, k + 1;
      }
      elem := null;
    }

    /** An element whose key matches is in the part of the list that is searched. */
    lemma NotMissed(pKey: Text, h: nat, lo: nat, hi: nat)
      requires Valid() && h == StrHash(pKey) && lo <= hi <= |elems|
      requires if ht == null then lo == 0 && hi == count
        else |starts| == htsize && lo == starts[Slot(h, htsize)] && hi == lo + ht[Slot(h, htsize)].count
      ensures forall e :: e in elems ==> e.h == StrHash(e.pKey)
      ensures Fold(pKey) in model ==> exists i :: lo <= i < hi && Fold(elems[i].pKey) == Fold(pKey)
      ensures forall e :: e in elems && Fold(e.pKey) == Fold(pKey) ==> Fold(pKey) in model
    {
      hide Fold;
      hide StrHash;
      hide Linked;
      hide Slot;
      hide Heads;
      if Fold(pKey) in model {
        var e :| e in elems && Fold(e.pKey) == Fold(pKey);
        var i :| 0 <= i < |elems| && elems[i] == e;
        FoldedHash(e.pKey, pKey);
      }
    }

    /** sqlite3HashClear; freeing an element is passing over it. */
    method Clear()
      requires Linked(elems, first)
      modifies this
      ensures Valid() && model == map[] && elems == [] && ht == null
    {
      var elem := first;
      first, ht, htsize := null, null, 0;
      ghost var k := 0;
      while elem != null
        invariant 0 <= k <= |elems| && elem == ElemAt(elems, k)
        invariant elems == old(elems) && first == null && ht == null && htsize == 0
        decreases |elems| - k
      {
        elem := elem.next;
        k := k + 1;
      }
      count, elems, model := 0, [], map[];
    }

    /** removeElement: the list and the buckets are as if elem had never been there; without any
        element left the table is cleared. */
    method RemoveElement(elem: HashElem)
      requires Chained() && elem in elems && count == |elems|
      modifies this, ht, elems`next, elems`prev
      ensures Chained() && count == |elems|
      ensures multiset(elems) == multiset(old(elems)) - multiset{elem} && |elems| == |old(elems)| - 1
      ensures forall i :: 0 <= i < |elems| ==> elems[i] in old(elems)
      ensures model == if |old(elems)| == 1 then map[] else old(model)
      ensures ht == null || ht == old(ht)
    {
      hide Chained;
      ghost var p: nat :| p < |elems| && elems[p] == elem;
      RemovedBag(elems, p);
      Detach(elem, p);
      if count == 0 {
        ListOf();
        Clear();
      }
    }

    lemma HasTable()
      requires Chained()
      ensures if ht == null then htsize == 0 else htsize == ht.Length > 0
    {
    }

    lemma EntryOf(elem: HashElem)
      requires Valid() && elem in elems
      ensures Fold(elem.pKey) in model && model[Fold(elem.pKey)] == Entry(elem.pKey, elem.data)
      ensures forall i, j :: 0 <= i < j < |elems| ==> elems[i] != elems[j]
      ensures elem.h == StrHash(elem.pKey)
    {
    }

    lemma Owned()
      ensures this in Repr() && (ht != null ==> ht in Repr()) && forall e :: e in elems ==> e in Repr()
    {
    }

    lemma HeapApart(mem: Heap)
      ensures mem !in Repr()
    {
    }

    lemma ListOf()
      requires Chained()
      ensures Linked(elems, first)
    {
    }

    /** removeElement up to freeing the element at position p. */
    method Detach(elem: HashElem, ghost p: nat)
      requires Chained() && p < |elems| && elems[p] == elem && count == |elems|
      modifies this`first, this`elems, this`starts, this`count, ht, elems`next, elems`prev
      ensures Chained() && count == |elems| && elems == Removed(old(elems), p)
    {
      hide Bucketed;
      hide Slot;
      hide Linked;
      Links(elems, first);
      Unlink(elems, p, elem);
      if ht != null {
        TakeFromBucket(elem, p);
      }
      elems := Removed(elems, p);
      count := count - 1;
    }

    /** removeElement's part in the bucket of the element at position p. */
    method TakeFromBucket(elem: HashElem, ghost p: nat)
      requires ht != null && htsize == ht.Length > 0 && Bucketed(elems, ht[..], starts)
      requires p < |elems| && elem == elems[p] && elem.next == ElemAt(elems, p + 1)
      requires forall i, j :: 0 <= i < j < |elems| ==> elems[i] != elems[j]
      modifies ht, this`starts
      ensures Bucketed(Removed(elems, p), ht[..], starts)
    {
      hide Bucketed;
      hide Slot;
      BucketedRemove(elems, ht[..], starts, p, elem.next);
      var b := Slot(elem.h, htsize);
      var chain := if ht[b].chain == elem then elem.next else ht[b].chain;
      ht[b] := Bucket(ht[b].count - 1, chain);
      starts := StartsAfterRemove(starts, p);
    }

    method Unlink(ghost was: seq<HashElem>, ghost p: nat, elem: HashElem)
      requires Linked(was, first) && p < |was| && was[p] == elem
      modifies this`first, was`next, was`prev
      ensures Linked(Removed(was, p), first) && elem.next == ElemAt(was, p + 1)
    {
      if elem.prev != null {
        elem.prev.next := elem.next;
      } else {
        first := elem.next;
      }
      if elem.next != null {
        elem.next.prev := elem.prev;
      }
    }

    /** sqlite3HashFind */
    method Find(pKey: Text) returns (data: object?)
      requires Valid()
      ensures data == if Fold(pKey) in model then model[Fold(pKey)].data else null
    {
      var elem, h := FindElementWithHash(pKey);
      data := if elem == null then null else elem.data;
    }

    /** sqlite3HashInsert: the data that pKey had, or null; null data deletes.  When there is no memory
        for a new element the data itself comes back and nothing has changed. */
    method Insert(pKey: Text, data: object?, mem: Heap) returns (r: object?)
      requires Valid()
      modifies Repr(), mem
      ensures mem.refusals >= old(mem.refusals)
      ensures Valid() && fresh(Repr() - old(Repr()))
      ensures var k, m := Fold(pKey), old(model);
        if k in m then r == m[k].data && model == if data == null then m - {k} else m[k := Entry(pKey, data)]
        else if data == null then r == null && model == m
        else
          || (r == null && model == m[k := Entry(pKey, data)])
          || (r == data && model == m && mem.refusals == old(mem.refusals) + 1)
    {
      hide Chained;
      hide Models;
      hide Fold;
      hide StrHash;
      hide Slot;
      hide Repr;
      hide Runs;
      Owned();
      HeapApart(mem);
      var elem, h := FindElementWithHash(pKey);
      if elem != null {
        EntryOf(elem);
        r := elem.data;
        if data == null {
          Delete(elem);
          ReprKept();
        } else {
          Replace(elem, pKey, data);
        }
        return;
      }
      if data == null {
        return null;
      }
      var ok := mem.Malloc();
      if !ok {
        return data;
      }
      Add(pKey, h, data, mem);
      ReprKept();
      r := null;
    }

    method Delete(elem: HashElem)
      requires Valid() && elem in elems
      modifies Repr()
      ensures Valid() && model == old(model) - {old(Fold(elem.pKey))}
      ensures forall i :: 0 <= i < |elems| ==> elems[i] in old(elems)
      ensures ht == null || ht == old(ht)
    {
      hide Chained;
      hide Models;
      hide Fold;
      hide StrHash;
      hide Slot;
      hide Repr;
      Owned();
      EntryOf(elem);
      ghost var m, s := model, elems;
      RemoveElement(elem);
      ModelsRemove(m, s, elems, elem);
      model := m - {Fold(elem.pKey)};
    }

    method Replace(elem: HashElem, pKey: Text, data: object)
      requires Valid() && elem in elems && Fold(elem.pKey) == Fold(pKey)
      modifies elem, this
      ensures Valid() && Repr() == old(Repr()) && model == old(model)[Fold(pKey) := Entry(pKey, data)]
    {
      hide Chained;
      hide Fold;
      hide StrHash;
      hide Models;
      hide Slot;
      EntryOf(elem);
      FoldedHash(elem.pKey, pKey);
      SameKeys(model, Fold(pKey), Entry(pKey, data));
      ghost var others := Without(elem);
      ghost var m := model - {Fold(pKey)};
      elem.data := data;
      elem.pKey := pKey;
      ModelsAdd(m, others, elems, elem);
      assert m[Fold(pKey) := Entry(pKey, data)] == model[Fold(pKey) := Entry(pKey, data)];
      model := model[Fold(pKey) := Entry(pKey, data)];
    }

    /** The list without one element, as a model of the table without its key. */
    lemma Without(elem: HashElem) returns (others: seq<HashElem>)
      requires Valid() && elem in elems
      ensures Models(model - {Fold(elem.pKey)}, others) && elem !in others && elem.h == StrHash(elem.pKey)
      ensures multiset(elems) == multiset(others) + multiset{elem}
    {
      hide Chained;
      hide Models;
      hide Fold;
      hide StrHash;
      hide Removed;
      EntryOf(elem);
      var p: nat :| p < |elems| && elems[p] == elem;
      others := Removed(elems, p);
      RemovedBag(elems, p);
      ModelsRemove(model, elems, others, elem);
      NoRepeats(elems, elem);
      assert elem !in multiset(others);
    }

    method Add(pKey: Text, h: nat, data: object, mem: Heap)
      requires Valid() && Fold(pKey) !in model && h == StrHash(pKey)
      modifies Repr(), mem
      ensures mem.refusals >= old(mem.refusals)
      ensures Valid() && model == old(model)[Fold(pKey) := Entry(pKey, data)]
      ensures forall i :: 0 <= i < |elems| ==> elems[i] in old(elems) || fresh(elems[i])
      ensures ht == null || ht == old(ht) || fresh(ht)
    {
      hide Chained;
      hide Models;
      hide Fold;
      hide StrHash;
      hide Slot;
      hide Inserted;
      var newElem := new HashElem(pKey, h, data);
      ghost var s := elems;
      Grow(mem);
      LinkIn(newElem);
      ModelsAdd(model, s, elems, newElem);
      model := model[Fold(pKey) := Entry(pKey, data)];
    }

    /** The call of insertElement that ends sqlite3HashInsert. */
    method LinkIn(newElem: HashElem)
      requires Chained() && newElem !in elems
      modifies this`first, this`elems, this`starts, ht, elems`next, elems`prev, newElem`next, newElem`prev
      ensures Chained() && |elems| == |old(elems)| + 1
      ensures multiset(elems) == multiset(old(elems)) + multiset{newElem}
      ensures forall i :: 0 <= i < |elems| ==> elems[i] in old(elems) || elems[i] == newElem
    {
      hide Chained;
      hide Slot;
      hide Inserted;
      HasTable();
      ghost var t := elems;
      ghost var p := InsertElement(if ht != null then Slot(newElem.h, htsize) else -1, newElem);
      InsertedBag(t, p, newElem);
      InsertedMembers(t, p, newElem);
    }

    /** Count one element more, and rehash when there are more than two for each bucket. */
    method Grow(mem: Heap)
      requires Chained()
      modifies this`count, this`ht, this`htsize, this`first, this`elems, this`starts, elems`next, elems`prev, mem
      ensures mem.refusals >= old(mem.refusals)
      ensures count >= 5 && count > 2 * old(htsize) && mem.refusals == old(mem.refusals) ==>
        htsize >= if 3 * count > 64 then 64 else 3 * count
      ensures Chained() && count == old(count) + 1
      ensures multiset(elems) == multiset(old(elems)) && |elems| == |old(elems)|
      ensures forall i :: 0 <= i < |elems| ==> elems[i] in old(elems)
      ensures ht == old(ht) || fresh(ht)
      ensures count < 5 || count <= 2 * old(htsize) ==> ht == old(ht) && elems == old(elems)
    {
      hide Chained;
      count := count + 1;
      if count >= 5 && count > 2 * htsize {
        ghost var s := elems;
        var done := Rehash(count * 3, mem);
        BagWithin(s, elems);
      }
    }

    twostate lemma ReprKept()
      requires forall i :: 0 <= i < |elems| ==> elems[i] in old(elems) || fresh(elems[i])
      requires ht == null || ht == old(ht) || fresh(ht)
      ensures fresh(Repr() - old(Repr()))
    {
    }
  }

  lemma BagWithin(was: seq<HashElem>, now: seq<HashElem>)
    requires multiset(now) == multiset(was)
    ensures forall i :: 0 <= i < |now| ==> now[i] in was
  {
    forall i | 0 <= i < |now| ensures now[i] in was {
      assert now[i] in multiset(now);
      assert now[i] in multiset(was);
    }
  }

  lemma MovedBag(was: seq<HashElem>, now: seq<HashElem>, k: nat)
    requires k < |was| && multiset(now) == multiset(was[..k])
    requires forall i, j :: 0 <= i < j < |was| ==> was[i] != was[j]
    ensures multiset(was[..k + 1]) == multiset(now) + multiset{was[k]}
    ensures was[k] !in now
    ensures forall i :: 0 <= i < |now| ==> now[i] in was[..k]
  {
    assert was[..k + 1] == was[..k] + [was[k]];
    forall i | 0 <= i < |now| ensures now[i] in was[..k] {
      assert now[i] in multiset(now);
      assert now[i] in multiset(was[..k]);
    }
  }
}
