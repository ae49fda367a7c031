/** The Bitvec object: a set of numbers 1..iSize held as a bitmap, as an open-addressed table, or
    divided among smaller Bitvecs.  The three members of the union u are three arrays here, of
    which iSize and iDivisor say which one is live. */
module Bitvecs {
  import opened Division
  import opened Memory
  import opened ProbeTable
  import opened BitvecLayout

  /** Value v falls in part (v-1)/d, as (v-1)%d+1. */
  ghost predicate InParts(parts: seq<set<nat>>, d: nat, size: nat, v: nat)
    requires d > 0
  {
    1 <= v <= size && Quotient(v - 1, d) < |parts| && Remainder(v - 1, d) + 1 in parts[Quotient(v - 1, d)]
  }

  ghost predicate IsUnion(s: set<nat>, parts: seq<set<nat>>, d: nat, size: nat) {
    d > 0 && forall v: nat :: v in s <==> InParts(parts, d, size, v)
  }

  /** A change of one part by at most one value changes the whole by at most that value. */
  lemma PartGrows(s: set<nat>, parts: seq<set<nat>>, d: nat, size: nat, i: nat, part: set<nat>) returns (s': set<nat>)
    requires IsUnion(s, parts, d, size) && 1 <= i <= size && Quotient(i - 1, d) < |parts|
    requires part <= parts[Quotient(i - 1, d)] + {Remainder(i - 1, d) + 1}
    ensures IsUnion(s', parts[Quotient(i - 1, d) := part], d, size)
    ensures s' <= s + {i}
    ensures part == parts[Quotient(i - 1, d)] + {Remainder(i - 1, d) + 1} ==> s' == s + {i}
  {
    hide Quotient;
    hide Remainder;
    var bin := Quotient(i - 1, d);
    var parts' := parts[bin := part];
    s' := set v | v in s + {i} && InParts(parts', d, size, v);
    forall v: nat
      ensures InParts(parts', d, size, v) ==> v in s + {i}
      ensures part == parts[bin] + {Remainder(i - 1, d) + 1} && v in s + {i} ==> InParts(parts', d, size, v)
    {
      if 1 <= v && Quotient(v - 1, d) == bin && Remainder(v - 1, d) == Remainder(i - 1, d) {
        SamePlace(v - 1, i - 1, d);
      }
      assert v in s <==> InParts(parts, d, size, v);
    }
  }

  /** How many values are lost between two contents of a set, vs having been added. */
  ghost function Lost(was: set<nat>, vs: set<nat>, now: set<nat>): nat {
    |was + vs - now|
  }

  lemma UnionOf(s: set<nat>, parts: seq<set<nat>>, d: nat, size: nat, v: nat)
    requires IsUnion(s, parts, d, size)
    ensures d > 0
    ensures v in s <==> InParts(parts, d, size, v)
  {
  }

  /** A part loses as many values as the whole. */
  lemma LostInPart(s: set<nat>, s': set<nat>, parts: seq<set<nat>>, d: nat, size: nat, i: nat, part: set<nat>)
    requires IsUnion(s, parts, d, size) && 1 <= i <= size && Quotient(i - 1, d) < |parts|
    requires IsUnion(s', parts[Quotient(i - 1, d) := part], d, size)
    ensures Lost(s, {i}, s') <= Lost(parts[Quotient(i - 1, d)], {Remainder(i - 1, d) + 1}, part)
  {
    hide Quotient;
    hide Remainder;
    hide IsUnion;
    assert d > 0 by {
      UnionOf(s, parts, d, size, 0);
    }
    var bin := Quotient(i - 1, d);
    var (lost, lostPart) := (s + {i} - s', parts[bin] + {Remainder(i - 1, d) + 1} - part);
    forall v: nat | v in lost
      ensures v >= 1 && Quotient(v - 1, d) == bin && Remainder(v - 1, d) + 1 in lostPart
    {
      UnionOf(s, parts, d, size, v);
      UnionOf(s', parts[bin := part], d, size, v);
      if v != i && Quotient(v - 1, d) == bin && Remainder(v - 1, d) == Remainder(i - 1, d) {
        SamePlace(v - 1, i - 1, d);
      }
    }
    PlacesAreMany(lost, d, bin, lostPart);
  }

  /** Values of one part have different places in it. */
  lemma {:induction false} PlacesAreMany(s: set<nat>, d: nat, bin: nat, places: set<nat>)
    requires d > 0 && forall v: nat :: v in s ==> v >= 1 && Quotient(v - 1, d) == bin && Remainder(v - 1, d) + 1 in places
    ensures |s| <= |places|
  {
    hide Quotient;
    hide Remainder;
    if s != {} {
      var v: nat :| v in s;
      var place := Remainder(v - 1, d) + 1;
      forall w: nat | w in s - {v}
        ensures Remainder(w - 1, d) + 1 in places - {place}
      {
        if Remainder(w - 1, d) == Remainder(v - 1, d) {
          SamePlace(w - 1, v - 1, d);
        }
      }
      PlacesAreMany(s - {v}, d, bin, places - {place});
    }
  }

  /** What is lost in two steps is lost in one of them. */
  lemma LostInSteps(was: set<nat>, mid: set<nat>, now: set<nat>, vs: set<nat>, ws: set<nat>)
    ensures Lost(was, vs + ws, now) <= Lost(was, vs, mid) + Lost(mid, ws, now)
  {
    var (all, first, second) := (was + (vs + ws) - now, was + vs - mid, mid + ws - now);
    CardUnion(first, second);
    CardWithin(all, first + second);
  }

  lemma NoneLost(was: set<nat>, i: nat)
    ensures Lost(was, {i}, was + {i}) == 0 && Lost(was, {i}, was) <= 1 && (i in was ==> Lost(was, {i}, was) == 0)
    ensures Lost(was, {}, was) == 0
  {
    assert was + {i} - (was + {i}) == {} && was + {} - was == {};
    assert i in was ==> was + {i} - was == {};
    CardWithin(was + {i} - was, {i});
  }

  /** Values set anew in an emptied bitmap, i among them first. */
  lemma LostInDivision(was: set<nat>, i: nat, mid: set<nat>, now: set<nat>)
    ensures Lost(was, {i}, now) <= Lost({}, {i}, mid) + Lost(mid, was, now)
  {
    LostInSteps({}, mid, now, {i}, was);
    assert {} + ({i} + was) == was + {i};
  }

  lemma CardUnion(a: set<nat>, b: set<nat>)
    ensures |a + b| <= |a| + |b|
  {
    assert a + b == a + (b - a);
    CardWithin(b - a, b);
  }

  lemma {:induction false} CardWithin(a: set<nat>, b: set<nat>)
    requires a <= b
    ensures |a| <= |b|
  {
    if a != {} {
      var v :| v in a;
      CardWithin(a - {v}, b - {v});
    }
  }

  lemma PartLoses(s: set<nat>, parts: seq<set<nat>>, d: nat, size: nat, i: nat, part: set<nat>)
    requires IsUnion(s, parts, d, size) && 1 <= i <= size && Quotient(i - 1, d) < |parts|
    requires part == parts[Quotient(i - 1, d)] - {Remainder(i - 1, d) + 1}
    ensures IsUnion(s - {i}, parts[Quotient(i - 1, d) := part], d, size)
  {
    hide Quotient;
    hide Remainder;
    var parts' := parts[Quotient(i - 1, d) := part];
    forall v: nat
      ensures v in s - {i} <==> InParts(parts', d, size, v)
    {
      if 1 <= v && Quotient(v - 1, d) == Quotient(i - 1, d) && Remainder(v - 1, d) == Remainder(i - 1, d) {
        SamePlace(v - 1, i - 1, d);
      }
      assert v in s <==> InParts(parts, d, size, v);
    }
  }

  class Bitvec {
    const c: Layout
    const iSize: nat
    var nSet: nat
    var iDivisor: nat
    const aBitmap: array<bv8>
    const aHash: array<nat>
    const apSub: array<Bitvec?>

    ghost var Contents: set<nat>
    ghost var Parts: seq<set<nat>>
    ghost var Repr: set<object>

    ghost predicate Own()
      reads this
    {
      && this in Repr && aBitmap in Repr && aHash in Repr && apSub in Repr
      && aBitmap as object != aHash && aBitmap as object != apSub && aHash as object != apSub
      && iSize < 0x1_0000_0000 && c.Ok() && aBitmap.Length == c.nElem && aHash.Length == c.nInt && apSub.Length == c.nPtr
      && (iSize <= c.NBit() ==> iDivisor == 0)
    }

    /** iSize<=BITVEC_NBIT: value v is bit v-1. */
    ghost predicate Flat()
      reads this, aBitmap
      requires iSize <= 8 * aBitmap.Length
    {
      forall v :: v in Contents <==> 1 <= v <= iSize && TestBit(aBitmap[..], v - 1)
    }

    /** iDivisor==0: the values are the entries of the table, and a slot is free. */
    ghost predicate Hashed()
      reads this, aHash
    {
      && TableOk(aHash[..]) && Contents == Elements(aHash[..])
      && nSet == |Contents| < aHash.Length
      && forall v :: v in Contents ==> v <= iSize
    }

    /** Otherwise the values are divided among smaller Bitvecs, sub-bitmap k holding Parts[k]; but
        says which sub-bitmap is excepted, if any. */
    ghost predicate Subs(but: int)
      reads this, apSub, Repr
      decreases iSize, 0
    {
      && |Parts| == apSub.Length
      && forall k :: 0 <= k < apSub.Length && k != but ==>
           if apSub[k] == null then Parts[k] == {}
           else
             && apSub[k] in Repr && apSub[k].Repr <= Repr - {this, aBitmap, aHash, apSub}
             && apSub[k].c == c && apSub[k].iSize == iDivisor < iSize
             && apSub[k].Valid() && Parts[k] == apSub[k].Contents
    }

    ghost predicate Apart()
      reads this, apSub, apSub[..]
    {
      forall k, l :: 0 <= k < l < apSub.Length && apSub[k] != null && apSub[l] != null ==> apSub[k].Repr !! apSub[l].Repr
    }

    ghost predicate Sizes()
      reads this
    {
      c.Ok() && iSize > c.NBit() && iDivisor == c.DivisorOf(iSize) && 0 < iDivisor < iSize
    }

    ghost predicate Valid()
      reads this, Repr
      ensures Valid() ==> this in Repr
      decreases iSize, 1
    {
      && Own()
      && if iSize <= c.NBit() then Flat()
         else if iDivisor == 0 then Hashed()
         else Sizes() && Subs(-1) && Apart() && IsUnion(Contents, Parts, iDivisor, iSize)
    }

    /** sqlite3BitvecCreate, the allocation having succeeded */
    constructor (c: Layout, iSize: nat)
      requires c.Ok() && iSize < 0x1_0000_0000
      ensures Valid() && fresh(Repr) && this.c == c && this.iSize == iSize && iDivisor == 0 && Contents == {}
    {
      this.c, this.iSize, nSet, iDivisor := c, iSize, 0, 0;
      aBitmap := new bv8[c.nElem](_ => 0);
      aHash := new nat[c.nInt](_ => 0);
      apSub := new Bitvec?[c.nPtr](_ => null);
      Contents, Parts := {}, [];
      new;
      Repr := {this, aBitmap, aHash, apSub};
      EmptyTable(aHash[..]);
    }

    /** sqlite3BitvecCreate: null if the allocation fails. */
    static method Create(c: Layout, iSize: nat, mem: Heap) returns (p: Bitvec?)
      requires c.Ok() && iSize < 0x1_0000_0000
      modifies mem
      ensures mem.refusals == old(mem.refusals) + if p == null then 1 else 0
      ensures p != null ==> p.Valid() && fresh(p.Repr) && p.c == c && p.iSize == iSize && p.iDivisor == 0 && p.Contents == {}
    {
      var ok := mem.Malloc();
      if ok {
        p := new Bitvec(c, iSize);
      } else {
        p := null;
      }
    }

    /** The sub-bitmap that zero-based number j falls in exists. */
    lemma BinFits(j: nat)
      requires c.Ok() && apSub.Length == c.nPtr && iSize > c.NBit() && iDivisor == c.DivisorOf(iSize) && j < iSize
      ensures iDivisor > 0 && Quotient(j, iDivisor) < apSub.Length
    {
      DivisorFits(c, iSize);
      QuotientBelow(j, iDivisor, c.nPtr);
    }

    /** Zero-based number j is found in its sub-bitmap or nowhere. */
    lemma Descend(j: nat)
      requires Valid() && iDivisor != 0 && j < iSize
      ensures Quotient(j, iDivisor) < apSub.Length && 0 <= Remainder(j, iDivisor) < iDivisor < iSize
      ensures var s := apSub[Quotient(j, iDivisor)];
        && (s != null ==> s.Valid() && s.iSize == iDivisor)
        && (j + 1 in Contents <==> s != null && Remainder(j, iDivisor) + 1 in s.Contents)
    {
      hide Valid;
      hide Own;
      Opened();
      BinFits(j);
      assert j + 1 in Contents <==> InParts(Parts, iDivisor, iSize, j + 1);
    }

    /** Probe the live table for value v. */
    method Probe(v: nat) returns (h: nat)
      requires Own() && Hashed() && v > 0
      ensures h < aHash.Length && Probed(aHash[..], v, h) && (aHash[h] == 0 || aHash[h] == v)
      ensures aHash[h] == v <==> v in Contents
    {
      ghost var t := aHash[..];
      FewLeaveHole(t);
      hide Reachable;
      hide Distinct;
      ghost var e :| 0 <= e < |t| && t[e] == 0;
      h := Home(v, aHash.Length);
      while aHash[h] != 0
        invariant h < aHash.Length && Probed(t, v, h)
        decreases Distance(h, e, |t|)
      {
        if aHash[h] == v {
          assert t[h] == v;
          return;
        }
        ProbeStep(t, v, h);
        h := Next(h, aHash.Length);
      }
      HoleMeansAbsent(t, v, h);
    }

    /** sqlite3BitvecTestNotNull; i is a 32-bit unsigned number, and 0 wraps round to out of range. */
    method Test(i: nat) returns (found: bool)
      requires Valid() && i < 0x1_0000_0000
      ensures found <==> i in Contents
    {
      hide Subs;
      hide Apart;
      hide Hashed;
      var j: nat := if i == 0 then 0xFFFF_FFFF else i - 1;
      if j >= iSize {
        RangeOnly(i);
        return false;
      }
      var p: Bitvec := this;
      while p.iDivisor != 0
        invariant p.Valid() && j < p.iSize
        invariant i in Contents <==> j + 1 in p.Contents
        decreases p.iSize
      {
        p.Descend(j);
        var (bin, k) := (Quotient(j, p.iDivisor), Remainder(j, p.iDivisor));
        var s := p.apSub[bin];
        if s == null {
          return false;
        }
        p, j := s, k;
      }
      if p.iSize <= p.c.NBit() {
        return TestBit(p.aBitmap[..], j);
      }
      var h := p.Probe(j + 1);
      return p.aHash[h] == j + 1;
    }

    lemma RangeOnly(v: nat)
      requires Valid() && (v == 0 || v > iSize)
      ensures v !in Contents
    {
    }

    lemma OpenedFlat()
      requires Valid() && iSize <= c.NBit()
      ensures Own() && Flat()
    {
    }

    lemma AssembledFlat()
      requires Own() && iSize <= c.NBit() && Flat()
      ensures Valid()
    {
    }

    /** Setting a bit of the bitmap. */
    method SetFlat(i: nat)
      requires Valid() && 1 <= i <= iSize <= c.NBit()
      modifies this`Contents, aBitmap
      ensures Valid() && Contents == old(Contents) + {i}
    {
      hide Valid;
      hide TestBit;
      hide WithBit;
      hide WithoutBit;
      OpenedFlat();
      var j := i - 1;
      ghost var m := aBitmap[..];
      aBitmap[j / 8] := WithBit(aBitmap[j / 8], j % 8);
      assert aBitmap[..] == m[j / 8 := WithBit(m[j / 8], j % 8)];
      Contents := Contents + {i};
      forall v: nat | v < iSize
        ensures TestBit(aBitmap[..], v) <==> v == j || TestBit(m, v)
      {
        ChangeBit(m, j, v);
      }
      AssembledFlat();
    }

    /** Value i goes into hole h of the table. */
    method StoreAt(i: nat, h: nat)
      requires Valid() && iSize > c.NBit() && iDivisor == 0 && 1 <= i <= iSize
      requires h < aHash.Length && aHash[h] == 0 && Probed(aHash[..], i, h) && nSet + 1 < aHash.Length
      modifies this`Contents, this`nSet, aHash
      ensures Valid() && Contents == old(Contents) + {i}
    {
      ghost var t := aHash[..];
      Store(t, i, h);
      nSet := nSet + 1;
      aHash[h] := i;
      Contents := Contents + {i};
      assert aHash[..] == t[h := i];
    }

    /** sqlite3BitvecSet: true if and only if an allocation failed, which takes a table with mxHash
        entries or sub-bitmaps.  Each failure loses at most one value; a division that could not begin loses
        i only. */
    method Set(i: nat, mem: Heap) returns (nomem: bool)
      requires Valid() && 1 <= i <= iSize && mem !in Repr
      modifies Repr, mem
      ensures mem.refusals >= old(mem.refusals) && (nomem <==> mem.refusals > old(mem.refusals))
      ensures Lost(old(Contents), {i}, Contents) <= mem.refusals - old(mem.refusals)
      ensures iSize <= c.NBit() ==> !nomem
      ensures old(iDivisor) == 0 && (i in old(Contents) || |old(Contents)| < c.mxHash) ==> !nomem
      ensures old(iDivisor) == 0 && old(Contents) == {} ==> !nomem
      ensures nomem && iDivisor == 0 ==> Contents == old(Contents)
      ensures Valid() && fresh(Repr - old(Repr))
      ensures !nomem ==> Contents == old(Contents) + {i}
      ensures nomem ==> Contents <= old(Contents) + {i}
      ensures old(iDivisor) != 0 ==> iDivisor != 0
      decreases iSize, if iDivisor == 0 then 5 else 1
    {
      hide Lost;
      NoneLost(Contents, i);
      if iSize > c.NBit() && iDivisor != 0 {
        nomem := SetInSub(i, mem);
        return;
      }
      if iSize <= c.NBit() {
        SetFlat(i);
        return false;
      }
      nomem := SetHashed(i, mem);
    }

    /** The same for a table: a free home takes the value, and otherwise it goes to the end of its probe path
        unless mxHash values are there. */
    method SetHashed(i: nat, mem: Heap) returns (nomem: bool)
      requires Valid() && iSize > c.NBit() && iDivisor == 0 && 1 <= i <= iSize && mem !in Repr
      modifies Repr, mem
      ensures mem.refusals >= old(mem.refusals) && (nomem <==> mem.refusals > old(mem.refusals))
      ensures Lost(old(Contents), {i}, Contents) <= mem.refusals - old(mem.refusals)
      ensures i in old(Contents) || |old(Contents)| < c.mxHash ==> !nomem
      ensures nomem && iDivisor == 0 ==> Contents == old(Contents)
      ensures Valid() && fresh(Repr - old(Repr))
      ensures !nomem ==> Contents == old(Contents) + {i}
      ensures nomem ==> Contents <= old(Contents) + {i}
      decreases iSize, 4
    {
      hide Lost;
      NoneLost(Contents, i);
      var h := Home(i, aHash.Length);
      if aHash[h] == 0 {
        if nSet + 1 < aHash.Length {
          StoreAt(i, h);
          return false;
        }
      } else {
        h := Probe(i);
        if aHash[h] == i {
          return false;
        }
      }
      if nSet >= c.mxHash {
        nomem := Divide(i, mem);
        return;
      }
      StoreAt(i, h);
      nomem := false;
    }

    /** Setting value i through its sub-bitmap, which is created if need be. */
    method SetInSub(i: nat, mem: Heap) returns (nomem: bool)
      requires Valid() && iSize > c.NBit() && iDivisor != 0 && 1 <= i <= iSize && mem !in Repr
      modifies Repr, mem
      ensures mem.refusals >= old(mem.refusals) && (nomem <==> mem.refusals > old(mem.refusals))
      ensures Lost(old(Contents), {i}, Contents) <= mem.refusals - old(mem.refusals)
      ensures Valid() && fresh(Repr - old(Repr)) && iDivisor == old(iDivisor)
      ensures !nomem ==> Contents == old(Contents) + {i}
      ensures nomem ==> Contents <= old(Contents) + {i}
      ensures var bin := Quotient(i - 1, old(iDivisor));
        bin < apSub.Length && (old(apSub[..])[bin] == null && nomem ==> Contents == old(Contents))
      decreases iSize, 0, 1
    {
      hide Lost;
      NoneLost(Contents, i);
      BinFits(i - 1);
      var bin := Quotient(i - 1, iDivisor);
      if apSub[bin] == null {
        nomem := NewSub(bin, mem);
        if nomem {
          return;
        }
      }
      nomem := SetExisting(i, bin, mem);
    }

    method SetExisting(i: nat, bin: nat, mem: Heap) returns (nomem: bool)
      requires Valid() && iSize > c.NBit() && iDivisor != 0 && 1 <= i <= iSize && mem !in Repr
      requires bin == Quotient(i - 1, iDivisor) && bin < apSub.Length && apSub[bin] != null
      modifies Repr, mem
      ensures mem.refusals >= old(mem.refusals) && (nomem <==> mem.refusals > old(mem.refusals))
      ensures Lost(old(Contents), {i}, Contents) <= mem.refusals - old(mem.refusals)
      ensures Valid() && fresh(Repr - old(Repr)) && iDivisor == old(iDivisor)
      ensures !nomem ==> Contents == old(Contents) + {i}
      ensures nomem ==> Contents <= old(Contents) + {i}
      ensures old(apSub[bin].iDivisor) == 0 && old(apSub[bin].Contents) == {} ==> !nomem
      decreases iSize, 0, 0
    {
      hide Valid;
      hide Own;
      hide IsUnion;
      hide Lost;
      hide InParts;
      hide Quotient;
      hide Remainder;
      Opened();
      PlaceFits(i - 1);
      var s := apSub[bin];
      nomem := s.Set(Remainder(i - 1, iDivisor) + 1, mem);
      ghost var whole := PartGrows(Contents, Parts, iDivisor, iSize, i, s.Contents);
      LostInPart(Contents, whole, Parts, iDivisor, iSize, i, s.Contents);
      Absorb(bin, whole);
    }

    lemma PlaceFits(j: nat)
      requires iDivisor > 0
      ensures Remainder(j, iDivisor) < iDivisor
    {
    }

    /** Sub-bitmap bin has changed, and the whole with it. */
    ghost method Absorb(bin: nat, whole: set<nat>)
      requires Own() && Sizes() && Subs(bin) && Apart() && bin < apSub.Length && apSub[bin] != null
      requires apSub[bin].Valid() && {this, aBitmap, aHash, apSub} !! apSub[bin].Repr
      requires apSub[bin].c == c && apSub[bin].iSize == iDivisor
      requires IsUnion(whole, Parts[bin := apSub[bin].Contents], iDivisor, iSize)
      modifies this`Repr, this`Contents, this`Parts
      ensures Valid() && Repr == old(Repr) + apSub[bin].Repr && Contents == whole
    {
      hide IsUnion;
      hide Valid;
      Repr, Contents, Parts := Repr + apSub[bin].Repr, whole, Parts[bin := apSub[bin].Contents];
      Assembled();
    }

    lemma Opened()
      requires Valid() && iDivisor != 0
      ensures Own() && Sizes() && Subs(-1) && Apart() && IsUnion(Contents, Parts, iDivisor, iSize)
    {
    }

    lemma Assembled()
      requires Own() && Sizes() && Subs(-1) && Apart() && IsUnion(Contents, Parts, iDivisor, iSize)
      ensures Valid()
    {
    }

    /** A new sub-bitmap in an empty place: true if its allocation failed. */
    method NewSub(bin: nat, mem: Heap) returns (nomem: bool)
      requires Valid() && iSize > c.NBit() && iDivisor != 0 && bin < apSub.Length && apSub[bin] == null && mem !in Repr
      modifies this`Repr, apSub, mem
      ensures mem.refusals == old(mem.refusals) + if nomem then 1 else 0
      ensures Valid() && fresh(Repr - old(Repr)) && old(Repr) <= Repr && iDivisor == old(iDivisor) && Contents == old(Contents)
      ensures !nomem ==> apSub[bin] != null && apSub[bin].iDivisor == 0 && apSub[bin].Contents == {}
    {
      hide Valid;
      hide Own;
      hide IsUnion;
      DivisorOk();
      var s := Create(c, iDivisor, mem);
      if s == null {
        return true;
      }
      Opened();
      PutSub(bin, s);
      nomem := false;
    }

    lemma DivisorOk()
      requires Valid() && iDivisor != 0
      ensures c.Ok() && iDivisor < 0x1_0000_0000
    {
    }

    method PutSub(bin: nat, s: Bitvec)
      requires Own() && Sizes() && Subs(-1) && Apart() && IsUnion(Contents, Parts, iDivisor, iSize)
      requires bin < apSub.Length && apSub[bin] == null && s.Valid() && s.Repr !! Repr
      requires s.c == c && s.iSize == iDivisor && s.Contents == {}
      modifies this`Repr, apSub
      ensures Valid() && Repr == old(Repr) + s.Repr && apSub[bin] == s
    {
      hide Valid;
      hide IsUnion;
      apSub[bin] := s;
      Repr := Repr + s.Repr;
      Assembled();
    }

    /** A table with mxHash entries or more turns into sub-bitmaps, its entries set again one by one. */
    method Divide(i: nat, mem: Heap) returns (nomem: bool)
      requires Valid() && iSize > c.NBit() && iDivisor == 0 && 1 <= i <= iSize && mem !in Repr
      modifies Repr, mem
      ensures mem.refusals >= old(mem.refusals) && (nomem <==> mem.refusals > old(mem.refusals))
      ensures Lost(old(Contents), {i}, Contents) <= mem.refusals - old(mem.refusals)
      ensures iDivisor == 0 ==> Contents == old(Contents)
      ensures Valid() && fresh(Repr - old(Repr))
      ensures !nomem ==> Contents == old(Contents) + {i}
      ensures nomem ==> Contents <= old(Contents) + {i}
      decreases iSize, 3
    {
      hide Lost;
      hide Valid;
      hide Elements;
      NoneLost(Contents, i);
      var ok := mem.Malloc();
      if !ok {
        return true;
      }
      TableValues();
      var aiValues := aHash[..];
      StartOver();
      nomem := Set(i, mem);
      ghost var mid := Contents;
      var r := Reinsert(aiValues, mem);
      LostInDivision(Elements(aiValues), i, mid, Contents);
      nomem := nomem || r;
    }

    lemma TableValues()
      requires Valid() && iSize > c.NBit() && iDivisor == 0
      ensures Contents == Elements(aHash[..]) && forall v :: v in Contents ==> v <= iSize
      ensures aHash in Repr && apSub in Repr && this in Repr
    {
    }

    /** The entries of the old table, set one by one. */
    method Reinsert(aiValues: seq<nat>, mem: Heap) returns (nomem: bool)
      requires Valid() && iDivisor != 0 && mem !in Repr && forall v :: v in Elements(aiValues) ==> v <= iSize
      modifies Repr, mem
      ensures mem.refusals >= old(mem.refusals) && (nomem <==> mem.refusals > old(mem.refusals))
      ensures Valid() && fresh(Repr - old(Repr)) && iDivisor != 0
      ensures !nomem ==> Contents == old(Contents) + Elements(aiValues)
      ensures Contents <= old(Contents) + Elements(aiValues)
      ensures Lost(old(Contents), Elements(aiValues), Contents) <= mem.refusals - old(mem.refusals)
      decreases iSize, 2
    {
      hide Valid;
      hide Elements;
      hide Lost;
      nomem := false;
      NoneLost(Contents, 0);
      ElementsEmpty(aiValues);
      for j := 0 to |aiValues|
        invariant Valid() && fresh(Repr - old(Repr)) && iDivisor != 0
        invariant mem.refusals >= old(mem.refusals) && (nomem <==> mem.refusals > old(mem.refusals))
        invariant !nomem ==> Contents == old(Contents) + Elements(aiValues[..j])
        invariant Contents <= old(Contents) + Elements(aiValues)
        invariant Lost(old(Contents), Elements(aiValues[..j]), Contents) <= mem.refusals - old(mem.refusals)
      {
        ElementsStep(aiValues, j);
        if aiValues[j] != 0 {
          ghost var mid := Contents;
          var r := Set(aiValues[j], mem);
          LostInSteps(old(Contents), mid, Contents, Elements(aiValues[..j]), {aiValues[j]});
          nomem := nomem || r;
        }
      }
      assert aiValues[..|aiValues|] == aiValues;
    }

    /** The bitmap emptied and divided. */
    method StartOver()
      requires Valid() && iSize > c.NBit() && iDivisor == 0
      modifies this`iDivisor, this`Contents, this`Parts, apSub
      ensures Valid() && iDivisor != 0 && Contents == {}
    {
      forall k | 0 <= k < apSub.Length {
        apSub[k] := null;
      }
      DivisorFits(c, iSize);
      iDivisor := c.DivisorOf(iSize);
      Contents, Parts := {}, seq(apSub.Length, _ => {});
    }

    /** sqlite3BitvecClear */
    method Clear(i: nat)
      requires Valid() && 1 <= i <= iSize
      modifies Repr
      ensures Valid() && fresh(Repr - old(Repr)) && Contents == old(Contents) - {i}
      decreases iSize, 1
    {
      if iDivisor != 0 {
        ClearInSub(i);
      } else if iSize <= c.NBit() {
        ClearFlat(i);
      } else {
        ClearHashed(i);
      }
    }

    method ClearFlat(i: nat)
      requires Valid() && 1 <= i <= iSize <= c.NBit()
      modifies this`Contents, aBitmap
      ensures Valid() && Contents == old(Contents) - {i}
    {
      hide Valid;
      hide TestBit;
      hide WithBit;
      hide WithoutBit;
      OpenedFlat();
      var j := i - 1;
      ghost var m := aBitmap[..];
      aBitmap[j / 8] := WithoutBit(aBitmap[j / 8], j % 8);
      assert aBitmap[..] == m[j / 8 := WithoutBit(m[j / 8], j % 8)];
      Contents := Contents - {i};
      forall v: nat | v < iSize
        ensures TestBit(aBitmap[..], v) <==> v != j && TestBit(m, v)
      {
        ChangeBit(m, j, v);
      }
      AssembledFlat();
    }

    method ClearInSub(i: nat)
      requires Valid() && iDivisor != 0 && 1 <= i <= iSize
      modifies Repr
      ensures Valid() && fresh(Repr - old(Repr)) && Contents == old(Contents) - {i}
      decreases iSize, 0
    {
      hide Valid;
      hide Own;
      hide IsUnion;
      Opened();
      Descend(i - 1);
      var bin := Quotient(i - 1, iDivisor);
      var s := apSub[bin];
      if s == null {
        return;
      }
      s.Clear(Remainder(i - 1, iDivisor) + 1);
      PartLoses(Contents, Parts, iDivisor, iSize, i, s.Contents);
      Absorb(bin, Contents - {i});
    }

    /** The table rebuilt without value i, so that no probe crosses a hole. */
    method ClearHashed(i: nat)
      requires Valid() && iSize > c.NBit() && iDivisor == 0 && 1 <= i <= iSize
      modifies this`Contents, this`nSet, aHash
      ensures Valid() && Contents == old(Contents) - {i}
    {
      hide Valid;
      hide Reachable;
      hide Distinct;
      hide Elements;
      OpenedTable();
      var aiValues := aHash[..];
      forall k | 0 <= k < aHash.Length {
        aHash[k] := 0;
      }
      nSet := 0;
      EmptyTable(aHash[..]);
      ElementsEmpty(aiValues);
      for j := 0 to aHash.Length
        invariant Contents == old(Contents)
        invariant Own() && TableOk(aHash[..]) && nSet == |Elements(aHash[..])|
        invariant Elements(aHash[..]) == Elements(aiValues[..j]) - {i}
      {
        KeepValue(aiValues, j, i);
      }
      assert aiValues[..aHash.Length] == aiValues;
      SubsetCount(Contents - {i}, Contents);
      Contents := Contents - {i};
      AssembledTable();
    }

    /** One turn of the rebuilding loop. */
    method KeepValue(aiValues: seq<nat>, j: nat, i: nat)
      requires TableOk(aHash[..]) && nSet == |Elements(aHash[..])|
      requires Distinct(aiValues) && |Elements(aiValues)| < |aiValues| == aHash.Length && j < |aiValues|
      requires Elements(aHash[..]) == Elements(aiValues[..j]) - {i}
      modifies this`nSet, aHash
      ensures TableOk(aHash[..]) && nSet == |Elements(aHash[..])|
      ensures Elements(aHash[..]) == Elements(aiValues[..j + 1]) - {i}
    {
      hide Reachable;
      hide Distinct;
      hide Elements;
      ElementsStep(aiValues, j);
      if aiValues[j] != 0 && aiValues[j] != i {
        NotBefore(aiValues, j, i);
        nSet := nSet + 1;
        Place(aiValues[j]);
      }
    }

    lemma OpenedTable()
      requires Valid() && iSize > c.NBit() && iDivisor == 0
      ensures Own() && Hashed()
    {
    }

    lemma AssembledTable()
      requires Own() && iSize > c.NBit() && iDivisor == 0 && Hashed()
      ensures Valid()
    {
    }

    /** A value put in the first hole at or after its home. */
    method Place(v: nat)
      requires TableOk(aHash[..]) && v > 0 && v !in Elements(aHash[..]) && |Elements(aHash[..])| < aHash.Length
      modifies aHash
      ensures TableOk(aHash[..]) && Elements(aHash[..]) == old(Elements(aHash[..])) + {v}
      ensures |Elements(aHash[..])| == old(|Elements(aHash[..])|) + 1
    {
      hide Reachable;
      hide Distinct;
      ghost var t := aHash[..];
      FewLeaveHole(t);
      ghost var e :| 0 <= e < |t| && t[e] == 0;
      var h: nat := Home(v, aHash.Length);
      while aHash[h] != 0
        invariant h < aHash.Length && Probed(t, v, h) && aHash[..] == t
        decreases Distance(h, e, |t|)
      {
        ProbeStep(t, v, h);
        h := Next(h, aHash.Length);
      }
      Store(t, v, h);
      aHash[h] := v;
      assert aHash[..] == t[h := v];
    }
  }

  /** p is a tree of no more than n levels of bitmaps. */
  ghost predicate Deep(p: Bitvec, n: nat)
    requires p.Valid()
    reads p, p.Repr
    decreases n
  {
    && n >= 1
    && (p.iDivisor != 0 ==> (
          p.Opened();
          n >= 2 && forall k :: 0 <= k < p.apSub.Length && p.apSub[k] != null ==> Deep(p.apSub[k], n - 1)))
  }

  /** No tree has more levels than its size makes. */
  lemma {:induction false} DeepAsLevels(p: Bitvec, n: nat)
    requires p.Valid() && n >= Levels(p.c, p.iSize)
    ensures Deep(p, n)
    decreases n
  {
    if p.iDivisor != 0 {
      p.Opened();
      DivisorFits(p.c, p.iSize);
      forall k | 0 <= k < p.apSub.Length && p.apSub[k] != null
        ensures Deep(p.apSub[k], n - 1)
      {
        DeepAsLevels(p.apSub[k], n - 1);
      }
    }
  }

  /** With 64-bit constants no bitmap is a tree of more than five levels. */
  lemma FiveDeep(p: Bitvec)
    requires p.Valid() && p.c == WIDE
    ensures Deep(p, 5)
  {
    FiveLevels(p.iSize);
    DeepAsLevels(p, 5);
  }

  /** sqlite3BitvecSet on a bitmap that was never created does nothing. */
  method BitvecSet(p: Bitvec?, i: nat, mem: Heap) returns (nomem: bool)
    requires p != null ==> p.Valid() && 1 <= i <= p.iSize && mem !in p.Repr
    modifies if p == null then {} else p.Repr, mem
    ensures p == null ==> !nomem
    ensures mem.refusals >= old(mem.refusals) && (nomem <==> mem.refusals > old(mem.refusals))
    ensures p != null ==> p.Valid() && fresh(p.Repr - old(p.Repr))
    ensures p != null ==> p.Contents <= old(p.Contents) + {i} && (!nomem ==> p.Contents == old(p.Contents) + {i})
  {
    if p == null {
      return false;
    }
    nomem := p.Set(i, mem);
  }

  /** sqlite3BitvecClear, likewise */
  method BitvecClear(p: Bitvec?, i: nat)
    requires p != null ==> p.Valid() && 1 <= i <= p.iSize
    modifies if p == null then {} else p.Repr
    ensures p != null ==> p.Valid() && fresh(p.Repr - old(p.Repr)) && p.Contents == old(p.Contents) - {i}
  {
    if p != null {
      p.Clear(i);
    }
  }

  /** sqlite3BitvecTest: a bitmap that was never created has no bits. */
  method BitvecTest(p: Bitvec?, i: nat) returns (found: bool)
    requires p != null ==> p.Valid()
    requires i < 0x1_0000_0000
    ensures found <==> p != null && i in p.Contents
  {
    if p == null {
      return false;
    }
    found := p.Test(i);
  }
}
