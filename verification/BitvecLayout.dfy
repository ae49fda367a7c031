/** Sizes, levels and single bits of a Bitvec. */
module BitvecLayout {

  /** Sizes derived from BITVEC_SZ: bytes in the bitmap, slots in the table, sub-bitmaps, and the
      number of entries at which a table is divided. */
  datatype Layout = Layout(nElem: nat, nInt: nat, nPtr: nat, mxHash: nat) {
    ghost predicate Ok() {
      nElem >= 1 && nPtr >= 2 && 0 < mxHash < nInt
    }

    /** BITVEC_NBIT */
    function NBit(): nat {
      8 * nElem
    }

    /** The iDivisor with which a bitmap of this size is divided. */
    function DivisorOf(iSize: nat): (d: nat)
      requires nPtr > 0
    {
      var d := iSize / nPtr + (if iSize % nPtr != 0 then 1 else 0);
      if d < NBit() then NBit() else d
    }
  }

  /** BITVEC_SZ 512 with 8-byte pointers. */
  const WIDE: Layout := Layout(496, 124, 62, 62)

  /** Sub-bitmaps are smaller than the bitmap, and together cover it. */
  lemma DivisorFits(c: Layout, iSize: nat)
    requires c.Ok() && iSize > c.NBit()
    ensures c.NBit() <= c.DivisorOf(iSize) < iSize <= c.nPtr * c.DivisorOf(iSize)
  {
    var up := iSize / c.nPtr + (if iSize % c.nPtr != 0 then 1 else 0);
    QuotientRoundedUp(iSize, c.nPtr, up);
    Scale(c.nPtr, c.DivisorOf(iSize), up);
  }

  lemma QuotientRoundedUp(x: nat, k: nat, up: nat)
    requires x >= 2 && k >= 2 && up == x / k + (if x % k != 0 then 1 else 0)
    ensures x <= k * up && up < x
  {
    var (q, r) := (x / k, x % k);
    assert x == k * q + r;
    Scale(q, k, 2);
    if r != 0 {
      assert k * up == k * q + k;
    }
  }

  lemma Scale(k: nat, x: nat, y: nat)
    requires x >= y
    ensures k * x >= k * y
  {
  }

  /** Levels of a tree of bitmaps. */
  function Levels(c: Layout, iSize: nat): nat
    requires c.Ok()
    decreases iSize
  {
    if iSize <= c.NBit() then 1
    else
      DivisorFits(c, iSize);
      1 + Levels(c, c.DivisorOf(iSize))
  }

  /** With 64-bit constants a tree over any 32-bit size has at most five levels. */
  lemma FiveLevels(iSize: nat)
    requires iSize < 0x1_0000_0000
    ensures Levels(WIDE, iSize) <= 5
  {
    var d1 := WIDE.DivisorOf(iSize);
    var d2 := WIDE.DivisorOf(d1);
    var d3 := WIDE.DivisorOf(d2);
    var d4 := WIDE.DivisorOf(d3);
    assert d1 <= 69273667 && d2 <= 1117318 && d3 <= 18022 && d4 <= 3968;
    assert Levels(WIDE, d4) == 1;
    assert Levels(WIDE, d3) <= 2;
    assert Levels(WIDE, d2) <= 3;
    assert Levels(WIDE, d1) <= 4;
  }

  // Single bits of a byte.

  /** 1<<k */
  function Mask(k: nat): (m: bv8)
    requires k < 8
    ensures OneHot(m)
  {
    if k == 0 then 1 else if k == 1 then 2 else if k == 2 then 4 else if k == 3 then 8
    else if k == 4 then 16 else if k == 5 then 32 else if k == 6 then 64 else 128
  }

  predicate OneHot(m: bv8) {
    m == 1 || m == 2 || m == 4 || m == 8 || m == 16 || m == 32 || m == 64 || m == 128
  }

  predicate BitOf(b: bv8, k: nat)
    requires k < 8
  {
    b & Mask(k) != 0
  }

  lemma MaskedBits(b: bv8, m: bv8, n: bv8)
    requires OneHot(m) && OneHot(n)
    ensures (b | m) & n != 0 <==> m == n || b & n != 0
    ensures (b & !m) & n != 0 <==> m != n && b & n != 0
  {
  }

  /** b with bit k set, and without it */
  function WithBit(b: bv8, k: nat): (r: bv8)
    requires k < 8
  {
    b | Mask(k)
  }

  function WithoutBit(b: bv8, k: nat): (r: bv8)
    requires k < 8
  {
    b & !Mask(k)
  }

  lemma SetBit(b: bv8, k: nat, l: nat)
    requires k < 8 && l < 8
    ensures BitOf(WithBit(b, k), l) <==> l == k || BitOf(b, l)
    ensures BitOf(WithoutBit(b, k), l) <==> l != k && BitOf(b, l)
  {
    hide OneHot;
    MaskedBits(b, Mask(k), Mask(l));
  }

  predicate TestBit(m: seq<bv8>, i: nat)
    requires i < 8 * |m|
  {
    BitOf(m[i / 8], i % 8)
  }

  lemma ChangeBit(m: seq<bv8>, j: nat, v: nat)
    requires j < 8 * |m| && v < 8 * |m|
    ensures TestBit(m[j / 8 := WithBit(m[j / 8], j % 8)], v) <==> v == j || TestBit(m, v)
    ensures TestBit(m[j / 8 := WithoutBit(m[j / 8], j % 8)], v) <==> v != j && TestBit(m, v)
  {
    hide WithBit;
    hide WithoutBit;
    hide BitOf;
    SetBit(m[j / 8], j % 8, v % 8);
  }
}
