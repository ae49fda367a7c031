/** Pages of two sizes over one file: offsets, the pending-byte page, and what a backup copies. */
module BackupPages {
  import opened Bytes
  import opened Division

  /** Start of the locking region; the page that holds it is never used. */
  const PENDING_BYTE: nat := 0x4000_0000

  /** Page sizes are the powers of two from 512 to 65536. */
  predicate PageSize(n: nat) {
    n == 512 || n == 1024 || n == 2048 || n == 4096 || n == 8192 || n == 16384 || n == 32768 || n == 65536
  }

  function PowerOfTwo(k: nat): nat {
    if k == 0 then 1 else 2 * PowerOfTwo(k - 1)
  }

  lemma PageSizesArePowers(n: nat)
    ensures PageSize(n) <==> exists k: nat :: 9 <= k <= 16 && n == PowerOfTwo(k)
  {
    assert PowerOfTwo(9) == 512 && PowerOfTwo(10) == 1024 && PowerOfTwo(11) == 2048 && PowerOfTwo(12) == 4096;
    assert PowerOfTwo(13) == 8192 && PowerOfTwo(14) == 16384 && PowerOfTwo(15) == 32768 && PowerOfTwo(16) == 65536;
  }

  lemma PageSizeAtLeast(n: nat)
    requires PageSize(n)
    ensures n >= 512
  {
  }

  /** PENDING_BYTE_PAGE for pages of n bytes */
  function PendingPage(n: nat): nat
    requires n > 0
  {
    Quotient(PENDING_BYTE, n) + 1
  }

  /** Offset o is in the pending-byte page of a file with pages of n bytes. */
  predicate InPending(n: nat, o: nat) {
    PENDING_BYTE <= o < PENDING_BYTE + n
  }

  lemma AlignedProduct(k: nat, n: nat, p: nat)
    requires n > 0 && k * n == p
    ensures Quotient(p, n) == k && Aligned(p, n) && Multiple(k, n) == p
  {
    IsProduct(k, n);
    DivideMultiple(k, n, 0);
  }

  lemma PendingAligned(n: nat)
    requires PageSize(n)
    ensures Aligned(PENDING_BYTE, n) && Multiple(PendingPage(n) - 1, n) == PENDING_BYTE && PendingPage(n) > 1
  {
    hide Quotient;
    hide Remainder;
    hide Multiple;
    var k: nat := match n
      case 512 => 0x20_0000 case 1024 => 0x10_0000 case 2048 => 0x8_0000 case 4096 => 0x4_0000
      case 8192 => 0x2_0000 case 16384 => 0x1_0000 case 32768 => 0x8000 case _ => 0x4000;
    AlignedProduct(k, n, PENDING_BYTE);
  }

  /** Of two page sizes the smaller divides the larger. */
  lemma SizesAligned(s: nat, d: nat)
    requires PageSize(s) && PageSize(d) && s <= d
    ensures Aligned(d, s)
  {
    hide Quotient;
    hide Remainder;
    hide Multiple;
    var k: nat :| k in {1, 2, 4, 8, 16, 32, 64, 128} && k * s == d;
    AlignedProduct(k, s, d);
  }

  /** The page that offset o falls in is the pending-byte page exactly when o is in that page. */
  lemma PageOfOffset(o: nat, n: nat)
    requires PageSize(n)
    ensures Quotient(o, n) + 1 == PendingPage(n) <==> InPending(n, o)
    ensures Multiple(Quotient(o, n), n) + Remainder(o, n) == o
  {
    PendingAligned(n);
    QuotientBounds(o, n);
    MultipleMonotone(Quotient(o, n), PendingPage(n) - 1, n);
    MultipleMonotone(PendingPage(n) - 1, Quotient(o, n), n);
  }

  /** Page i of a file with pages of n bytes starts here. */
  function PageStart(i: nat, n: nat): nat
    requires i > 0
  {
    Multiple(i - 1, n)
  }

  lemma PageStarts(i: nat, n: nat)
    requires i > 0 && PageSize(n)
    ensures Multiple(i, n) == PageStart(i, n) + n && Aligned(PageStart(i, n), n)
    ensures PageStart(i, n) == PENDING_BYTE <==> i == PendingPage(n)
    ensures i != PendingPage(n) ==> PageStart(i, n) + n <= PENDING_BYTE || PENDING_BYTE + n <= PageStart(i, n)
  {
    hide Multiple;
    hide Quotient;
    hide Aligned;
    PendingAligned(n);
    PagesApart(i, PendingPage(n), n);
    PagesApart(PendingPage(n), i, n);
  }

  lemma PageEnd(i: nat, n: nat)
    requires i > 0
    ensures Multiple(i, n) == PageStart(i, n) + n
  {
  }

  /** Pages do not overlap. */
  lemma PagesApart(i: nat, k: nat, n: nat)
    requires i > 0 && k > 0 && n > 0
    ensures Multiple(i, n) == PageStart(i, n) + n && Aligned(PageStart(i, n), n)
    ensures i == k <==> PageStart(i, n) == PageStart(k, n)
    ensures i < k <==> PageStart(i, n) + n <= PageStart(k, n)
  {
    hide Multiple;
    hide Quotient;
    hide Remainder;
    PageEnd(i, n);
    DivideMultiple(i - 1, n, 0);
    MultipleMonotone(i - 1, k - 1, n);
    MultipleMonotone(k - 1, i - 1, n);
  }

  /** A file image, as bytes; longer by zero bytes if it does not reach n. */
  function Extended(b: seq<byte>, n: nat): (r: seq<byte>)
    ensures |r| == if |b| >= n then |b| else n
    ensures forall o :: 0 <= o < |r| ==> r[o] == if o < |b| then b[o] else 0
  {
    if |b| >= n then b else b + seq(n - |b|, _ => 0)
  }

  /** data written over the bytes at offset o. */
  function Patched(b: seq<byte>, o: nat, data: seq<byte>): (r: seq<byte>)
    requires o + |data| <= |b|
    ensures |r| == |b|
    ensures forall x :: 0 <= x < |r| ==> r[x] == if o <= x < o + |data| then data[x - o] else b[x]
  {
    b[..o] + data + b[o + |data|..]
  }

  lemma PatchedPart(b: seq<byte>, o: nat, data: seq<byte>)
    requires o + |data| <= |b|
    ensures Patched(b, o, data)[o..o + |data|] == data
  {
  }

  /** sqlite3Put4byte */
  function Put4(n: nat): (b: seq<byte>)
    ensures |b| == 4
  {
    [(n / 0x100_0000) % 256, (n / 0x1_0000) % 256, (n / 0x100) % 256, n % 256]
  }

  /** sqlite3Get4byte */
  function Get4(b: seq<byte>): nat
    requires |b| == 4
  {
    0x100_0000 * (b[0] as nat) + 0x1_0000 * (b[1] as nat) + 0x100 * (b[2] as nat) + (b[3] as nat)
  }

  lemma FourBytesRead(n: nat)
    requires n < 0x1_0000_0000
    ensures Get4(Put4(n)) == n
  {
    var (k, l) := (n / 0x100, n / 0x1_0000);
    assert k / 0x100 == l && l / 0x100 == n / 0x100_0000;
    assert n == 0x100 * k + n % 0x100 && k == 0x100 * l + k % 0x100 && l == 0x100 * (l / 0x100) + l % 0x100;
  }

  /** The page-1 fields that finishing a backup rewrites: the file format versions of a WAL
      destination, change counter, schema cookie, version-valid-for and library version. */
  predicate Rewritten(wal: bool, o: nat) {
    (wal && 18 <= o < 20) || 24 <= o < 28 || 40 <= o < 44 || 92 <= o < 100
  }

  /** Those, and the page count, which copying page 1 sets. */
  predicate Header(wal: bool, o: nat) {
    Rewritten(wal, o) || 28 <= o < 32
  }

  /** The page-count field holds n. */
  ghost predicate HasCount(b: seq<byte>, n: nat) {
    |b| >= 32 && b[28..32] == Put4(n)
  }

  /** The page-count field holds n, the size of the source when page 1 was copied, or is the source's
      own, from a later change of its page 1. */
  ghost predicate Counted(src: seq<byte>, dest: seq<byte>, n: nat) {
    |src| >= 32 ==> |dest| >= 32 && (HasCount(dest, n) || dest[28..32] == src[28..32])
  }

  /** dest holds the first n bytes of src, but for both pending-byte pages and the page-count field. */
  ghost predicate Copied(src: seq<byte>, dest: seq<byte>, s: nat, d: nat, n: nat) {
    forall o :: 0 <= o < n && o < |src| && !InPending(s, o) && !InPending(d, o) ==>
      o < |dest| && (28 <= o < 32 || dest[o] == src[o])
  }

  /** A finished backup: the source's length, and its bytes but for its pending-byte page, the header
      fields that finishing rewrites, and a page count that may be the one of when page 1 was copied. */
  ghost predicate Faithful(src: seq<byte>, dest: seq<byte>, s: nat, wal: bool, n: nat) {
    && |dest| == |src| && Counted(src, dest, n)
    && forall o :: 0 <= o < |src| && !InPending(s, o) && !Header(wal, o) ==> dest[o] == src[o]
  }

  /** What a finished backup is, byte by byte: as long as the source, and equal to it but for the page that
      holds the locking bytes, bytes 24 to 31, 40 to 43 and 92 to 99, and 18 and 19 of a WAL destination. */
  lemma FaithfulBytes(src: seq<byte>, dest: seq<byte>, s: nat, wal: bool, n: nat)
    requires Faithful(src, dest, s, wal, n) && n < 0x1_0000_0000
    ensures |dest| == |src|
    ensures forall o :: 0 <= o < |src| && !(0x4000_0000 <= o < 0x4000_0000 + s) ==>
      || dest[o] == src[o] || 24 <= o < 32 || 40 <= o < 44 || 92 <= o < 100 || (wal && 18 <= o < 20)
    ensures |src| >= 32 ==> Get4(dest[28..32]) == n || dest[28..32] == src[28..32]
  {
    FourBytesRead(n);
  }

  /** Where the copying loop's next piece lies: from offset x of a source page that starts at
      offset a, within one destination page. */
  lemma PieceFits(a: nat, x: nat, s: nat, d: nat)
    requires PageSize(s) && PageSize(d) && a <= x < a + s && Aligned(a, s) && Aligned(x - a, d)
    ensures Remainder(x, s) == x - a
    ensures var n := if s < d then s else d;
      x + n <= a + s && Remainder(x, d) + n <= d
    ensures Aligned(x + d - a, d)
  {
    hide Quotient;
    hide Remainder;
    hide Multiple;
    var n := if s < d then s else d;
    QuotientBounds(a, s);
    DivideMultiple(Quotient(a, s), s, x - a);
    if s < d {
      SizesAligned(s, d);
      AlignedGap0(x - a, s, d);
      AlignedRemainder(x, d, s);
      PieceEnd(Remainder(x, d), d, s);
    } else {
      SizesAligned(d, s);
      AlignedMultiple(Quotient(a, s), s, d);
      AlignedSum(a, x - a, d);
      PieceEnd(x - a, s, d);
    }
    SizesAligned(d, d);
    AlignedSum(d, x - a, d);
  }

  /** An aligned offset below an aligned end leaves room for a whole unit. */
  lemma PieceEnd(r: nat, e: nat, u: nat)
    requires u > 0 && Aligned(r, u) && Aligned(e, u) && r < e
    ensures r + u <= e
  {
    AlignedGap(r, e, u);
  }

  lemma AlignedGap0(k: nat, s: nat, d: nat)
    requires 0 < s < d && k < s && Aligned(k, d)
    ensures k == 0
  {
  }

  /** Bytes from x on within the destination's pending-byte page are all in it. */
  lemma PieceInPending(x: nat, n: nat, d: nat)
    requires PageSize(d) && Quotient(x, d) + 1 == PendingPage(d) && x + n <= Multiple(Quotient(x, d) + 1, d)
    ensures x > 0 && forall o :: x <= o < x + n ==> InPending(d, o)
  {
    hide Quotient;
    hide Remainder;
    hide Multiple;
    hide PageSize;
    PageOfOffset(x, d);
    PageStarts(Quotient(x, d) + 1, d);
  }

  /** The piece of source page i at offset x lies within one destination page, at the same offset of
      the file, and is in the destination's pending-byte page only as a whole. */
  lemma PiecePlace(i: nat, x: nat, s: nat, d: nat)
    requires i > 0 && PageSize(s) && PageSize(d)
    requires PageStart(i, s) <= x < PageStart(i, s) + s && Aligned(x - PageStart(i, s), d)
    ensures var n := if s < d then s else d; var iDest := Quotient(x, d) + 1;
      && x + n <= PageStart(i, s) + s && Remainder(x, s) == x - PageStart(i, s)
      && PageStart(iDest, d) + Remainder(x, d) == x && x + n <= Multiple(iDest, d)
      && (iDest == PendingPage(d) ==> forall o :: x <= o < x + n ==> InPending(d, o))
    ensures Aligned(x + d - PageStart(i, s), d)
    ensures Quotient(x, d) + 1 == PendingPage(d) ==> x > 0
  {
    hide Quotient;
    hide Remainder;
    hide Multiple;
    hide PageSize;
    PageStarts(i, s);
    PieceFits(PageStart(i, s), x, s, d);
    QuotientBounds(x, d);
    PageEnd(Quotient(x, d) + 1, d);
    if Quotient(x, d) + 1 == PendingPage(d) {
      PieceInPending(x, if s < d then s else d, d);
    }
  }
}
