/** The online backup: a copying loop that shares the source with its writers. */
module Backups {
  import opened Bytes
  import opened Division
  import opened BackupPages

  datatype Code = OK | BUSY | LOCKED | READONLY | NOMEM | IOERR | IOERR_NOMEM | DONE

  /** isFatalError */
  predicate Fatal(rc: Code) {
    rc != OK && rc != BUSY && rc != LOCKED
  }

  /** The results that end a backup, one by one. */
  lemma FatalCodes(rc: Code)
    ensures Fatal(rc) <==> rc in {READONLY, NOMEM, IOERR, IOERR_NOMEM, DONE}
  {
  }

  /** What a page or file operation returns once both databases are locked: it may fail, but not for
      want of a lock. */
  predicate Locked(rc: Code) {
    rc == OK || rc == NOMEM || rc == IOERR || rc == IOERR_NOMEM
  }

  /** A database file: pages of pageSize bytes, of which the pending-byte page is not the last. */
  datatype Source = Source(bytes: seq<byte>, pages: nat, pageSize: nat)

  predicate SourceOk(x: Source) {
    && PageSize(x.pageSize)
    && |x.bytes| == Multiple(x.pages, x.pageSize) && x.pages != PendingPage(x.pageSize)
  }

  /** Of a backup: its result so far, its position, the destination as seen and as committed, the source it
      was done with, and the size of the source that its page 1 was copied from. */
  datatype Progress = Progress(rc: Code, iNext: nat, dest: seq<byte>, disk: seq<byte>, snapshot: Source, nCounted: nat)

  /** The destination when the source has been copied and only the header is its own: everything
      but the two pending-byte pages. */
  ghost predicate CopiedAll(src: seq<byte>, dest: seq<byte>, s: nat, d: nat, wal: bool) {
    forall o :: 0 <= o < |src| && !InPending(s, o) && !InPending(d, o) ==>
      o < |dest| && (Header(wal, o) || dest[o] == src[o])
  }

  /** dest holds data, the source bytes from offset a, between offsets lo and hi, but for the
      destination's pending-byte page and, when a copy sets it, the page-count field. */
  ghost predicate Holds(dest: seq<byte>, d: nat, a: nat, data: seq<byte>, lo: nat, hi: nat, bUpdate: bool)
    requires a <= lo && hi <= a + |data|
  {
    forall o :: lo <= o < hi && !InPending(d, o) ==>
      o < |dest| && ((28 <= o < 32 && !bUpdate) || dest[o] == data[o - a])
  }

  /** now differs from was, within was, at most between offsets lo and hi. */
  ghost predicate OnlyChanged(was: seq<byte>, now: seq<byte>, lo: nat, hi: nat) {
    |now| >= |was| && forall o :: 0 <= o < |was| && !(lo <= o < hi) ==> now[o] == was[o]
  }

  ghost predicate SameAt(src: seq<byte>, dest: seq<byte>, o: nat) {
    o < |src| && o < |dest| && dest[o] == src[o]
  }

  lemma SameFurther(src: seq<byte>, was: seq<byte>, now: seq<byte>, lo: nat, at: nat, hi: nat)
    requires forall o :: lo <= o < at ==> SameAt(src, was, o)
    requires OnlyChanged(was, now, at, hi) && hi <= |now| && hi <= |src| && at <= hi && now[at..hi] == src[at..hi]
    ensures forall o :: lo <= o < hi ==> SameAt(src, now, o)
  {
    forall o | lo <= o < hi ensures SameAt(src, now, o) {
      if o < at {
        assert SameAt(src, was, o);
      } else {
        assert now[o] == now[at..hi][o - at];
      }
    }
  }

  /** Page 1's header is as it was. */
  ghost predicate HeaderKept(was: seq<byte>, now: seq<byte>) {
    |was| >= 512 && |now| >= 512 && now[..512] == was[..512]
  }

  /** Cutting a file, or stretching it, to n bytes. */
  lemma HeaderCut(was: seq<byte>, n: nat)
    requires |was| >= 512 && n >= 512
    ensures HeaderKept(was, Extended(was, n)[..n])
  {
  }

  lemma FieldsKept(was: seq<byte>, now: seq<byte>)
    requires HeaderKept(was, now)
    ensures now[28..32] == was[28..32] && now[40..44] == was[40..44] && now[18] == was[18] && now[19] == was[19]
  {
    assert forall o :: 0 <= o < 512 ==> now[..512][o] == was[..512][o];
    assert now[28..32] == now[..512][28..32] && was[28..32] == was[..512][28..32];
    assert now[40..44] == now[..512][40..44] && was[40..44] == was[..512][40..44];
  }

  /** Writing source bytes where they belong undoes no copying. */
  lemma StillCopied(src: seq<byte>, was: seq<byte>, now: seq<byte>, s: nat, d: nat, wal: bool, lo: nat, hi: nat)
    requires CopiedAll(src, was, s, d, wal) && OnlyChanged(was, now, lo, hi)
    requires forall o :: lo <= o < hi ==> SameAt(src, now, o)
    ensures CopiedAll(src, now, s, d, wal)
  {
    forall o | 0 <= o < |src| && !InPending(s, o) && !InPending(d, o)
      ensures o < |now| && (Header(wal, o) || now[o] == src[o])
    {
      assert lo <= o < hi ==> SameAt(src, now, o);
    }
  }

  /** Copying page i extends what has been copied by it, and an update renews it. */
  lemma CopiedPage(src: seq<byte>, was: seq<byte>, now: seq<byte>, s: nat, d: nat, i: nat, n: nat, bUpdate: bool)
    requires PageSize(s) && 0 < i <= n + 1 && PageStart(i, s) + s <= |src|
    requires Copied(src[..PageStart(i, s)], was, s, d, Multiple(n, s))
    requires n >= i ==> forall o :: PageStart(i, s) + s <= o < Multiple(n, s) && o < |src| && !InPending(s, o) && !InPending(d, o) ==>
      o < |was| && (28 <= o < 32 || was[o] == src[o])
    requires i == PendingPage(s) ==> was == now
    requires i != PendingPage(s) ==>
      && OnlyChanged(was, now, PageStart(i, s), PageStart(i, s) + s)
      && Holds(now, d, PageStart(i, s), src[PageStart(i, s)..PageStart(i, s) + s], PageStart(i, s), PageStart(i, s) + s, bUpdate)
    ensures Copied(src, now, s, d, if n >= i then Multiple(n, s) else Multiple(i, s))
  {
    hide Multiple;
    hide PageSize;
    PageStarts(i, s);
  }

  /** A change of the source from page i on leaves what was copied before that page as it was. */
  lemma CopiedBefore(was: seq<byte>, now: seq<byte>, dest: seq<byte>, s: nat, d: nat, n: nat, i: nat)
    requires PageSize(s) && i > 0 && Copied(was, dest, s, d, Multiple(n, s))
    requires |now| >= |was|
    requires forall o :: 0 <= o < |now| && o < PageStart(i, s) && !InPending(s, o) ==> o < |was| && now[o] == was[o]
    ensures Copied(now[..if |now| < PageStart(i, s) then |now| else PageStart(i, s)], dest, s, d, Multiple(n, s))
    ensures n < i ==> Copied(now, dest, s, d, Multiple(n, s))
  {
    hide Multiple;
    hide PageSize;
    PageSizeAtLeast(s);
    if n < i {
      MultipleMonotone(n, i - 1, s);
    }
  }

  lemma TailOf(src: seq<byte>, skipped: seq<byte>, data: seq<byte>)
    ensures var a := |src| + |skipped|; (src + skipped + data)[a..a + |data|] == data
  {
  }

  /** Where a page added to a source of n pages lies. */
  lemma AppendedPage(n: nat, i: nat, s: nat)
    requires PageSize(s) && n != PendingPage(s) && i == if n + 1 == PendingPage(s) then n + 2 else n + 1
    ensures PageStart(i, s) + s == Multiple(i, s) && i != PendingPage(s)
    ensures PageStart(i, s) == Multiple(n, s) + if n + 1 == PendingPage(s) then s else 0
    ensures forall o :: Multiple(n, s) <= o < PageStart(i, s) ==> InPending(s, o)
  {
    hide PageSize;
    hide PendingPage;
    PageStarts(i, s);
    PageStarts(n + 1, s);
  }

  /** Past the last source page everything has been copied. */
  lemma CopiedWhole(src: seq<byte>, dest: seq<byte>, s: nat, d: nat, wal: bool, i: nat, n: nat)
    requires s > 0 && i >= n && |src| == Multiple(n, s) && Copied(src, dest, s, d, Multiple(i, s))
    ensures CopiedAll(src, dest, s, d, wal)
  {
    MultipleMonotone(n, i, s);
  }

  /** A copied page 1 has room for the header. */
  lemma HeaderCopied(src: seq<byte>, dest: seq<byte>, s: nat, d: nat, wal: bool, n: nat)
    requires PageSize(s) && n > 0 && |src| == Multiple(n, s) && CopiedAll(src, dest, s, d, wal)
    ensures |dest| >= 512 && |src| >= 512
  {
    MultipleMonotone(1, n, s);
    assert !InPending(s, 511) && !InPending(d, 511);
  }

  /** The last source byte has been copied, unless it lies in the destination's pending-byte page. */
  lemma LastByteCopied(src: seq<byte>, dest: seq<byte>, s: nat, d: nat, wal: bool, n: nat)
    requires PageSize(s) && n > 0 && n != PendingPage(s) && |src| == Multiple(n, s) && CopiedAll(src, dest, s, d, wal)
    ensures |src| > 0 && !InPending(s, |src| - 1)
    ensures InPending(d, |src| - 1) || |dest| >= |src|
  {
    hide PendingPage;
    hide PageSize;
    PageSizeAtLeast(s);
    PageStarts(n, s);
    assert !InPending(s, |src| - 1);
  }

  lemma PendingEnd(s: nat)
    requires PageSize(s)
    ensures Aligned(PENDING_BYTE + s, s)
  {
    hide Quotient;
    hide Remainder;
    PendingAligned(s);
    SizesAligned(s, s);
    AlignedSum(PENDING_BYTE, s, s);
  }

  /** The source page at an aligned offset below the end of the source. */
  lemma TailPage(off: nat, n: nat, s: nat)
    requires s > 0 && Aligned(off, s) && off < Multiple(n, s)
    ensures Quotient(off, s) + 1 <= n && PageStart(Quotient(off, s) + 1, s) == off && Aligned(off + s, s)
    ensures off + s <= Multiple(n, s)
  {
    QuotientBounds(off, s);
    MultipleMonotone(n, Quotient(off, s), s);
    MultipleMonotone(Quotient(off, s), n, s);
  }

  lemma PageAtLeast(n: nat, s: nat)
    requires n > 0 && PageSize(s)
    ensures Multiple(n, s) >= 512
  {
    MultipleMonotone(1, n, s);
    NoPages(s);
  }

  lemma NoPages(s: nat)
    ensures Multiple(0, s) == 0 && Multiple(1, s) == s
  {
    assert Multiple(1, s) == Multiple(0, s) + s;
  }

  lemma NothingCopied(src: seq<byte>, dest: seq<byte>, s: nat, d: nat)
    ensures Copied(src, dest, s, d, Multiple(0, s))
  {
  }

  /** Page 1 is the first page and no pending-byte page; every other one starts beyond the header. */
  lemma FirstPage(i: nat, s: nat)
    requires i > 0 && PageSize(s)
    ensures i == 1 ==> PageStart(i, s) == 0 && i != PendingPage(s)
    ensures i > 1 ==> PageStart(i, s) >= 512
  {
    hide PendingPage;
    PageSizeAtLeast(s);
    PendingAligned(s);
    NoPages(s);
    MultipleMonotone(1, i - 1, s);
  }

  /** Changes beyond the header leave the page count alone. */
  lemma StillCounted(src: seq<byte>, was: seq<byte>, now: seq<byte>, n: nat, lo: nat, hi: nat)
    requires OnlyChanged(was, now, lo, hi) && lo >= 32
    ensures Counted(src, was, n) ==> Counted(src, now, n)
    ensures |was| >= 32 ==> now[28..32] == was[28..32]
  {
    hide Put4;
  }

  /** The header's own fields do not touch the page count. */
  lemma CountLeft(was: seq<byte>, now: seq<byte>, wal: bool)
    requires |was| == |now| >= 32 && forall o :: 0 <= o < |now| && !Rewritten(wal, o) ==> now[o] == was[o]
    ensures now[28..32] == was[28..32]
  {
  }

  /** A source cut to n bytes is copied as far, and its page count is as it was or gone. */
  lemma CutSource(src: seq<byte>, dest: seq<byte>, s: nat, d: nat, copied: nat, nCounted: nat, n: nat)
    requires n <= |src|
    ensures Copied(src, dest, s, d, copied) ==> Copied(src[..n], dest, s, d, copied)
    ensures Counted(src, dest, nCounted) ==> Counted(src[..n], dest, nCounted)
  {
    hide Put4;
    assert n >= 32 ==> src[..n][28..32] == src[28..32];
  }

  /** src is before with the page at offset a changed or, at its end, added. */
  ghost predicate PageChanged(before: seq<byte>, src: seq<byte>, s: nat, a: nat) {
    && a + s <= |src| && |before| <= |src|
    && forall o :: 0 <= o < |src| && !(a <= o < a + s) && !InPending(s, o) ==> o < |before| && src[o] == before[o]
  }

  /** A source page that is changed and not copied again leaves the page count one of the two. */
  lemma CountUntouched(before: seq<byte>, src: seq<byte>, dest: seq<byte>, s: nat, a: nat, n: nat)
    requires PageChanged(before, src, s, a) && a >= 512 && Counted(before, dest, n)
    ensures Counted(src, dest, n)
  {
    hide Put4;
    assert !InPending(s, 31);
    assert forall o :: 28 <= o < 32 ==> !InPending(s, o) && src[o] == before[o];
    assert src[28..32] == before[28..32];
  }

  /** Neither does one that is copied again. */
  lemma CountRenewed(before: seq<byte>, src: seq<byte>, was: seq<byte>, now: seq<byte>, s: nat, d: nat, i: nat, n: nat)
    requires PageSize(s) && i > 0 && PageChanged(before, src, s, PageStart(i, s)) && Counted(before, was, n)
    requires OnlyChanged(was, now, PageStart(i, s), PageStart(i, s) + s)
    requires Holds(now, d, PageStart(i, s), src[PageStart(i, s)..PageStart(i, s) + s], PageStart(i, s), PageStart(i, s) + s, true)
    ensures Counted(src, now, n)
  {
    hide Put4;
    hide PageSize;
    hide PageStart;
    PageSizeAtLeast(s);
    FirstPage(i, s);
    if i > 1 {
      CountUntouched(before, src, was, s, PageStart(i, s), n);
      StillCounted(src, was, now, n, PageStart(i, s), PageStart(i, s) + s);
    } else {
      assert !InPending(d, 28) && !InPending(d, 29) && !InPending(d, 30) && !InPending(d, 31);
      assert now[28..32] == src[28..32];
    }
  }

  /** Number of destination pages that n source pages fill: nDestTruncate */
  function DestPages(n: nat, s: nat, d: nat): nat
    requires s > 0 && d > 0
  {
    if s < d then
      var ratio := Quotient(d, s);
      var k := Quotient(n + ratio - 1, ratio);
      if k == PendingPage(d) then k - 1 else k
    else
      Multiple(n, Quotient(s, d))
  }

  /** The numbers asserted before the destination file is cut: it is not cut to nothing, and the pages
      kept hold the whole source unless it ends within the destination's pending-byte page. */
  lemma DestPagesEnough(n: nat, s: nat, d: nat)
    requires PageSize(s) && PageSize(d) && n > 0
    ensures DestPages(n, s, d) > 0
    ensures var k := DestPages(n, s, d); var size := Multiple(n, s);
      || Multiple(k, d) >= size
      || (k == PendingPage(d) - 1 && PENDING_BYTE <= size <= PENDING_BYTE + d)
    ensures s >= d ==> Multiple(DestPages(n, s, d), d) == Multiple(n, s)
  {
    hide PageSize;
    if s < d {
      SizesAligned(s, d);
      QuotientBounds(d, s);
      var ratio := Quotient(d, s);
      assert ratio > 0;
      PendingAligned(d);
      RoundUp(n, ratio, s);
      var k := Quotient(n + ratio - 1, ratio);
      assert Multiple(k, d) >= Multiple(n, s);
      MultipleMonotone(k, PendingPage(d), d);
    } else {
      SizesAligned(d, s);
      QuotientBounds(s, d);
      MultipleOfMultiple(n, Quotient(s, d), d);
      MultipleMonotone(1, n, s);
    }
  }

  /** The destination never ends with its pending-byte page, and has no page beyond the source. */
  lemma DestPagesTight(n: nat, s: nat, d: nat)
    requires PageSize(s) && PageSize(d) && n > 0 && n != PendingPage(s)
    ensures DestPages(n, s, d) != PendingPage(d)
    ensures DestPages(n, s, d) > 0 && Multiple(DestPages(n, s, d) - 1, d) < Multiple(n, s)
  {
    hide PageSize;
    hide PendingPage;
    DestPagesEnough(n, s, d);
    if s < d {
      SmallPagesTight(n, s, d);
    } else {
      PendingEnds(n, s, d);
    }
  }

  lemma SmallPagesTight(n: nat, s: nat, d: nat)
    requires PageSize(s) && PageSize(d) && n > 0 && s < d
    ensures DestPages(n, s, d) != PendingPage(d)
    ensures DestPages(n, s, d) > 0 && Multiple(DestPages(n, s, d) - 1, d) < Multiple(n, s)
  {
    hide PageSize;
    hide PendingPage;
    SizesAligned(s, d);
    QuotientBounds(d, s);
    DestPagesEnough(n, s, d);
    var ratio := Quotient(d, s);
    assert ratio > 0 && Multiple(ratio, s) == d;
    RoundUp(n, ratio, s);
    var k := Quotient(n + ratio - 1, ratio);
    if k == PendingPage(d) {
      MultipleMonotone(k - 2, k - 1, d);
    }
  }

  lemma PendingEnds(n: nat, s: nat, d: nat)
    requires PageSize(s) && PageSize(d) && s >= d && n > 0 && n != PendingPage(s) && DestPages(n, s, d) > 0
    requires Multiple(DestPages(n, s, d), d) == Multiple(n, s)
    ensures DestPages(n, s, d) != PendingPage(d)
    ensures Multiple(DestPages(n, s, d) - 1, d) < Multiple(n, s)
  {
    hide PageSize;
    hide PendingPage;
    hide Quotient;
    hide Remainder;
    hide DestPages;
    PageSizeAtLeast(d);
    PendingAligned(d);
    PendingAligned(s);
    PageStarts(PendingPage(d), d);
    PageStarts(PendingPage(s), s);
    PagesApart(n, PendingPage(s), s);
    PageEnd(DestPages(n, s, d), d);
    if DestPages(n, s, d) == PendingPage(d) {
      assert Multiple(n, s) == PENDING_BYTE + d;
      PageStarts(n, s);
    }
  }

  /** n units of s fit in n / r rounded up units of r * s, and miss filling the last by less than one. */
  lemma RoundUp(n: nat, r: nat, s: nat)
    requires r > 0 && s > 0
    ensures var k := Quotient(n + r - 1, r);
      Multiple(n, s) <= Multiple(k, Multiple(r, s)) && (n > 0 ==> k > 0 && Multiple(k - 1, Multiple(r, s)) < Multiple(n, s))
  {
    var k := Quotient(n + r - 1, r);
    QuotientBounds(n + r - 1, r);
    MultipleMonotone(n, Multiple(k, r), s);
    MultipleOfMultiple(k, r, s);
    if n > 0 {
      MultipleOfMultiple(k - 1, r, s);
      MultipleMonotone(n, Multiple(k - 1, r), s);
    }
  }

  class Backup {
    /** the destination is in WAL mode; in memory */
    const wal: bool
    const memdb: bool

    /** page sizes of the source and of the destination */
    var s: nat
    var d: nat
    var src: seq<byte>
    var nSrc: nat
    /** the destination as its pager sees it, and as committed */
    var dest: seq<byte>
    var disk: seq<byte>

    var iNext: nat
    var rc: Code
    var isAttached: bool
    var bDestLocked: bool
    var iDestSchema: nat
    var nRemaining: int
    var nPagecount: nat

    /** how often a lock, memory, or a page or file operation was refused */
    ghost var refusals: nat
    /** the size of the source when a step last copied page 1 */
    ghost var nCounted: nat
    /** the source at the moment the backup was done */
    ghost var snapshot: Source

    /** The source as it is. */
    function Now(): Source
      reads `src, `nSrc, `s
    {
      Source(src, nSrc, s)
    }

    /** What the run of a backup is told by. */
    ghost function Held(): Progress
      reads `rc, `iNext, `dest, `disk, `snapshot, `nCounted
    {
      Progress(rc, iNext, dest, disk, snapshot, nCounted)
    }

    ghost predicate Sized()
      reads this
    {
      SourceOk(Now()) && PageSize(d) && iNext > 0
    }

    ghost predicate Valid()
      reads this
    {
      && Sized()
      && (!Fatal(rc) ==>
        && (iNext > 1 ==> isAttached && bDestLocked)
        && Current())
      && (rc == DONE ==> disk == dest && DoneWith(snapshot))
      && (!bDestLocked ==> disk == dest)
    }

    /** What lies below page iNext has been copied, and page 1 with a page count. */
    ghost predicate Current()
      requires iNext > 0
      reads `src, `dest, `s, `d, `iNext, `nCounted
    {
      Copied(src, dest, s, d, Multiple(iNext - 1, s)) && (iNext > 1 ==> Counted(src, dest, nCounted))
    }

    /** The destination is the backup of b; an empty source leaves the first page of an empty database. */
    ghost predicate DoneWith(b: Source)
      reads `dest, `nCounted
    {
      if b.bytes == [] then |dest| == b.pageSize else Faithful(b.bytes, dest, b.pageSize, wal, nCounted)
    }

    constructor (s: nat, d: nat, src: seq<byte>, nSrc: nat, disk: seq<byte>, wal: bool, memdb: bool)
      requires PageSize(s) && PageSize(d) && |src| == Multiple(nSrc, s) && nSrc != PendingPage(s)
      ensures Valid() && rc == OK && iNext == 1 && !isAttached && !bDestLocked
      ensures Now() == Source(src, nSrc, s) && this.disk == disk
    {
      this.s, this.d, this.wal, this.memdb := s, d, wal, memdb;
      this.src, this.nSrc, this.disk, this.dest := src, nSrc, disk, disk;
      iNext, rc, isAttached, bDestLocked := 1, OK, false, false;
      iDestSchema, nRemaining, nPagecount := 0, 0, 0;
    }

    /** A page or file operation, with both databases locked */
    method Attempt() returns (rc: Code)
      modifies `refusals
      ensures Locked(rc) && refusals == old(refusals) + if rc == OK then 0 else 1
    {
      rc := *;
      if !Locked(rc) {
        rc := IOERR;
      }
      refusals := refusals + if rc == OK then 0 else 1;
    }

    /** Opening a transaction, which may fail in any way */
    method Begin() returns (rc: Code)
      modifies `refusals
      ensures rc != DONE && refusals == old(refusals) + if rc == OK then 0 else 1
    {
      rc := *;
      if rc == DONE {
        rc := OK;
      }
      refusals := refusals + if rc == OK then 0 else 1;
    }

    function SourcePage(i: nat): (data: seq<byte>)
      requires Sized() && 0 < i <= nSrc
      reads this
      ensures |data| == s && PageStart(i, s) + s <= |src|
      ensures data == src[PageStart(i, s)..PageStart(i, s) + s]
    {
      PagesApart(i, i, s);
      MultipleMonotone(i, nSrc, s);
      src[PageStart(i, s)..PageStart(i, s) + s]
    }

    /** backupOnePage: source page i, whose contents are data, into the destination pages it spans. */
    method BackupOnePage(i: nat, data: seq<byte>, bUpdate: bool) returns (r: Code)
      requires Sized() && i > 0 && i != PendingPage(s) && |data| == s
      modifies `dest, `refusals
      ensures Locked(r) && refusals >= old(refusals) && (r == OK <==> refusals == old(refusals))
      ensures OnlyChanged(old(dest), dest, PageStart(i, s), PageStart(i, s) + s)
      ensures r == OK ==> Holds(dest, d, PageStart(i, s), data, PageStart(i, s), PageStart(i, s) + s, bUpdate)
      ensures r == OK && PageStart(i, s) == 0 && !bUpdate ==> HasCount(dest, nSrc)
    {
      hide Multiple;
      hide PageSize;
      hide Put4;
      hide PendingPage;
      PageSizeAtLeast(s);
      PageSizeAtLeast(d);
      var nCopy := if s < d then s else d;
      var iEnd := Multiple(i, s);
      PageStarts(i, s);
      var iOff: nat := PageStart(i, s);
      r := OK;
      ghost var a := iOff;
      while r == OK && iOff < iEnd
        invariant Locked(r) && iOff >= a && Aligned(iOff - a, d)
        invariant refusals >= old(refusals) && (r == OK <==> refusals == old(refusals))
        invariant OnlyChanged(old(dest), dest, a, a + s)
        invariant r == OK ==> Holds(dest, d, a, data, a, if iOff < a + s then iOff else a + s, bUpdate)
        invariant r == OK && a == 0 < iOff && !bUpdate ==> HasCount(dest, nSrc)
        decreases iEnd - iOff
      {
        r := CopyPiece(i, data, bUpdate, iOff, nCopy);
        iOff := iOff + d;
      }
    }

    /** One turn of backupOnePage's loop: the piece of source page i at file offset iOff. */
    method CopyPiece(i: nat, data: seq<byte>, bUpdate: bool, iOff: nat, nCopy: nat) returns (r: Code)
      requires Sized() && i > 0 && i != PendingPage(s) && |data| == s && nCopy == if s < d then s else d
      requires PageStart(i, s) <= iOff < PageStart(i, s) + s && Aligned(iOff - PageStart(i, s), d)
      modifies `dest, `refusals
      ensures refusals >= old(refusals) && (r == OK <==> refusals == old(refusals))
      ensures Locked(r) && Aligned(iOff + d - PageStart(i, s), d) && iOff + nCopy <= PageStart(i, s) + s
      ensures OnlyChanged(old(dest), dest, iOff, iOff + nCopy)
      ensures r == OK ==> Holds(dest, d, PageStart(i, s), data, iOff, iOff + nCopy, bUpdate)
      ensures r == OK && iOff == 0 && !bUpdate ==> HasCount(dest, nSrc)
    {
      hide Quotient;
      hide Remainder;
      hide Multiple;
      hide PageSize;
      hide InPending;
      hide PageStart;
      hide Extended;
      hide Patched;
      hide Put4;
      PageSizeAtLeast(s);
      PageSizeAtLeast(d);
      PiecePlace(i, iOff, s, d);
      var iDest := Quotient(iOff, d) + 1;
      if iDest == PendingPage(d) {
        return OK;
      }
      r := Attempt();
      if r == OK {
        var image := Extended(dest, Multiple(iDest, d));
        var zIn := data[Remainder(iOff, s)..Remainder(iOff, s) + nCopy];
        image := Patched(image, PageStart(iDest, d) + Remainder(iOff, d), zIn);
        if iOff == 0 && !bUpdate {
          PatchedPart(image, 28, Put4(nSrc));
          image := Patched(image, 28, Put4(nSrc));
        }
        dest := image;
      }
    }

    /** Take the write lock on the destination, after asking for the source's page size.  A
        destination that already has a page size keeps it. */
    method LockDestination() returns (r: Code)
      requires Sized() && !bDestLocked
      modifies `d, `dest, `bDestLocked, `iDestSchema, `refusals
      ensures Sized() && r != DONE && (r == OK <==> bDestLocked)
      ensures refusals >= old(refusals) && (r == OK <==> refusals == old(refusals))
      ensures r != OK ==> dest == old(dest)
    {
      hide Multiple;
      hide PendingPage;
      assert 512 in [512, 1024, 2048, 4096, 8192, 16384, 32768, 65536];
      var given: Code := *;
      if given != NOMEM {
        if * {
          d := s;
        }
      } else {
        refusals := refusals + 1;
        return NOMEM;
      }
      r := Begin();
      if r == OK {
        bDestLocked := true;
        if * {
          var size: nat :| size in [512, 1024, 2048, 4096, 8192, 16384, 32768, 65536];
          d := size;
        }
        dest := disk;
        iDestSchema := *;
      }
    }

    /** sqlite3_backup_step: copy up to nPage pages, or all of them when nPage is negative. */
    method Step(nPage: int, writing: bool) returns (r: Code)
      requires Valid()
      modifies this
      ensures Valid() && r == rc && Now() == old(Now())
      ensures nCounted == old(nCounted) || nCounted == nSrc
      ensures Fatal(old(rc)) ==> r == old(rc) && Held() == old(Held())
      ensures !Fatal(old(rc)) && writing ==> r == BUSY && iNext == old(iNext) && dest == old(dest)
      ensures r == OK ==>
        && nPage >= 0 && iNext == old(iNext) + nPage && iNext <= nSrc && isAttached
        && nPagecount == nSrc && nRemaining == nSrc + 1 - iNext
      ensures r == BUSY || r == LOCKED ==> iNext == old(iNext)
      ensures r == DONE && !Fatal(old(rc)) ==> snapshot == Now() && OwnHeader() && (nPage < 0 || nSrc < old(iNext) + nPage)
      ensures r == DONE && !Fatal(old(rc)) && old(iNext) == 1 && nSrc > 0 ==> HasCount(dest, nSrc)
      ensures (r == DONE || !Fatal(r)) && !Fatal(old(rc)) && old(iNext) == 1 < iNext ==> nCounted == nSrc
      ensures r == DONE && !Fatal(old(rc)) ==> iNext > nSrc
      ensures r == DONE && !Fatal(old(rc)) && (wal || memdb) ==> s == d
      ensures r != DONE ==> disk == old(disk)
      ensures old(rc) in {READONLY, NOMEM, IOERR, IOERR_NOMEM, DONE} ==> r == old(rc)
      ensures old(rc) in {OK, BUSY, LOCKED} ==>
        (r == OK || r == DONE <==> !writing && refusals == old(refusals) && (s == d || (!wal && !memdb)))
      ensures refusals >= old(refusals)
    {
      hide Multiple;
      hide PageSize;
      hide SourceOk;
      hide DoneWith;
      hide Current;
      hide OwnHeader;
      hide HasCount;
      if Fatal(rc) {
        return rc;
      }
      if writing {
        rc := BUSY;
        return BUSY;
      }
      r := Advance(nPage);
      rc := r;
    }

    /** A step, but for keeping its result. */
    method Advance(nPage: int) returns (r: Code)
      requires Valid() && !Fatal(rc)
      modifies `d, `dest, `disk, `iNext, `isAttached, `bDestLocked, `iDestSchema, `nRemaining, `nPagecount, `nCounted, `snapshot, `refusals
      ensures refusals >= old(refusals)
      ensures r == OK || r == DONE <==> refusals == old(refusals) && (s == d || (!wal && !memdb))
      ensures Sized() && (nCounted == old(nCounted) || nCounted == nSrc)
      ensures !Fatal(r) ==> (iNext > 1 ==> isAttached && bDestLocked) && Current()
      ensures !bDestLocked ==> disk == dest
      ensures r == OK ==>
        && nPage >= 0 && iNext == old(iNext) + nPage && iNext <= nSrc && isAttached
        && nPagecount == nSrc && nRemaining == nSrc + 1 - iNext
      ensures r == BUSY || r == LOCKED ==> iNext == old(iNext)
      ensures r == DONE ==> disk == dest && snapshot == Now() && DoneWith(snapshot) && OwnHeader()
      ensures r == DONE ==> (nPage < 0 || nSrc < old(iNext) + nPage) && (wal || memdb ==> s == d)
      ensures r == DONE && old(iNext) == 1 && nSrc > 0 ==> HasCount(dest, nSrc)
      ensures (r == DONE || !Fatal(r)) && old(iNext) == 1 < iNext ==> nCounted == nSrc
      ensures r == DONE ==> iNext > nSrc
      ensures r != DONE ==> disk == old(disk)
    {
      hide Multiple;
      hide PageSize;
      hide SourceOk;
      hide DoneWith;
      hide Current;
      hide OwnHeader;
      hide HasCount;
      r := OpenBoth();
      if r == OK {
        r := CopyPages(nPage);
      }
      if r == OK {
        r := EndStep();
      }
      if r == IOERR_NOMEM {
        r := NOMEM;
      }
    }

    /** After the step's loop: count what is left, and either complete the backup or make sure that
        the source reports its changes. */
    method EndStep() returns (r: Code)
      requires Sized() && bDestLocked && Current()
      modifies `dest, `disk, `snapshot, `nPagecount, `nRemaining, `isAttached, `refusals
      ensures refusals >= old(refusals) && (r == OK || r == DONE <==> refusals == old(refusals))
      ensures nPagecount == nSrc && nRemaining == nSrc + 1 - iNext
      ensures if iNext > nSrc then r == DONE || (Locked(r) && r != OK) else r == OK && isAttached && dest == old(dest)
      ensures r == DONE ==> snapshot == Now() && disk == dest && DoneWith(Now()) && OwnHeader()
      ensures r == DONE && nSrc > 0 && HasCount(old(dest), nSrc) ==> HasCount(dest, nSrc)
      ensures r != DONE ==> disk == old(disk) && snapshot == old(snapshot)
    {
      hide Multiple;
      hide PageSize;
      hide Faithful;
      hide PendingPage;
      hide Copied;
      hide Counted;
      hide OwnHeader;
      nPagecount, nRemaining := nSrc, nSrc + 1 - iNext;
      if iNext > nSrc {
        r := Complete();
        return;
      }
      if !isAttached {
        isAttached := true;
      }
      r := OK;
    }

    /** The step's way to its loop: a read transaction on the source, the lock on the destination. */
    method OpenBoth() returns (r: Code)
      requires Valid() && !Fatal(rc)
      modifies `d, `dest, `bDestLocked, `iDestSchema, `refusals
      ensures Sized() && r != DONE && refusals >= old(refusals)
      ensures r == OK <==> refusals == old(refusals) && (s == d || (!wal && !memdb))
      ensures old(bDestLocked) ==> bDestLocked && d == old(d) && dest == old(dest)
      ensures Current()
      ensures r == OK ==> bDestLocked && (s == d || (!wal && !memdb))
      ensures !bDestLocked ==> dest == old(dest)
    {
      hide PageSize;
      NothingCopied(src, dest, s, d);
      r := Begin();
      if r == OK && !bDestLocked {
        r := LockDestination();
        NothingCopied(src, dest, s, d);
      }
      if r == OK && (wal || memdb) && s != d {
        r := READONLY;
      }
    }

    /** The step's loop over source pages. */
    method CopyPages(nPage: int) returns (r: Code)
      requires Sized() && bDestLocked && Current()
      modifies `dest, `iNext, `nCounted, `refusals
      ensures refusals >= old(refusals) && (r == OK <==> refusals == old(refusals))
      ensures Sized() && Locked(r) && (nCounted == old(nCounted) || nCounted == nSrc)
      ensures r == OK ==> Current()
      ensures r == OK && old(iNext) == 1 < iNext ==> HasCount(dest, nSrc) && nCounted == nSrc
      ensures r == OK ==> iNext == old(iNext) || iNext <= nSrc + 1
      ensures r == OK && iNext <= nSrc ==> nPage >= 0 && iNext == old(iNext) + nPage
      ensures r == OK && iNext > nSrc ==> nPage < 0 || nSrc < old(iNext) + nPage
    {
      hide Multiple;
      hide PageSize;
      hide HasCount;
      hide Current;
      hide PendingPage;
      r := OK;
      var ii := 0;
      while (nPage < 0 || ii < nPage) && iNext <= nSrc && r == OK
        invariant Sized() && Locked(r) && iNext == old(iNext) + ii && (nCounted == old(nCounted) || nCounted == nSrc)
        invariant refusals >= old(refusals) && (r == OK <==> refusals == old(refusals))
        invariant r == OK ==> Current()
        invariant r == OK && old(iNext) == 1 < iNext ==> HasCount(dest, nSrc) && nCounted == nSrc
        invariant iNext == old(iNext) || iNext <= nSrc + 1
        invariant nPage >= 0 ==> ii == 0 || ii <= nPage
        decreases nSrc - iNext
      {
        r := CopyNext();
        ii := ii + 1;
      }
    }

    /** One turn of the step's loop. */
    method CopyNext() returns (r: Code)
      requires Sized() && bDestLocked && Current() && iNext <= nSrc
      modifies `dest, `iNext, `nCounted, `refusals
      ensures refusals >= old(refusals) && (r == OK <==> refusals == old(refusals))
      ensures Sized() && Locked(r) && iNext == old(iNext) + 1 && (nCounted == old(nCounted) || nCounted == nSrc)
      ensures r == OK ==> Current() && |dest| >= |old(dest)|
      ensures r == OK && old(iNext) == 1 ==> HasCount(dest, nSrc) && nCounted == nSrc
      ensures r == OK && old(iNext) > 1 && HasCount(old(dest), nSrc) ==> HasCount(dest, nSrc)
      ensures old(iNext) > 1 ==> nCounted == old(nCounted)
    {
      hide Multiple;
      hide PageSize;
      hide PendingPage;
      hide Put4;
      PageSizeAtLeast(s);
      r := OK;
      var iSrcPg := iNext;
      FirstPage(iSrcPg, s);
      ghost var was, page := dest, SourcePage(iSrcPg);
      if iSrcPg != PendingPage(s) {
        r := Attempt();
        if r == OK {
          r := BackupOnePage(iSrcPg, SourcePage(iSrcPg), false);
        }
      }
      if r == OK {
        CopiedPage(src, was, dest, s, d, iSrcPg, iSrcPg - 1, false);
        if iSrcPg == 1 {
          nCounted := nSrc;
        } else {
          StillCounted(src, was, dest, nCounted, PageStart(iSrcPg, s), PageStart(iSrcPg, s) + s);
        }
      }
      iNext := iNext + 1;
    }

    /** The last part of the step that copies the last page. */
    method Complete() returns (r: Code)
      requires Sized() && bDestLocked && iNext > nSrc && Current()
      modifies `dest, `disk, `snapshot, `refusals
      ensures refusals >= old(refusals) && (r == DONE <==> refusals == old(refusals))
      ensures r == DONE || (Locked(r) && r != OK)
      ensures r == DONE ==> snapshot == Now() && disk == dest && DoneWith(Now()) && OwnHeader()
      ensures r == DONE && nSrc > 0 && HasCount(old(dest), nSrc) ==> HasCount(dest, nSrc)
      ensures r != DONE ==> disk == old(disk) && snapshot == old(snapshot)
    {
      hide Multiple;
      hide PageSize;
      hide CopiedAll;
      hide Faithful;
      hide Copied;
      hide Counted;
      hide OwnHeader;
      hide BodyCopied;
      PageSizeAtLeast(s);
      PageSizeAtLeast(d);
      CopiedWhole(src, dest, s, d, wal, iNext - 1, nSrc);
      var nSrcPage := nSrc;
      NoPages(s);
      if nSrcPage == 0 {
        r := NewDatabase();
        if r != OK {
          return;
        }
        nSrcPage := 1;
        NothingToCopy();
      } else {
        HeaderCopied(src, dest, s, d, wal, nSrc);
      }
      r := CompleteTo(nSrcPage);
      if r == OK {
        if nSrc > 0 {
          BackupOf(old(dest));
        }
        disk, snapshot := dest, Now();
        r := DONE;
      }
    }

    lemma NothingToCopy()
      requires src == []
      ensures CopiedAll(src, dest, s, d, wal)
    {
    }

    /** The results of finishing, put together. */
    lemma BackupOf(copied: seq<byte>)
      requires Counted(src, copied, nCounted) && |copied| >= 512
      requires BodyCopied() && |dest| == |src| >= 512 && dest[28..32] == copied[28..32]
      ensures Faithful(src, dest, s, wal, nCounted)
    {
      hide Put4;
    }

    /** Write the header, give the file its length, commit. */
    method CompleteTo(nSrcPage: nat) returns (r: Code)
      requires Sized() && |dest| >= 512 && CopiedAll(src, dest, s, d, wal)
      requires if nSrc == 0 then nSrcPage == 1 && |dest| >= d else nSrcPage == nSrc
      modifies `dest, `refusals
      ensures refusals >= old(refusals) && (r == OK <==> refusals == old(refusals))
      ensures Locked(r)
      ensures r == OK ==> |dest| == Multiple(nSrcPage, s) >= 512 && BodyCopied() && OwnHeader() && dest[28..32] == old(dest)[28..32]
    {
      hide Multiple;
      hide PageSize;
      hide BodyCopied;
      hide Put4;
      PageAtLeast(nSrcPage, s);
      r := WriteHeader();
      if r != OK {
        return;
      }
      CountLeft(old(dest), dest, wal);
      ghost var written := dest;
      if s < d {
        r := WriteTail(nSrcPage);
      } else {
        r := CutPages(nSrcPage);
      }
      if r == OK {
        r := Attempt();
      }
      if r == OK {
        FieldsKept(written, dest);
      }
    }

    /** The schema cookie has moved on, and a WAL destination says that it is one. */
    ghost predicate OwnHeader()
      reads this`dest, this`iDestSchema
    {
      |dest| >= 512 && dest[40..44] == Put4(iDestSchema + 1) && (wal ==> dest[18] == 2 && dest[19] == 2)
    }

    /** Lay out the first page of an empty database. */
    method NewDatabase() returns (r: Code)
      requires Sized() && src == []
      modifies `dest, `refusals
      ensures refusals >= old(refusals) && (r == OK <==> refusals == old(refusals))
      ensures Locked(r) && |dest| >= |old(dest)| && (r == OK ==> |dest| >= d)
    {
      r := Attempt();
      if r == OK {
        assert |seq<byte>(d, _ => 0)| == d;
        var page: seq<byte> :| |page| == d;
        dest := Patched(Extended(dest, d), 0, page);
      }
    }

    /** The fields of page 1 that the destination keeps for itself: the schema cookie, the file format
        of a WAL database, and what the pager writes at every commit. */
    method WriteHeader() returns (r: Code)
      requires Sized() && |dest| >= 512
      modifies `dest, `refusals
      ensures refusals >= old(refusals) && (r == OK <==> refusals == old(refusals))
      ensures Locked(r) && |dest| == |old(dest)|
      ensures forall o :: 0 <= o < |dest| && !Rewritten(wal, o) ==> dest[o] == old(dest)[o]
      ensures r == OK ==> OwnHeader()
    {
      hide Put4;
      hide Patched;
      r := Attempt();
      if r != OK {
        return;
      }
      dest := Patched(dest, 40, Put4(iDestSchema + 1));
      if wal {
        r := Attempt();
        if r != OK {
          return;
        }
        dest := Patched(dest, 18, [2, 2]);
      }
      var change: nat := *;
      var version: nat := *;
      dest := Patched(dest, 24, Put4(change));
      dest := Patched(dest, 92, Put4(change) + Put4(version));
    }

    /** The source bytes outside the source's pending-byte page are in place, but for the header. */
    ghost predicate BodyCopied()
      reads this
    {
      forall o :: 0 <= o < |src| && !InPending(s, o) && !Header(wal, o) ==> o < |dest| && dest[o] == src[o]
    }

    /** The end of a backup into pages no larger: cut the destination after the last page.  It gets no
        longer, unless the source is empty and the destination has less than one page of the source. */
    method CutPages(nSrcPage: nat) returns (r: Code)
      requires Sized() && s >= d && CopiedAll(src, dest, s, d, wal) && nSrcPage == if nSrc == 0 then 1 else nSrc
      requires |dest| >= 512
      modifies `dest, `refusals
      ensures refusals >= old(refusals) && (r == OK <==> refusals == old(refusals))
      ensures Locked(r) && |dest| == Multiple(nSrcPage, s) && BodyCopied() && HeaderKept(old(dest), dest)
      ensures |dest| > |old(dest)| <==> nSrc == 0 && |old(dest)| < s
    {
      hide Multiple;
      hide PageSize;
      hide Quotient;
      hide PendingPage;
      hide HeaderKept;
      hide DestPages;
      PageSizeAtLeast(d);
      NoPages(s);
      var nDestTruncate := DestPages(nSrcPage, s, d);
      DestPagesEnough(nSrcPage, s, d);
      PageAtLeast(nSrcPage, s);
      if nSrc > 0 {
        LastByteCopied(src, dest, s, d, wal, nSrc);
      }
      HeaderCut(dest, Multiple(nDestTruncate, d));
      dest := Extended(dest, Multiple(nDestTruncate, d))[..Multiple(nDestTruncate, d)];
      r := Attempt();
    }

    /** The end of a backup into larger pages: past the pager, the source pages that lie in the
        destination's pending-byte page, then the exact length. */
    method WriteTail(nSrcPage: nat) returns (r: Code)
      requires Sized() && s < d && CopiedAll(src, dest, s, d, wal) && |dest| >= 512
      requires if nSrc == 0 then nSrcPage == 1 && |dest| >= d else nSrcPage == nSrc
      modifies `dest, `refusals
      ensures refusals >= old(refusals) && (r == OK <==> refusals == old(refusals))
      ensures Locked(r)
      ensures r == OK ==> |dest| == Multiple(nSrcPage, s) && BodyCopied() && HeaderKept(old(dest), dest)
    {
      hide Multiple;
      hide PageSize;
      hide PendingPage;
      PageSizeAtLeast(s);
      NoPages(s);
      var iSize := Multiple(nSrcPage, s);
      r := WriteMissing(nSrcPage, iSize);
      if r != OK {
        return;
      }
      PageAtLeast(nSrcPage, s);
      TailLongEnough(nSrcPage, iSize);
      if |dest| > iSize {
        dest := dest[..iSize];
      }
      r := Attempt();
    }

    /** With the missing pages the destination is at least as long as the source. */
    lemma TailLongEnough(nSrcPage: nat, iSize: nat)
      requires Sized() && s < d && CopiedAll(src, dest, s, d, wal) && iSize == Multiple(nSrcPage, s)
      requires if nSrc == 0 then nSrcPage == 1 && |dest| >= d else nSrcPage == nSrc
      requires forall o :: PENDING_BYTE + s <= o < |src| && InPending(d, o) ==> SameAt(src, dest, o)
      ensures |dest| >= iSize && |src| <= iSize && BodyCopied()
    {
      hide Multiple;
      hide PageSize;
      hide PendingPage;
      NoPages(s);
      if nSrc > 0 {
        LastByteCopied(src, dest, s, d, wal, nSrc);
        assert InPending(d, |src| - 1) ==> SameAt(src, dest, |src| - 1);
      }
      forall o | 0 <= o < |src| && !InPending(s, o) && !Header(wal, o) ensures o < |dest| && dest[o] == src[o] {
        assert InPending(d, o) ==> SameAt(src, dest, o);
      }
    }

    /** The loop of OS writes. */
    method WriteMissing(nSrcPage: nat, iSize: nat) returns (r: Code)
      requires Sized() && s < d && CopiedAll(src, dest, s, d, wal) && iSize == Multiple(nSrcPage, s)
      requires nSrcPage == if nSrc == 0 then 1 else nSrc
      modifies `dest, `refusals
      ensures refusals >= old(refusals) && (r == OK <==> refusals == old(refusals))
      ensures Locked(r) && OnlyChanged(old(dest), dest, PENDING_BYTE + s, |dest|)
      ensures r == OK ==> CopiedAll(src, dest, s, d, wal)
      ensures r == OK ==> forall o :: PENDING_BYTE + s <= o < |src| && InPending(d, o) ==> SameAt(src, dest, o)
    {
      hide Multiple;
      hide PageSize;
      hide Quotient;
      hide PendingPage;
      hide Extended;
      hide Patched;
      hide CopiedAll;
      PageSizeAtLeast(s);
      NoPages(s);
      var iEnd := if PENDING_BYTE + d < iSize then PENDING_BYTE + d else iSize;
      ghost var lo := PENDING_BYTE + s;
      var iOff := PENDING_BYTE + s;
      r := Attempt();
      PendingAligned(s);
      PendingEnd(s);
      while r == OK && iOff < iEnd
        invariant Locked(r) && iOff >= lo && Aligned(iOff, s)
        invariant refusals >= old(refusals) && (r == OK <==> refusals == old(refusals))
        invariant OnlyChanged(old(dest), dest, lo, iOff)
        invariant r == OK ==> forall o :: lo <= o < iOff ==> SameAt(src, dest, o)
      {
        TailPage(iOff, nSrcPage, s);
        var iSrcPg := Quotient(iOff, s) + 1;
        ghost var was := dest;
        r := WriteSourcePage(iSrcPg, iOff);
        if r == OK {
          SameFurther(src, was, dest, lo, iOff, iOff + s);
        }
        iOff := iOff + s;
      }
      if r == OK {
        StillCopied(src, old(dest), dest, s, d, wal, lo, iOff);
      }
    }

    /** One turn of that loop: get the source page, write it. */
    method WriteSourcePage(iSrcPg: nat, iOff: nat) returns (r: Code)
      requires Sized() && 0 < iSrcPg <= nSrc && iOff == PageStart(iSrcPg, s)
      modifies `dest, `refusals
      ensures refusals >= old(refusals) && (r == OK <==> refusals == old(refusals))
      ensures Locked(r) && OnlyChanged(old(dest), dest, iOff, iOff + s)
      ensures r == OK ==> iOff + s <= |dest| && iOff + s <= |src| && dest[iOff..iOff + s] == src[iOff..iOff + s]
    {
      hide Extended;
      hide Patched;
      hide PageStart;
      hide PageSize;
      r := Attempt();
      if r == OK {
        r := Attempt();
        if r == OK {
          PatchedPart(Extended(dest, iOff + s), iOff, SourcePage(iSrcPg));
          dest := Patched(Extended(dest, iOff + s), iOff, SourcePage(iSrcPg));
        }
      }
    }

    /** sqlite3BackupUpdate: source page i, now holding data, is copied again if it had been copied. */
    method BackupUpdate(i: nat, data: seq<byte>)
      requires Sized() && i > 0 && i != PendingPage(s) && |data| == s
      requires !Fatal(rc) && i < iNext ==> bDestLocked
      modifies `dest, `rc, `refusals
      ensures refusals >= old(refusals) && (refusals == old(refusals) ==> rc == old(rc))
      ensures Fatal(old(rc)) || i >= iNext ==> dest == old(dest) && rc == old(rc)
      ensures !Fatal(old(rc)) && i < iNext ==>
        && OnlyChanged(old(dest), dest, PageStart(i, s), PageStart(i, s) + s)
        && (rc == old(rc) || (Fatal(rc) && rc != DONE))
        && (!Fatal(rc) ==> Holds(dest, d, PageStart(i, s), data, PageStart(i, s), PageStart(i, s) + s, true))
    {
      hide Multiple;
      hide PageSize;
      if !Fatal(rc) && i < iNext {
        var r := BackupOnePage(i, data, true);
        if r != OK {
          rc := r;
        }
      }
    }

    /** The source's pager reports to an attached backup that page i, changed from before, holds data. */
    method Report(i: nat, data: seq<byte>, ghost before: seq<byte>)
      requires Sized() && i > 0 && i != PendingPage(s) && |data| == s
      requires PageChanged(before, src, s, PageStart(i, s)) && src[PageStart(i, s)..PageStart(i, s) + s] == data
      requires !Fatal(rc) ==>
        && (iNext > 1 ==> isAttached && bDestLocked && Counted(before, dest, nCounted))
        && Copied(before, dest, s, d, Multiple(iNext - 1, s))
      modifies `dest, `rc, `refusals
      ensures refusals >= old(refusals) && (refusals == old(refusals) ==> rc == old(rc))
      ensures Fatal(old(rc)) ==> dest == old(dest) && rc == old(rc)
      ensures !Fatal(rc) ==> rc == old(rc) && Current()
      ensures rc == DONE ==> old(rc) == DONE
      ensures !bDestLocked ==> dest == old(dest)
    {
      hide Multiple;
      hide PageSize;
      hide PageStart;
      hide Counted;
      PageSizeAtLeast(s);
      FirstPage(i, s);
      ghost var was := dest;
      if isAttached {
        BackupUpdate(i, data);
      }
      if !Fatal(rc) {
        CopiedBefore(before, src, was, s, d, iNext - 1, i);
        if iNext > i {
          CopiedPage(src, was, dest, s, d, i, iNext - 1, true);
          CountRenewed(before, src, was, dest, s, d, i, nCounted);
        } else if iNext > 1 {
          CountUntouched(before, src, dest, s, PageStart(i, s), nCounted);
        }
      }
    }

    /** A writer of the source stores data in page i. */
    method SourceWrite(i: nat, data: seq<byte>)
      requires Valid() && 0 < i <= nSrc && i != PendingPage(s) && |data| == s
      modifies `src, `dest, `rc, `refusals
      ensures refusals >= old(refusals) && (refusals == old(refusals) ==> rc == old(rc))
      ensures Valid() && nSrc == old(nSrc)
      ensures PageStart(i, s) + s <= |old(src)| && src == Patched(old(src), PageStart(i, s), data)
      ensures Fatal(old(rc)) ==> dest == old(dest) && rc == old(rc)
      ensures rc == DONE ==> old(rc) == DONE
    {
      hide Multiple;
      hide PageSize;
      hide Patched;
      hide Faithful;
      PageSizeAtLeast(s);
      ghost var before, page := src, SourcePage(i);
      src := Patched(src, PageStart(i, s), data);
      assert src[PageStart(i, s)..PageStart(i, s) + s] == data;
      Report(i, data, before);
    }

    /** A writer of the source adds a page at its end, stepping over the pending-byte page. */
    method SourceAppend(skipped: seq<byte>, data: seq<byte>)
      requires Valid() && |data| == s && |skipped| == if nSrc + 1 == PendingPage(s) then s else 0
      modifies `src, `nSrc, `dest, `rc, `refusals
      ensures refusals >= old(refusals) && (refusals == old(refusals) ==> rc == old(rc))
      ensures Valid() && src == old(src) + skipped + data
      ensures nSrc == old(nSrc) + if old(nSrc) + 1 == PendingPage(s) then 2 else 1
      ensures Fatal(old(rc)) ==> dest == old(dest) && rc == old(rc)
      ensures rc == DONE ==> old(rc) == DONE
    {
      hide Multiple;
      hide PageSize;
      hide InPending;
      hide Faithful;
      hide Copied;
      hide Counted;
      PageSizeAtLeast(s);
      var i := if nSrc + 1 == PendingPage(s) then nSrc + 2 else nSrc + 1;
      AppendedPage(nSrc, i, s);
      ghost var before := src;
      TailOf(src, skipped, data);
      src, nSrc := src + skipped + data, i;
      Report(i, data, before);
    }

    /** A writer of the source drops the pages past the first n. */
    method SourceTruncate(n: nat)
      requires Valid() && n <= nSrc && n != PendingPage(s)
      modifies `src, `nSrc
      ensures Valid() && nSrc == n && Multiple(n, s) <= |old(src)| && src == old(src)[..Multiple(n, s)]
    {
      hide PageSize;
      hide Copied;
      hide Counted;
      hide Faithful;
      PageSizeAtLeast(s);
      MultipleMonotone(n, nSrc, s);
      CutSource(src, dest, s, d, Multiple(iNext - 1, s), nCounted, Multiple(n, s));
      src, nSrc := src[..Multiple(n, s)], n;
    }

    /** Another process changes the source, perhaps giving it another page size: sqlite3BackupRestart. */
    method SourceChanged(now: Source)
      requires Valid() && SourceOk(now)
      modifies `src, `nSrc, `s, `iNext
      ensures Valid() && Now() == now && (isAttached ==> iNext == 1)
    {
      hide PageSize;
      src, nSrc, s := now.bytes, now.pages, now.pageSize;
      if isAttached {
        iNext := 1;
      }
      NothingCopied(src, dest, s, d);
    }

    /** sqlite3_backup_finish: what has not been committed is rolled back. */
    method Finish() returns (r: Code)
      requires Valid()
      modifies `isAttached, `bDestLocked, `dest
      ensures r == (if rc == DONE then OK else rc) && !isAttached && !bDestLocked
      ensures dest == disk && (rc == DONE ==> dest == old(dest) && DoneWith(snapshot))
    {
      isAttached := false;
      if bDestLocked {
        dest, bDestLocked := disk, false;
      }
      r := if rc == DONE then OK else rc;
    }
  }

  /** What can happen while backups of one source go on: a step of one of them, or a change of the
      source. */
  datatype Event =
    | DoStep(backup: nat, nPage: int, writing: bool)
    | DoWrite(page: nat, data: seq<byte>)
    | DoAppend(skipped: seq<byte>, data: seq<byte>)
    | DoTruncate(pages: nat)
    | DoChange(now: Source)

  /** The event can happen to this source. */
  predicate Applies(x: Source, e: Event)
    requires SourceOk(x)
  {
    match e
    case DoStep(_, _, _) => true
    case DoWrite(page, data) => 0 < page <= x.pages && page != PendingPage(x.pageSize) && |data| == x.pageSize
    case DoAppend(skipped, data) =>
      |data| == x.pageSize && |skipped| == if x.pages + 1 == PendingPage(x.pageSize) then x.pageSize else 0
    case DoTruncate(pages) => pages <= x.pages && pages != PendingPage(x.pageSize)
    case DoChange(now) => SourceOk(now)
  }

  /** What the event makes of the source. */
  ghost function After(x: Source, e: Event): (y: Source)
    requires SourceOk(x)
    ensures SourceOk(y)
  {
    if !Applies(x, e) then x
    else match e
      case DoStep(_, _, _) => x
      case DoWrite(page, data) =>
        PageWithin(page, x.pages, x.pageSize);
        x.(bytes := Patched(x.bytes, PageStart(page, x.pageSize), data))
      case DoAppend(skipped, data) =>
        var i := if x.pages + 1 == PendingPage(x.pageSize) then x.pages + 2 else x.pages + 1;
        AppendedPage(x.pages, i, x.pageSize);
        x.(bytes := x.bytes + skipped + data, pages := i)
      case DoTruncate(pages) =>
        PageSizeAtLeast(x.pageSize);
        MultipleMonotone(pages, x.pages, x.pageSize);
        x.(bytes := x.bytes[..Multiple(pages, x.pageSize)], pages := pages)
      case DoChange(now) => now
  }

  lemma PageWithin(page: nat, n: nat, s: nat)
    requires 0 < page <= n && PageSize(s)
    ensures PageStart(page, s) + s <= Multiple(n, s)
  {
    hide Multiple;
    PageEnd(page, s);
    MultipleMonotone(page, n, s);
  }

  // What can happen, and what it does

  /** Any page but the pending one is written. */
  lemma WritesHappen(x: Source, page: nat, data: seq<byte>)
    requires SourceOk(x) && |data| == x.pageSize && 0 < page <= x.pages && page != PendingPage(x.pageSize)
    ensures PageStart(page, x.pageSize) + |data| <= |x.bytes|
    ensures After(x, DoWrite(page, data)) == x.(bytes := Patched(x.bytes, PageStart(page, x.pageSize), data))
  {
    hide Multiple;
    hide PageSize;
    hide PendingPage;
    hide Patched;
    PageWithin(page, x.pages, x.pageSize);
  }

  /** A page is added, and the pending one stepped over. */
  lemma AppendsHappen(x: Source, skipped: seq<byte>, data: seq<byte>)
    requires SourceOk(x) && |data| == x.pageSize
    ensures x.pages + 1 != PendingPage(x.pageSize) && skipped == [] ==>
      After(x, DoAppend(skipped, data)) == x.(bytes := x.bytes + data, pages := x.pages + 1)
    ensures x.pages + 1 == PendingPage(x.pageSize) && |skipped| == x.pageSize ==>
      After(x, DoAppend(skipped, data)) == x.(bytes := x.bytes + skipped + data, pages := x.pages + 2)
  {
    hide Multiple;
    hide PageSize;
    hide PendingPage;
    assert skipped == [] ==> x.bytes + skipped + data == x.bytes + data;
  }

  /** Pages are dropped at the end; the file is replaced by any other. */
  lemma OtherEventsHappen(x: Source, pages: nat, now: Source)
    requires SourceOk(x)
    ensures pages <= x.pages && pages != PendingPage(x.pageSize) ==>
      && Multiple(pages, x.pageSize) <= |x.bytes|
      && After(x, DoTruncate(pages)) == x.(bytes := x.bytes[..Multiple(pages, x.pageSize)], pages := pages)
    ensures SourceOk(now) ==> After(x, DoChange(now)) == now
  {
    hide Multiple;
    hide PageSize;
    hide PendingPage;
    PageSizeAtLeast(x.pageSize);
    if pages <= x.pages {
      MultipleMonotone(pages, x.pages, x.pageSize);
    }
  }

  /** The source after a run of events. */
  ghost function Evolved(x: Source, events: seq<Event>): (y: Source)
    requires SourceOk(x)
    ensures SourceOk(y)
  {
    if events == [] then x else After(Evolved(x, events[..|events| - 1]), events[|events| - 1])
  }

  ghost predicate IsStep(e: Event, i: nat) {
    e.DoStep? && e.backup == i
  }

  /** A finished backup stays as it is, and an unfinished one has committed nothing. */
  ghost predicate Lasting(was: Progress, now: Progress) {
    && (Fatal(was.rc) ==> now.rc == was.rc)
    && (was.rc == DONE ==> now.dest == was.dest && now.disk == was.disk && now.snapshot == was.snapshot)
    && (now.rc != DONE ==> now.disk == was.disk)
  }

  /** Page 1 is in the destination: the backup is past it, or done with a source that has one. */
  ghost predicate PastFirst(p: Progress) {
    (!Fatal(p.rc) && p.iNext > 1) || (p.rc == DONE && p.snapshot.bytes != [])
  }

  /** Before page 1 */
  ghost predicate AtFirst(p: Progress) {
    !Fatal(p.rc) && p.iNext <= 1
  }

  /** What event e, when the source was x, does to backup i. */
  ghost predicate Reacted(x: Source, e: Event, i: nat, was: Progress, now: Progress) {
    && Lasting(was, now)
    && (was.rc != DONE && now.rc == DONE ==> IsStep(e, i) && now.snapshot == x)
    && (now.nCounted == was.nCounted || (IsStep(e, i) && !Fatal(was.rc) && now.nCounted == x.pages))
    && (AtFirst(was) && PastFirst(now) ==> IsStep(e, i) && now.nCounted == x.pages)
  }

  /** y is what the source was at one of backup i's steps in the run. */
  ghost predicate Stepped(x: Source, events: seq<Event>, i: nat, y: Source)
    requires SourceOk(x)
  {
    exists k: nat :: k < |events| && IsStep(events[k], i) && y == Evolved(x, events[..k])
  }

  /** What a run from source x has done to backup i.  If it is done, it is the backup of the source as it
      was at one of its own steps; and its page count is that of the source at one of its own steps. */
  ghost predicate Ran(x: Source, events: seq<Event>, i: nat, was: Progress, now: Progress)
    requires SourceOk(x)
  {
    && Lasting(was, now)
    && (was.rc != DONE && now.rc == DONE ==> Stepped(x, events, i, now.snapshot))
    && (AtFirst(was) && PastFirst(now) ==> exists y :: Stepped(x, events, i, y) && now.nCounted == y.pages)
  }

  lemma RanNothing(x: Source, i: nat, was: Progress)
    requires SourceOk(x)
    ensures Evolved(x, []) == x && Ran(x, [], i, was, was)
  {
  }

  lemma EvolvedOn(x: Source, events: seq<Event>, n: nat)
    requires SourceOk(x) && n < |events|
    ensures Evolved(x, events[..n + 1]) == After(Evolved(x, events[..n]), events[n])
  {
    assert events[..n + 1][..n] == events[..n];
  }

  lemma SteppedAt(x: Source, events: seq<Event>, k: nat, n: nat, i: nat)
    requires SourceOk(x) && k < n <= |events| && IsStep(events[k], i)
    ensures Stepped(x, events[..n], i, Evolved(x, events[..k]))
  {
    hide Evolved;
    hide IsStep;
    assert events[..n][..k] == events[..k] && events[..n][k] == events[k];
  }

  lemma SteppedBefore(x: Source, events: seq<Event>, n: nat, i: nat, y: Source) returns (k: nat)
    requires SourceOk(x) && n <= |events| && Stepped(x, events[..n], i, y)
    ensures k < n && IsStep(events[k], i) && y == Evolved(x, events[..k])
  {
    hide Evolved;
    hide IsStep;
    k :| k < n && IsStep(events[..n][k], i) && y == Evolved(x, events[..n][..k]);
    assert events[..n][..k] == events[..k];
  }

  lemma SteppedOn(x: Source, events: seq<Event>, n: nat, i: nat, y: Source)
    requires SourceOk(x) && n < |events|
    requires Stepped(x, events[..n], i, y) || (IsStep(events[n], i) && y == Evolved(x, events[..n]))
    ensures Stepped(x, events[..n + 1], i, y)
  {
    hide Evolved;
    hide IsStep;
    hide Stepped;
    if Stepped(x, events[..n], i, y) {
      var k := SteppedBefore(x, events, n, i, y);
      SteppedAt(x, events, k, n + 1, i);
    } else {
      SteppedAt(x, events, n, n + 1, i);
    }
  }

  /** One event more. */
  lemma RanOn(x: Source, events: seq<Event>, n: nat, i: nat, was: Progress, mid: Progress, now: Progress)
    requires SourceOk(x) && n < |events|
    requires Ran(x, events[..n], i, was, mid) && Reacted(Evolved(x, events[..n]), events[n], i, mid, now)
    ensures Ran(x, events[..n + 1], i, was, now)
  {
    hide Evolved;
    hide Stepped;
    hide IsStep;
    var here := Evolved(x, events[..n]);
    if was.rc != DONE && now.rc == DONE {
      SteppedOn(x, events, n, i, now.snapshot);
    }
    if AtFirst(was) && PastFirst(now) {
      CountKept(events[n], i, was, mid, now, here);
      var y := here;
      if !IsStep(events[n], i) || now.nCounted != here.pages {
        y :| Stepped(x, events[..n], i, y) && mid.nCounted == y.pages;
      }
      SteppedOn(x, events, n, i, y);
    }
  }

  /** The page count that a backup has when it is past page 1 is of this event or an earlier one. */
  lemma CountKept(e: Event, i: nat, was: Progress, mid: Progress, now: Progress, here: Source)
    requires Lasting(was, mid) && Reacted(here, e, i, mid, now) && AtFirst(was) && PastFirst(now)
    ensures (IsStep(e, i) && now.nCounted == here.pages) || (PastFirst(mid) && now.nCounted == mid.nCounted)
  {
  }

  /** Any interleaving of the steps of any number of backups of one source, and of changes of the source
      (what does not apply is passed over). */
  method Interleave(bs: seq<Backup>, ghost x: Source, events: seq<Event>)
    requires SourceOk(x) && forall i, j :: 0 <= i < j < |bs| ==> bs[i] != bs[j]
    requires forall i :: 0 <= i < |bs| ==> bs[i].Valid() && bs[i].Now() == x
    modifies bs
    ensures forall i :: 0 <= i < |bs| ==> bs[i].Valid() && bs[i].Now() == Evolved(x, events)
    ensures forall i :: 0 <= i < |bs| ==> Ran(x, events, i, old(bs[i].Held()), bs[i].Held())
  {
    hide Ran;
    hide Reacted;
    hide Evolved;
    forall i | 0 <= i < |bs| {
      RanNothing(x, i, bs[i].Held());
    }
    for n := 0 to |events|
      invariant forall i :: 0 <= i < |bs| ==> bs[i].Valid() && bs[i].Now() == Evolved(x, events[..n])
      invariant forall i :: 0 <= i < |bs| ==> Ran(x, events[..n], i, old(bs[i].Held()), bs[i].Held())
    {
      label before:
      Happen(bs, Evolved(x, events[..n]), events[n]);
      EvolvedOn(x, events, n);
      forall i | 0 <= i < |bs| ensures Ran(x, events[..n + 1], i, old(bs[i].Held()), bs[i].Held()) {
        RanOn(x, events, n, i, old(bs[i].Held()), old@before(bs[i].Held()), bs[i].Held());
      }
    }
    assert events[..|events|] == events;
  }

  /** One event, as each backup on the list of the source sees it in turn. */
  method Happen(bs: seq<Backup>, ghost x: Source, e: Event)
    requires SourceOk(x) && forall i, j :: 0 <= i < j < |bs| ==> bs[i] != bs[j]
    requires forall i :: 0 <= i < |bs| ==> bs[i].Valid() && bs[i].Now() == x
    modifies bs
    ensures forall i :: 0 <= i < |bs| ==> bs[i].Valid() && bs[i].Now() == After(x, e)
    ensures forall i :: 0 <= i < |bs| ==> Reacted(x, e, i, old(bs[i].Held()), bs[i].Held())
  {
    hide After;
    hide Reacted;
    hide SourceOk;
    for j := 0 to |bs|
      invariant forall i :: 0 <= i < j ==> bs[i].Valid() && bs[i].Now() == After(x, e)
      invariant forall i :: 0 <= i < j ==> Reacted(x, e, i, old(bs[i].Held()), bs[i].Held())
      invariant forall i :: j <= i < |bs| ==> unchanged(bs[i])
    {
      if !e.DoStep? || e.backup == j {
        React(bs[j], e, j);
      } else {
        NotConcerned(x, e, j, bs[j].Held());
      }
    }
  }

  /** A step of another backup changes nothing here. */
  lemma NotConcerned(x: Source, e: Event, i: nat, p: Progress)
    requires SourceOk(x) && e.DoStep? && e.backup != i
    ensures After(x, e) == x && Reacted(x, e, i, p, p)
  {
  }

  /** What an event does to one backup and its view of the source. */
  method React(b: Backup, e: Event, i: nat)
    requires b.Valid() && (e.DoStep? ==> e.backup == i)
    modifies b
    ensures b.Valid() && b.Now() == After(old(b.Now()), e)
    ensures Reacted(old(b.Now()), e, i, old(b.Held()), b.Held())
  {
    hide Multiple;
    hide PageSize;
    hide Patched;
    match e {
      case DoStep(_, nPage, writing) =>
        NoPages(b.s);
        var r := b.Step(nPage, writing);
      case DoWrite(page, data) =>
        if Applies(b.Now(), e) {
          b.SourceWrite(page, data);
        }
      case DoAppend(skipped, data) =>
        if Applies(b.Now(), e) {
          b.SourceAppend(skipped, data);
        }
      case DoTruncate(pages) =>
        if Applies(b.Now(), e) {
          b.SourceTruncate(pages);
        }
      case DoChange(now) =>
        if Applies(b.Now(), e) {
          b.SourceChanged(now);
        }
    }
  }
}
