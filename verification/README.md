# SQLite 3.50.4: eight components, modelled and proved

A Dafny model of parts of the SQLite library, with proofs that hold for every input, every run or every
interleaving. Each part is one group of modules:

- **STAT4 samples** (`analyze.c`): one pass over a sorted index keeps a bounded set of samples whose
  counters are filled in later, a zero standing for "this prefix group has not ended". `StatSpec` says what
  each routine computes, the class in `Stat4` updates its fields in place and is proved equal to it,
  `StatProof` and `StatScan` carry the invariant through a row, `StatCoverage` and `StatChoice` say which
  rows are kept, `StatTheorems` draws the results, `PrefixGroups` and `IndexRows` connect all this with the rows of an index.
- **Bitvec** (`bitvec.c`): one set of numbers in three representations that convert themselves.
  `ProbeTable` is the theory of the open-addressed table, `BitvecLayout` that of sizes and bits.
- **Online backup** (`backup.c`): a copying loop between two page sizes around the pending-byte page, which
  shares the source with its writers and with other backups. Files are byte sequences; `BackupPages`
  relates offsets and pages.
- **Symbol tables** (`hash.c`): one doubly linked list in which every bucket is a contiguous run.
- **B-tree mutexes** (`btmutex.c`): a transition system in which every try, unlock and blocking lock of
  every connection is a step.
- **Renaming** (`alter.c`): tokens of an SQL text replaced in one buffer, and what the result reads as.
- **Schema building** (`build.c`): WITHOUT ROWID indexes, storage columns, type affinity, and the order in
  which root pages are destroyed.
- **Statement completeness** (`complete.c`): the tokenizer, byte by byte, and its eight-state machine.

`Bytes`, `SqlText`, `Lists`, `Division`, `Memory` and `Wrappers` are shared by them.

Objects that the library updates in place are classes whose methods state the whole new value; code that
only computes is functions; loops are loops with invariants. Where memory can run out, a lock can be refused
or a file operation can fail, the model chooses freely, so the results hold for every outcome; refusals are
counted, and a failure is reported exactly where one was counted.

`dafny verify dfyconfig.toml` checks the whole project.

Five places where what is proved may differ from what one might expect:

- The STAT4 buffer always finds a sample to evict exactly as long as rows / period stays below mxSample
  (`StatTheorems.VictimExactlyWhen`), which takes an estimate of about a third of the rows
  (`StatTheorems.EstimateExactlyWhen`). That is why statInit must be given an exact count when samples are
  kept, and it is: OP_Count estimates only where the Stat4 optimization is disabled (`analyze.c`, lines 1154
  to 1155; `vdbe.c`, line 3736), and then mxSample is zero (`analyze.c`, line 414). So `assert( iMin>=0 )`
  at line 637 holds.
- A backup of an empty source into a destination with larger pages leaves a file of one *source* page: less
  than one page of the destination (`Backups.Backup.DoneWith`).
- With source pages no smaller than the destination's, the truncation that ends a backup makes the
  destination longer only where the source is empty and its page larger than the whole destination
  (`Backups.Backup.CutPages`): the one case there in which `pPager->dbSize>=nPage`, which `pager.c` asserts
  at line 4003 unless CORRUPT_DB, does not hold.
- The comment above renameColumnTokenNext (`alter.c`, lines 1029 to 1037) says that repeated calls return
  the tokens in the order of the text. The code returns the rightmost one first; the model follows the code.
- Two tokens to be renamed with nothing between them run together when the first is to be quoted and the
  second, not written with a double quote, is to be quoted too: renameEditSql looks for a quote after the
  token in the old text only (`alter.c`, line 1257). The exact condition is in `RenameNames.EveryName`, and an
  input in `RenameNames.AdjacentTokensJoin`; whether the grammar lets two such tokens meet is not part of
  this model.

## Model

| member | source | states |
|---|---|---|
| StatAnalyze.AnalyzeIndex | sqlite-src-3500400/src/analyze.c:401-779 | scanning a whole non-empty index with the row count as the estimate leaves at most mxSample samples, in index order, each with the exact whole-index counts of equal rows, smaller rows and smaller distinct prefixes on every prefix of its key; the rows whose number is a multiple of the period are among them and are the periodic ones; every group of rows equal on fewer than all columns has a sample, unless the buffer is full and each sample that is not periodic was taken for a group that is larger, or as large on no more columns; while there is room such a sample is of the row with the largest hash in its group |
| StatTheorems.FlushedSamplesCover | sqlite-src-3500400/src/analyze.c:650-681 | the same of the run that the specification describes, for any period |
| StatTheorems.RunCovers | sqlite-src-3500400/src/analyze.c:702-779 | after any number of rows, every group that has ended is covered so by the buffer, and the rows are so chosen |
| StatCoverage.PushBestCovers | sqlite-src-3500400/src/analyze.c:655-661 | one turn of the candidate loop gives the group that ends on columns 0..i a sample, or finds every sample that is not periodic to stand for a group that outranks it, and uncovers no other group |
| StatCoverage.EvictionCovers | sqlite-src-3500400/src/analyze.c:600-610 | evicting the least preferred sample for one that it does not beat uncovers no group but such as the remaining samples outrank |
| StatCoverage.UnworthyCovered | sqlite-src-3500400/src/analyze.c:655-661 | a candidate that is turned away stands for a group that the whole buffer outranks |
| StatCoverage.PeriodicCovers | sqlite-src-3500400/src/analyze.c:757-764 | a periodic sample takes the place of no group but such as the remaining samples outrank |
| StatChoice.CandidateChosen | sqlite-src-3500400/src/analyze.c:766-772 | the candidate of the last column but one is the row with the largest hash in its group |
| StatChoice.RoomMeansLast | sqlite-src-3500400/src/analyze.c:594-616 | while there is room a candidate is appended on the last column but one only: on any other an open sample is there to upgrade |
| StatOrder.BetterMeans | sqlite-src-3500400/src/analyze.c:511-552 | sampleIsBetter written out: the larger group, then fewer columns, then the larger group on the first later column that differs, then the hash |
| StatSpec.LcgPermutes | sqlite-src-3500400/src/analyze.c:755 | the generator of the tie-breaking hash takes different numbers to different numbers |
| StatAnalyze.PushRows | sqlite-src-3500400/src/analyze.c:702-779 | one stat_push for each row, given the leftmost changed column, takes the object through the run of the specification |
| StatTheorems.FlushedSamplesAreExact | sqlite-src-3500400/src/analyze.c:650-681 | after the closing call of stat_get every retained sample is exact, samples are strictly ascending, there are at most mxSample of them, and every periodic row is among them |
| StatTheorems.VictimExactlyWhen | sqlite-src-3500400/src/analyze.c:628-639 | for any period and any number of rows: the eviction loop finds a non-periodic victim on every push if and only if rows / period is below mxSample |
| StatTheorems.ExactEstimateSuffices | sqlite-src-3500400/src/analyze.c:460 | an estimate that is no smaller than the row count allows at most mxSample/3 periodic rows |
| StatTheorems.EstimateExactlyWhen | sqlite-src-3500400/src/analyze.c:455-460 | why stat_init needs a count that is about right: for every estimate, number of slots and number of rows, a victim is found on every push if and only if the estimate is at least (rows / mxSample) * (mxSample/3 + 1); the exact count that it is given is |
| StatTheorems.RunDecides | sqlite-src-3500400/src/analyze.c:702-779 | after any number of rows the state is a good one, or more periodic rows than slots have gone by |
| StatTheorems.GoodStep | sqlite-src-3500400/src/analyze.c:702-772 | one push keeps a good state good, unless all slots are taken by periodic samples |
| StatTheorems.PeriodicIsMultiple | sqlite-src-3500400/src/analyze.c:757-764 | a row is taken as periodic exactly when the number of rows up to it is a multiple of the period |
| StatTheorems.FinalIsExact | sqlite-src-3500400/src/analyze.c:664-679 | a sample whose deferred counters are all filled in carries the exact counts of its row |
| StatScan.PushPreviousCloses | sqlite-src-3500400/src/analyze.c:650-681 | when column iChng changes, pushing the best candidates and filling the zeros leaves every sample exact from iChng on and no zero at or above it |
| StatScan.CollectKeeps | sqlite-src-3500400/src/analyze.c:757-772 | offering a row as periodic sample and as candidate keeps sortedness, deferral, periodic samples and the candidates' optimality; without a victim all samples are periodic |
| StatScan.InsertPeriodic | sqlite-src-3500400/src/analyze.c:558-639 | a periodic sample goes in as the last one, with its open counters deferred, and no periodic sample is evicted |
| StatScan.AdvanceNext | sqlite-src-3500400/src/analyze.c:718-755 | the running counters describe the next row: its group sizes so far, rows below it and distinct prefixes below it |
| StatScan.UpdateBestKeeps | sqlite-src-3500400/src/analyze.c:766-772 | aBest[i] stays the best row, by the tie-breaking order, of the current group on columns 0..i |
| StatScan.FillBuffer | sqlite-src-3500400/src/analyze.c:670-679 | filling zeros with the running counts gives each sample the final size of its groups |
| StatProof.PushBestKeepsMid | sqlite-src-3500400/src/analyze.c:650-661 | closing the group on columns 0..i, by upgrading a sample, inserting the candidate or skipping it, keeps the invariant that ties zeros, open groups, candidates and nMaxEqZero |
| StatProof.PushBestsKeepsMid | sqlite-src-3500400/src/analyze.c:655-661 | the same for the loop from the last column down to iChng |
| StatProof.InsertClosed | sqlite-src-3500400/src/analyze.c:558-639 | inserting a candidate whose group has ended keeps the buffer's invariant and the victim's minimality |
| StatProof.CandidateBeatsOpenSample | sqlite-src-3500400/src/analyze.c:578-590 | what sampleInsert asserts of every sample that shares the ended prefix: it has a later column and the candidate is better |
| StatProof.UpgradeTargetIsFinal | sqlite-src-3500400/src/analyze.c:578-596 | the sample chosen for an upgrade has no deferred counter to the right of the ended column |
| StatProof.OpenSampleMakesWorthy | sqlite-src-3500400/src/analyze.c:658-660 | if a retained sample is still open on the ended prefix the candidate passes the test for insertion, so that the sample's counter is filled |
| StatProof.CandidateIsLast | sqlite-src-3500400/src/analyze.c:612-616 | the assertion on order: a candidate that is inserted lies after all retained samples |
| StatProof.OpenMeansZero | sqlite-src-3500400/src/analyze.c:566-571 | before column i is closed a counter is zero exactly when the group has not ended, and zeros form a prefix |
| StatProof.CandidateEndsItsGroups | sqlite-src-3500400/src/analyze.c:766-772 | the candidate kept for columns 0..i is the last row of each of its longer groups, so its counters are final |
| StatOrder.BetterWeakOrder | sqlite-src-3500400/src/analyze.c:511-552 | sampleIsBetter is asymmetric and transitive, and so is its complement |
| StatOrder.UpgradeIsBest | sqlite-src-3500400/src/analyze.c:578-591 | the downward scan for an upgrade picks a best one of the samples that are open on the column |
| StatOrder.MinIsLeast | sqlite-src-3500400/src/analyze.c:628-638 | the victim is a non-periodic sample that no other one is worse than |
| StatSpec.InsertKeepsVictim | sqlite-src-3500400/src/analyze.c:594-639 | inserting a non-periodic sample never leaves a buffer full of periodic samples |
| IndexRows.CountEqual | sqlite-src-3500400/src/analyze.c:730-742 | the size of a row's prefix group, found from the changed columns alone, is the number of rows of the index equal to it on that prefix |
| IndexRows.CountLess | sqlite-src-3500400/src/analyze.c:736-742 | the place where its prefix group starts is the number of rows less than it on that prefix |
| IndexRows.CountDistinctLess | sqlite-src-3500400/src/analyze.c:736-737 | the number of group starts before it is the number of distinct smaller prefixes |
| Stat4.StatAccum.StatInit | sqlite-src-3500400/src/analyze.c:401-478 | the new accumulator is empty, with the period and the seed that the arguments give |
| Stat4.StatAccum.StatPush | sqlite-src-3500400/src/analyze.c:702-772 | stat_push on the object takes its value where the specification's step does |
| Stat4.StatAccum.SampleInsert | sqlite-src-3500400/src/analyze.c:558-639 | sampleInsert on the object, with its in-place eviction and upgrade |
| Stat4.StatAccum.SamplePushPrevious | sqlite-src-3500400/src/analyze.c:650-681 | samplePushPrevious on the object |
| Stat4.StatAccum.BeginRow | sqlite-src-3500400/src/analyze.c:718-755 | the first part of stat_push on the object |
| Stat4.StatAccum.OfferPeriodic | sqlite-src-3500400/src/analyze.c:757-764 | the periodic part of stat_push on the object |
| Stat4.StatAccum.OfferCurrent | sqlite-src-3500400/src/analyze.c:766-772 | the update of aBest on the object |
| Stat4.StatAccum.FindUpgrade | sqlite-src-3500400/src/analyze.c:578-591 | the loop that looks for an upgrade or an open periodic sample |
| Stat4.StatAccum.FindMin | sqlite-src-3500400/src/analyze.c:628-639 | the loop that looks for the next victim |
| Stat4.StatAccum.Evict | sqlite-src-3500400/src/analyze.c:600-610 | the victim goes and the samples after it move down |
| Stat4.StatAccum.Flush | sqlite-src-3500400/src/analyze.c:882-886 | the first request for a rowid closes all groups, later ones change nothing |
| Bitvecs.Bitvec.Set | sqlite-src-3500400/src/bitvec.c:169-234 | in any of the three representations, with conversion: the set gains i; failure is reported if and only if an allocation was refused, never for a flat bitmap, nor for a table that has i or fewer than mxHash values; each refusal loses at most one value, and a division that could not begin loses i only |
| Bitvecs.LostInPart | sqlite-src-3500400/src/bitvec.c:209-229 | a bitmap loses no more values than the sub-bitmap in which they are lost |
| Bitvecs.Bitvec.Clear | sqlite-src-3500400/src/bitvec.c:242-274 | in any of the three representations the set loses i |
| Bitvecs.Bitvec.Test | sqlite-src-3500400/src/bitvec.c:130-152 | membership, also for i out of range |
| Bitvecs.Bitvec.Create | sqlite-src-3500400/src/bitvec.c:115-123 | a new bitmap is empty and undivided, or there is none because its allocation was refused |
| Bitvecs.BitvecSet | sqlite-src-3500400/src/bitvec.c:169-171 | setting a bit of a bitmap that was never created does nothing and succeeds |
| Bitvecs.BitvecClear | sqlite-src-3500400/src/bitvec.c:242-243 | clearing a bit of a bitmap that was never created does nothing |
| Bitvecs.BitvecTest | sqlite-src-3500400/src/bitvec.c:153-155 | a bitmap that was never created has no bits |
| Bitvecs.Bitvec.Divide | sqlite-src-3500400/src/bitvec.c:209-229 | a table that is too full turns into sub-bitmaps in place, and all its values and the new one are set again; nothing changes if the copy of the table cannot be allocated |
| Bitvecs.Bitvec.Reinsert | sqlite-src-3500400/src/bitvec.c:223-225 | the loop over the old table sets every value in it |
| Bitvecs.Bitvec.SetInSub | sqlite-src-3500400/src/bitvec.c:175-183 | a value goes to the sub-bitmap of its range, created if need be; if that fails nothing changes |
| Bitvecs.Bitvec.ClearHashed | sqlite-src-3500400/src/bitvec.c:257-272 | the table is rebuilt without the value, so that every remaining value is still found |
| Bitvecs.Bitvec.Probe | sqlite-src-3500400/src/bitvec.c:199-205 | probing stops, at the value or at an empty slot that shows it absent |
| Bitvecs.Bitvec.Descend | sqlite-src-3500400/src/bitvec.c:134-141 | a bit is in the set exactly when its place is in the sub-bitmap of its range, and that sub-bitmap is smaller |
| BitvecLayout.DivisorFits | sqlite-src-3500400/src/bitvec.c:219-221 | every sub-bitmap is strictly smaller than its parent, and together they cover it |
| Bitvecs.FiveDeep | sqlite-src-3500400/src/bitvec.c:39-114 | with 64-bit constants no bitmap is a tree of sub-bitmaps of more than five levels |
| Bitvecs.DeepAsLevels | sqlite-src-3500400/src/bitvec.c:60-86 | with any constants a bitmap is a tree of no more levels than repeated division of its size needs |
| BitvecLayout.SetBit | sqlite-src-3500400/src/bitvec.c:184-187 | the bit masks of the flat representation set and clear one bit and no other |
| ProbeTable.FewLeaveHole | sqlite-src-3500400/src/bitvec.c:192-207 | a table of distinct values with fewer values than slots has an empty slot |
| ProbeTable.HoleMeansAbsent | sqlite-src-3500400/src/bitvec.c:145-150 | an empty slot on a value's probe path shows that the value is absent |
| ProbeTable.Store | sqlite-src-3500400/src/bitvec.c:230-232 | storing a value at the end of its probe path adds it and keeps every value reachable |
| Backups.Backup.Step | sqlite-src-3500400/src/backup.c:314-566 | when a step returns DONE the committed destination has the source's length and bytes, apart from the source's pending-byte page and the fields of page 1 that finishing rewrites: bytes 24-27, 40-43 and 92-99, and 18-19 of a WAL destination only; its page-count field holds the size of the source when page 1 was last copied by a step, which is the present size if this step copied it, or else the source's own field; after OK, BUSY or LOCKED a step goes on, and it returns OK or DONE if and only if the source is not being written, no lock, memory, page or file operation is refused, and the page sizes are equal or the destination is neither in WAL mode nor in memory; it is DONE if nPage is negative; OK means exactly nPage pages more and an attached object; BUSY and LOCKED leave the position alone; READONLY, NOMEM, the I/O errors and DONE stay; other results leave the committed destination alone |
| Backups.Backup.BackupOnePage | sqlite-src-3500400/src/backup.c:226-279 | a source page is copied at the same file offsets whatever the two page sizes, but for the destination's pending-byte page; nothing outside it changes; the page-count field is set on a first copy only |
| Backups.Backup.CopyPages | sqlite-src-3500400/src/backup.c:390-401 | the loop keeps every source byte below iNext equal to its copy, and stops after nPage pages, at the end, or on an error |
| Backups.Backup.OpenBoth | sqlite-src-3500400/src/backup.c:340-383 | no lock, no change; a WAL or in-memory destination with another page size is refused |
| Backups.Backup.EndStep | sqlite-src-3500400/src/backup.c:402-410 | the counters are set; the object is attached unless everything has been copied |
| Backups.Backup.Complete | sqlite-src-3500400/src/backup.c:417-541 | finishing gives the destination its exact length and content and leaves the page-count field as the copy of page 1 set it, or fails without committing |
| Backups.Backup.WriteHeader | sqlite-src-3500400/src/backup.c:422-432 | only the rewritten fields change, bytes 18-19 among them only for a WAL destination; the schema cookie is the old one plus one, and a WAL destination is marked as one |
| Backups.Backup.CutPages | sqlite-src-3500400/src/backup.c:456-457 | with source pages no smaller the destination is cut after its last page, and ends with the source; it gets longer if and only if the source is empty and the whole destination is shorter than a source page |
| Backups.Backup.WriteTail | sqlite-src-3500400/src/backup.c:470-524 | with smaller source pages the source pages inside the destination's pending-byte page are written and the file gets the source's exact length |
| Backups.Backup.WriteMissing | sqlite-src-3500400/src/backup.c:505-520 | every source page between the two pending-byte pages' ends is written in place |
| Backups.DestPagesEnough | sqlite-src-3500400/src/backup.c:449-482 | the final page count is positive and the assertion on it holds for every pair of page sizes and every source length |
| Backups.DestPagesTight | sqlite-src-3500400/src/backup.c:446-457 | that page count is never that of the pending-byte page, and no destination page lies wholly beyond the source |
| Backups.Backup.BackupUpdate | sqlite-src-3500400/src/backup.c:661-685 | a changed page below iNext is copied again, any other change is ignored; a refused page operation is remembered as fatal, and nothing else is |
| Backups.FatalCodes | sqlite-src-3500400/src/backup.c:217-219 | the codes that end a backup, one by one |
| BackupPages.FaithfulBytes | sqlite-src-3500400/src/backup.c:417-541 | what a finished backup is, byte by byte and in numbers: length, contents, and the offsets excepted |
| BackupPages.FourBytesRead | sqlite-src-3500400/src/util.c:1445-1468 | the four bytes written for a number read back as that number |
| BackupPages.PageSizesArePowers | sqlite-src-3500400/src/btree.c:3361-3371 | page sizes are the powers of two from 512 to 65536 |
| Backups.Backup.SourceWrite | sqlite-src-3500400/src/backup.c:661-688 | a source write between steps keeps all copied bytes current, and leaves a finished or failed backup alone |
| Backups.Backup.SourceAppend | sqlite-src-3500400/src/backup.c:661-688 | so does a page added at the end of the source, beyond the pending-byte page where that comes next |
| Backups.Backup.SourceTruncate | sqlite-src-3500400/src/backup.c:385-388 | a source that becomes shorter keeps the copied part a copy |
| Backups.Backup.SourceChanged | sqlite-src-3500400/src/backup.c:701-707 | after any change by another process, also to another page size, an attached backup begins again |
| Backups.Backup.Finish | sqlite-src-3500400/src/backup.c:571-619 | what is not committed is rolled back; DONE is reported as success and any other code as it is |
| Backups.Interleave | sqlite-src-3500400/src/backup.c:314-707 | over any interleaving of steps of any number of backups of one source with writes, appends, truncations and external changes of that source, including changes of its page size: the invariant holds of each; a backup that the run finishes is the copy, committed and never changed again, of the source as it was at one of that backup's own steps, and, if it began with page 1, the size that was counted for its page-count field is one that the source had at one of its own steps; before DONE the committed destination does not change |
| Backups.WritesHappen | sqlite-src-3500400/src/backup.c:661-685 | a write of any source page but the pending one puts its bytes at the page's place |
| Backups.AppendsHappen | sqlite-src-3500400/src/backup.c:661-685 | a page is added at the end of the source, with the pending page stepped over |
| Backups.OtherEventsHappen | sqlite-src-3500400/src/backup.c:701-707 | pages are dropped at the end of the source, or the source is replaced by any other, with any page size |
| Backups.RanOn | sqlite-src-3500400/src/backup.c:314-707 | one event more: what a run has done is carried on by what the event does |
| Backups.Happen | sqlite-src-3500400/src/backup.c:661-707 | a change of the source reaches every backup on its list, and a step only its own; each one's invariant, progress and view of the source are as they should be afterwards |
| BackupPages.PageOfOffset | sqlite-src-3500400/src/btreeInt.h:607-609 | an offset falls in the page numbered PENDING_BYTE_PAGE exactly when it is within a page size above PENDING_BYTE |
| BackupPages.PiecePlace | sqlite-src-3500400/src/backup.c:251-269 | the piece copied in one turn lies within one destination page, at the same offset of the file, and inside the source page |
| Backups.CopiedPage | sqlite-src-3500400/src/backup.c:390-400 | copying page i, newly or again, makes the copied range current up to and including it |
| Backups.Backup.CopyNext | sqlite-src-3500400/src/backup.c:390-400 | one turn of the loop copies the next page; copying page 1 sets the page-count field to the size of the source, copying another leaves that field alone |
| Backups.CountRenewed | sqlite-src-3500400/src/backup.c:661-685 | when a changed page is copied again the page-count field stays the counted size or becomes the source's own |
| HashTables.Hash.Insert | sqlite-src-3500400/src/hash.c:242-272 | the table maps case-folded keys: an existing key gives back its data and is replaced or, for null data, removed; a new one is added, or its data comes back and nothing has changed when its allocation was refused |
| HashTables.Hash.Find | sqlite-src-3500400/src/hash.c:222-226 | the data stored under the key up to case, or null |
| HashTables.Hash.FindElementWithHash | sqlite-src-3500400/src/hash.c:153-183 | the element of the key if there is one, by the run of its bucket or the whole list, and the key's hash |
| HashTables.Hash.Rehash | sqlite-src-3500400/src/hash.c:113-146 | done if and only if the size asked for, at most 64 buckets, is not the present one and memory was not refused; not done, nothing changes; otherwise the same elements, in buckets that are contiguous runs of the list, and no fewer buckets than asked for under the soft limit |
| HashTables.Hash.InsertElement | sqlite-src-3500400/src/hash.c:79-104 | the element is linked in before its bucket's head, or first of all, and buckets stay contiguous runs |
| HashTables.Hash.RemoveElement | sqlite-src-3500400/src/hash.c:188-216 | the element is gone from the list and its bucket; an empty table is cleared |
| HashTables.Hash.Clear | sqlite-src-3500400/src/hash.c:34-50 | no element, no buckets |
| HashTables.Hash.constructor | sqlite-src-3500400/src/hash.c:22-28 | a new table is empty |
| HashTables.Hash.LinkBefore | sqlite-src-3500400/src/hash.c:91-96 | splicing in before the head keeps next and prev inverse to each other |
| HashTables.Hash.LinkFront | sqlite-src-3500400/src/hash.c:97-102 | linking in at the front keeps next and prev inverse to each other |
| HashTables.Hash.Grow | sqlite-src-3500400/src/hash.c:263-266 | the table is rehashed only from five elements on, when there are more than two for each bucket, and then to three times as many buckets as elements or to the soft limit unless memory is refused; it keeps its elements |
| HashTables.BucketedInsert | sqlite-src-3500400/src/hash.c:85-89 | where the element goes, and the bucket's new count and chain |
| HashTables.BucketedRemove | sqlite-src-3500400/src/hash.c:202-209 | the bucket's count and chain after a removal, and all other buckets' runs |
| HashRuns.InsertKeepsRuns | sqlite-src-3500400/src/hash.c:79-104 | inserting before a bucket's run, or in front, leaves every bucket one contiguous run |
| HashRuns.RemoveKeepsRuns | sqlite-src-3500400/src/hash.c:188-209 | removing an element leaves every bucket one contiguous run |
| HashRuns.RunIsBucket | sqlite-src-3500400/src/hash.h:30-42 | a bucket's run holds exactly the elements whose hash belongs in it |
| HashKeys.FoldedHash | sqlite-src-3500400/src/hash.c:55-73 | keys that are equal but for case have one hash |
| HashKeys.ComputeHash | sqlite-src-3500400/src/hash.c:55-73 | strHash's loop computes the hash |
| HashKeys.LastByteTells | sqlite-src-3500400/src/hash.c:55-73 | keys that differ in the last byte only, by more than the bit that tells the cases apart, have different hashes |
| SqlText.FoldMeans | sqlite-src-3500400/src/util.c:416-434 | keys are one key exactly if they have one length and differ, where they do, in the case of one of the 26 letters |
| HashKeys.StrICmp | sqlite-src-3500400/src/util.c:416-434 | zero exactly for keys that are equal but for case; otherwise the difference of the folded bytes at the first place where the folded keys differ |
| BtreeMutex.EveryRun | sqlite-src-3500400/src/btmutex.c:71-199 | after any interleaving, in whatever order Btrees are entered: a connection outside a call has locked exactly what it wants, holding those mutexes, and no set of connections is deadlocked |
| BtreeMutex.EnterAllHoldsAll | sqlite-src-3500400/src/btmutex.c:186-240 | after any run, between its calls: a connection holds every mutex of its list, as sqlite3BtreeHoldsAllMutexes asserts after EnterAll, if and only if it has entered each Btree more often than left it; it holds no mutex at all, as after LeaveAll, if and only if it has left each as often as entered it |
| BtreeMutex.RunWants | sqlite-src-3500400/src/btmutex.c:71-181 | over any run wantToLock changes by the enter calls less the leave calls made on that Btree, and by nothing that the other connections or the locking loops do |
| BtreeMutex.RunKeepsInv | sqlite-src-3500400/src/btmutex.c:71-152 | every reachable state satisfies the invariant on locked flags, mutex holders, BtShared.db and the place in the protocol |
| BtreeMutex.StepKeepsInv | sqlite-src-3500400/src/btmutex.c:71-152 | each try, unlock and blocking lock keeps it |
| BtreeMutex.HoldsSmaller | sqlite-src-3500400/src/btmutex.c:118-137 | a connection blocks only while every mutex it holds has a smaller address than the awaited one |
| BtreeMutex.NoDeadlock | sqlite-src-3500400/src/btmutex.c:118-137 | in any non-empty set of connections one does not wait for a mutex held within the set |
| BtreeMutex.Progress | sqlite-src-3500400/src/btmutex.c:105-137 | while connections are inside calls, one can go on, or one awaits a mutex that a connection outside any call holds |
| BtreeMutex.IdleCanCall | sqlite-src-3500400/src/btmutex.c:71-103 | between calls a connection can enter any of its Btrees, at once if it is locked, and leave exactly those that it wants; leaving one that is wanted once gives the mutex back |
| BtreeMutex.FreeIsTaken | sqlite-src-3500400/src/btmutex.c:105-128 | a try for a free mutex can succeed and ends the call with the Btree locked; a connection that blocks on a mutex gets it when it is free |
| BtreeMutex.CallsEnd | sqlite-src-3500400/src/btmutex.c:105-137 | each step inside a call brings its end nearer, and no other connection's step changes that |
| BtreeMutex.Exclusive | sqlite-src-3500400/src/btmutex.c:27-50 | no BtShared is locked by two Btrees at once |
| BtreeMutex.BlocksOnOthers | sqlite-src-3500400/src/btmutex.c:27-34 | what lockBtreeMutex asserts of a thread that is about to block: its own Btree is not locked, and it does not hold the mutex itself |
| BtreeMutex.LockedIsWanted | sqlite-src-3500400/src/btmutex.c:67-126 | at every place of the protocol a locked Btree is wanted, and BtShared.db names its connection |
| BtreeMutex.LockAssertions | sqlite-src-3500400/src/btmutex.c:41-50 | what unlockBtreeMutex asserts: before an unlock the mutex is held by the connection and BtShared.db names it; and a mutex that is taken was free |
| Renames.RenameEditSql | sqlite-src-3500400/src/alter.c:1195-1297 | repeated take-rightmost, memmove and overwrite in a buffer of nSql+nList*nQuot+1 bytes gives exactly the text with every token substituted at once, whatever order the tokens are listed in, and every token reads as the new name; there is no result if and only if memory was refused, and then the list is as it was |
| RenameNames.EveryName | sqlite-src-3500400/src/alter.c:1244-1287 | in the edited text each token is the bare new name where it was a word and bQuote is off, and otherwise a quoted identifier that reads as the new name, with a space before a quote that stood there; that fails exactly where no quote stood there and what follows the token has become one |
| RenameNames.NameInPlace | sqlite-src-3500400/src/alter.c:1244-1287 | the same of one token, at its place in the edited text |
| RenameNames.ReplacementMeans | sqlite-src-3500400/src/alter.c:1250-1258 | what replaces a token, read by the rules for quoted identifiers together with any text that follows |
| RenameNames.SeparateTokenReads | sqlite-src-3500400/src/alter.c:1244-1287 | a token that no other one directly follows always reads as the new name |
| RenameNames.AdjacentTokensJoin | sqlite-src-3500400/src/alter.c:1250-1258 | two bracketed tokens with nothing between them run together: the edited text does not begin with the new name |
| Renames.RenameCtx.RenameColumnTokenNext | sqlite-src-3500400/src/alter.c:1038-1050 | the rightmost token is taken off the list, the others keep their order |
| Renames.RenameCtx.RenameTokenFind | sqlite-src-3500400/src/alter.c:964-986 | the first token of the parse tree element moves from the parser's list to the front of this one, and is counted |
| Renames.ReplaceNext | sqlite-src-3500400/src/alter.c:1244-1287 | one turn: the buffer is edited from the replaced token on, stays terminated and has room for the tokens left |
| Renames.Splice | sqlite-src-3500400/src/alter.c:1277-1285 | a token's bytes are exchanged for the new text and the terminator is moved |
| Renames.ChooseText | sqlite-src-3500400/src/alter.c:1250-1258 | the bare name for a bare identifier, else the quoted one, with a space before a following quote |
| RenameSpec.ScanStep | sqlite-src-3500400/src/alter.c:1244-1287 | substitution read from left to right agrees with replacing the rightmost token first |
| RenameSpec.ScanOrder | sqlite-src-3500400/src/alter.c:1029-1050 | the substituted text does not depend on the order of the list |
| RenameSpec.Replacement | sqlite-src-3500400/src/alter.c:1226-1258 | a replacement is longer than its token by at most the length of the quoted name, which bounds the buffer |
| WithoutRowids.ConvertToWithoutRowid | sqlite-src-3500400/src/build.c:2399-2492 | the primary key keeps the first of each repeated column and collation, then lists the stored columns it does not name; every other index is its key and then the primary key columns it lacks, in primary key order; columns are the same only under collation names that differ in the case of letters at most; it fails if and only if memory is refused |
| WithoutRowids.TwoCollations | sqlite-src-3500400/src/build.c:2260-2279 | one column under two collations is two columns: a key with both keeps both, and a key with one lacks the other |
| WithoutRowids.FirstsInOrder | sqlite-src-3500400/src/build.c:2403-2423 | the columns that stay are in their order |
| WithoutRowids.MissingInOrder | sqlite-src-3500400/src/build.c:2455-2466 | the columns added to an index are in primary key order |
| WithoutRowids.SurplusInOrder | sqlite-src-3500400/src/build.c:2478-2490 | the columns added to the primary key are in table order, ascending and under BINARY |
| WithoutRowids.Index.RemoveRepeats | sqlite-src-3500400/src/build.c:2403-2423 | the in-place loop leaves first occurrences, in order |
| WithoutRowids.Index.AppendMissing | sqlite-src-3500400/src/build.c:2440-2469 | the rowid tail becomes the missing primary key columns, all ascending; the flag for a descending one is set |
| WithoutRowids.Index.CoverTable | sqlite-src-3500400/src/build.c:2471-2490 | the stored columns not named by the key follow it in table order |
| WithoutRowids.Index.IsDupColumn | sqlite-src-3500400/src/build.c:2260-2279 | whether the first columns hold this one under the same collation, up to case |
| WithoutRowids.Index.HasColumn | sqlite-src-3500400/src/build.c:2238-2245 | whether the first columns name this one |
| WithoutRowids.Index.Resize | sqlite-src-3500400/src/build.c:2176-2203 | more room keeps the columns and adds wholly zeroed ones; it fails if and only if memory is refused, and then nothing changes |
| WithoutRowids.FirstsNoRepeats | sqlite-src-3500400/src/build.c:2403-2423 | removing repeats leaves no repeated pair and loses none |
| WithoutRowids.MissingCompletes | sqlite-src-3500400/src/build.c:2437-2469 | key and missing columns together hold the whole primary key, and nothing of it twice |
| WithoutRowids.SurplusCovers | sqlite-src-3500400/src/build.c:2471-2490 | the primary key index names exactly the stored columns and those that its key named |
| StorageColumns.TableColumnToStorage | sqlite-src-3500400/src/build.c:1144-1159 | stored columns come first and virtual ones after them, both in table order; a negative number stays |
| StorageColumns.StorageColumnToTable | sqlite-src-3500400/src/build.c:1096-1104 | the loop whose bound grows ends, at the one column with this place, which is a stored one |
| StorageColumns.PlacesDiffer | sqlite-src-3500400/src/build.c:1107-1159 | no two columns have one place, and order is kept among stored and among virtual columns |
| StorageColumns.PlaceInRange | sqlite-src-3500400/src/build.c:1107-1159 | places are column numbers, and the virtual columns have the last ones |
| StorageColumns.PlaceTaken | sqlite-src-3500400/src/build.c:1107-1159 | every number is some column's place: the map is a permutation |
| Affinities.AffinityType | sqlite-src-3500400/src/build.c:1612-1673 | the rolling 32-bit hash computes the documented table of substrings and priorities, for every type name |
| Affinities.AffinityInLetters | sqlite-src-3500400/src/build.c:1612-1636 | the table in letters of either case: INT; else CHAR, CLOB or TEXT; else BLOB; else REAL, FLOA or DOUB; else numeric |
| Affinities.HashIsName | sqlite-src-3500400/src/build.c:1643-1668 | the hash equals the word of a four-letter name exactly where the name ends, in any case |
| Affinities.LowHashIsName | sqlite-src-3500400/src/build.c:1669-1672 | and its low three bytes that of a three-letter name |
| DestroyTables.DestroyTable | sqlite-src-3500400/src/build.c:3297-3340 | each distinct non-zero root page of the table and its indices once, in strictly descending order |
| DestroyTables.DescendingDestroys | sqlite-src-3500400/src/build.c:3267-3289 | in a database that moves its largest root into a freed page, descending order destroys exactly the intended trees, none of them moved before, and the schema still knows where every other tree is |
| DestroyTables.AscendingFails | sqlite-src-3500400/src/build.c:3298-3313 | in ascending order a page to be destroyed may have been moved away |
| Completes.Complete | sqlite-src-3500400/src/complete.c:104-261 | the scanning loop with its table of states decides completeness of the text |
| CompleteTheorems.CompleteMeans | sqlite-src-3500400/src/complete.c:51-103 | complete means: no token is left unfinished, and the tokens that are not white space are one or more statements, each ended by a semicolon or, for a CREATE TRIGGER, by "; END ;" |
| CompleteTheorems.CompleteThen | sqlite-src-3500400/src/complete.c:144-260 | text after a complete text that does not end within a "--" comment is judged on its own, except that blank text changes nothing |
| CompleteTheorems.CompleteThenComment | sqlite-src-3500400/src/complete.c:170-179 | if it does end within one, the rest of the line belongs to the comment and the text after that is judged on its own |
| CompleteTheorems.LexAppend | sqlite-src-3500400/src/complete.c:144-256 | a token that ends before the text does, white space, or a semicolon stays the same token when text is added |
| CompleteSpec.MachineDecides | sqlite-src-3500400/src/complete.c:112-123 | the eight states accept exactly the non-empty sequences of ended statements |
| CompleteSpec.FirstSemicolon | sqlite-src-3500400/src/complete.c:112-123 | an ordinary statement ends with its first semicolon |
| CompleteSpec.FirstEnd | sqlite-src-3500400/src/complete.c:117-122 | a trigger ends with its first semicolon, END and semicolon in a row |
| CompleteSpec.TriggersBeginSo | sqlite-src-3500400/src/complete.c:51-103 | the statements that count as triggers are those that begin with CREATE, any number of TEMP, and TRIGGER, or with EXPLAIN, ordinary tokens and the same |
| CompleteTokens.QuotedToken | sqlite-src-3500400/src/complete.c:189-197 | a quoted token goes to the next of its three kinds of quote, and is unfinished without one |
| CompleteTokens.BracketedToken | sqlite-src-3500400/src/complete.c:180-186 | a bracketed name goes to the next closing bracket, and is unfinished without one |
| CompleteTokens.CommentToken | sqlite-src-3500400/src/complete.c:158-169 | a C comment is white space to the first place where it closes, and unfinished without one |
| CompleteTokens.LineCommentToken | sqlite-src-3500400/src/complete.c:170-179 | a line comment is white space to the end of the line, or ends the text |
| CompleteTokens.SingleBytes | sqlite-src-3500400/src/complete.c:146-157 | the five white-space bytes and the semicolon are tokens of one byte |
| CompleteTokens.WordToken | sqlite-src-3500400/src/complete.c:198-250 | a word is as long as letters, digits, underscores, dollar signs and bytes beyond ASCII go on |
| CompleteTokens.WordIsSpelled | sqlite-src-3500400/src/complete.c:208-247 | the keywords letter by letter, in either case |
| CompleteTokens.OtherToken | sqlite-src-3500400/src/complete.c:251-256 | every other byte is an ordinary token |
| CompleteTokens.OpenIsIncomplete | sqlite-src-3500400/src/complete.c:144-260 | a complete text not ending in a line comment, followed by an open quote, bracket or C comment, is not complete |
| CompleteSpec.TriggerEnds | sqlite-src-3500400/src/complete.c:117-122 | from TRIGGER the machine comes back to START only by way of a semicolon, END and a semicolon in a row |
| Completes.NextToken | sqlite-src-3500400/src/complete.c:145-256 | the switch on the first byte finds the first token, with its length |
| Completes.UntilIsFirst | sqlite-src-3500400/src/complete.c:170-197 | a line comment, a bracketed name or a quoted token ends at the first closing byte |
| Completes.CommentClosesFirst | sqlite-src-3500400/src/complete.c:158-169 | a C comment ends at the first place where it closes |
| Completes.IdEndIsFirst | sqlite-src-3500400/src/complete.c:202-205 | a word is as long as identifier characters go on, and no longer |
| Completes.Keyword | sqlite-src-3500400/src/complete.c:208-247 | keywords are recognised in any case, and only as whole identifiers |

## Left out

- Integer widths: row counts, page numbers, table counts and lengths are unbounded; the 32-bit words that wrap round on purpose (the STAT4 generator, strHash, the affinity hash) are modelled with their width.
- StatTheorems.VictimExactlyWhen: for the accumulator with nLimit 0 only; the skip-ahead of a limited analysis, and the text of the stat1 and stat4 tables, are not modelled.
- StatAnalyze.AnalyzeIndex: rowids are integers; a rowid that is a key record is not modelled.
- Bitvecs.Bitvec.Set: the union of the three representations is three arrays, so their sharing of memory is not modelled, and the loops that go down to a sub-bitmap in Set and Clear are calls on it.
- sqlite3BitvecDestroy, sqlite3BitvecSize and the built-in test of bitvec.c.
- Backups.Backup.Step: the pager and the file system are byte sequences with operations that may fail; journals, crash recovery, file locks, mutexes and ZipVFS are not modelled; once both databases are locked a failing page or file operation is taken to return a code that the backup treats as fatal.
- Backups.Backup.SourceWrite: a source is taken never to end with its pending-byte page, as pager.c requires of a database; the new content of a page that is freed and never written is not modelled; nRemaining is stated for a step that returns OK only.
- Backups.Backup.Finish: taking a finished object off the source's list is clearing its flag; in Interleave no backup is finished off, and the backups of one source are visited in a fixed order, as a list that does not change.
- HashTables.Hash.Clear: memory is not freed but forgotten; SQLITE_MALLOC_SOFT_LIMIT is 1024 and a bucket takes 16 bytes.
- BtreeMutex.EveryRun: the loops over pNext are places of a transition system, not loops; the setting of BtShared.db and of the locked flag belong to the step that takes the mutex; Btrees that are not sharable take no part; connections do not come, go or change their lists during a run; which thread holds the connection's own mutex is the caller's business. EnterAll and LeaveAll are any runs with their Enter and Leave calls, and noSharedCache is not modelled.
- Renames.RenameEditSql: the path that requotes double-quoted strings depends on the dequoting and %Q code, which is not part of this model; neither are the parser and walkers that find the tokens.
- WithoutRowids.ConvertToWithoutRowid: the NOT NULL flags, the bytecode changes, the column masks and the making of an index for an INTEGER PRIMARY KEY are not modelled.
- DestroyTables.DestroyTable: only the operands of the opcodes; the check for a corrupt schema (a root page below 2) does not change them.
- Affinities.AffinityType: the size estimate for a column is not modelled.
- Completes.Complete: builds without triggers, without EXPLAIN or for EBCDIC, and the UTF-16 variant, are not modelled.
- The code that generates VDBE programs, and the Python application around the vendored library.
