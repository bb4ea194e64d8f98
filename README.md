# proglog storage engine: the segmented commit log

This project models, in Dafny, the `Log` of proglog's storage engine
(`internal/log/log.go`) and the contract it relies on from its segments
(`internal/log/segment_test.go`), and proves properties of that model.

A `Log` owns a directory and a configuration, an ordered list of segments
and an active segment. The model follows the Go code operation by
operation:

- `NewLog` replaces a zero store or index limit with 1024 bytes and runs `setup`.
- `setup` lists the directory and collects the base offsets of its `.store`
  files, parsing each with `strconv.ParseUint`. It sorts the offsets and
  opens one segment per offset in ascending order. When no segment exists
  at the end, it opens one at `InitialOffset`.
- `Append` writes to the active segment. When that leaves the segment maxed,
  it opens a new segment at the next offset and makes it active.
- `Read` scans the list for the first segment whose range holds the offset.
- `Close`, `Remove` and `Reset` close the segments, delete the directory and
  set the log up again.
- `LowestOffset` and `HighestOffset` read the first segment's base offset and
  the last segment's next offset.
- `Truncate` removes every segment whose base offset is below a bound.

The Go code mutates objects, so the model does too:

- `CommitLog.Log` is a class with `segments` and `activeSegment` fields.
- `Segments.Segment` is a class whose records, offsets and byte counts
  change on append.
- `Segments.Directory` holds, per base offset, the records that a segment's
  files have persisted. It also holds which segments' files fail, whether
  deleting the directory fails, and whether the directory still exists.
- The pure parts of `setup` (file names, parsing, sorting, which segments
  get opened) are functions in `FileNames` and `CommitLog`. Each is paired
  with the imperative code that runs it: `ScanStoreOffsets` is the loop of
  log.go:43-53, and `Log.Setup` is stated through `SetupPlan`.

Segment, store and index are not among the modelled files. Part of their
behaviour is taken from how `log.go` uses them and from what
`segment_test.go` asserts:

- A segment holds a list of records, and `nextOffset` is its base offset plus their count.
- `isMaxed` holds once either limit is reached.
- `Append` fails with `io.EOF` once the index holds as many entries as its
  limit allows, for a limit of a whole number of entries (segment_test.go:19, 36-37).

The rest is assumed by the model, since neither file shows it:

- Each record takes 8 + |payload| bytes of store and 12 bytes of index.
- `Append` fails with `io.EOF` whenever the index has no room for another
  12-byte entry, whatever the limit.
- `Read` of an offset the segment does not hold fails with `io.EOF`.
- A closed segment, or one whose files are faulty, fails every operation (`Segments.Fails`).
- A failed `Append`, including one that fails with `io.EOF`, changes nothing.

One consequence of these assumptions is that the index limit can stall a
segment. When the limit is not a multiple of 12 bytes, as with the default
1024, the index can be too full for another entry before it reaches its
limit. `Append` then fails with `io.EOF`, the segment is not maxed, and no
rotation happens. `IndexStallScenario` shows such a segment: 85 records
under limits of 1024 bytes. `FullIndexIsMaxed` proves that a stall cannot
occur when the limit is a multiple of 12.

Behaviour of the code that the model keeps as written:

- **Rotation errors are discarded.** `Log.Append` (log.go:94-97) drops the
  error from opening the next segment and returns `Ok`. The log then keeps
  its old, maxed active segment.
- **Truncate does not update `activeSegment`.** `Log.Truncate`
  (log.go:160-177) may remove the active segment. When the list is ordered
  and the active segment is last, it stays last unless nothing is kept
  (`TruncateKeepsActiveOrEmpties`). When nothing is kept, `activeSegment`
  still refers to the removed, closed segment. In the model every later
  `Append` then fails, because a closed segment fails every operation.
- **Truncate drops records at or above `lowest`.** A segment is removed by
  its base offset alone. Records at offsets at or above `lowest` held by a
  segment whose base is below it become unreadable
  (`TruncateDropsStraddledOffsets`).
- **`Remove` swallows `Close`'s error.** `Remove` reports success without
  deleting anything. When `Close` succeeds, `Remove` deletes the directory,
  so the `setup` inside `Reset` then fails to list it. `Reset` returns that
  listing error. It also swallows any error from `Remove`.

## Model

| member | source | states |
|---|---|---|
| CommitLog.WithDefaults | internal/log/log.go:24-29 | a zero store or index limit becomes 1024; any other value and the initial offset are kept |
| CommitLog.NewLog | internal/log/log.go:23-35 | returns a fresh log with the defaulted configuration together with setup's error; the segments opened are exactly `SetupPlan`'s bases for the directory listing, each open and holding its persisted records; on success at least one segment is opened, and whenever one is (even if a later one fails) the last one opened is the active segment |
| CommitLog.Log.Setup | internal/log/log.go:37-72 | the segments added and the error returned are exactly `SetupPlan` of the listing (a listing error once the directory is gone), the existing count, the initial offset and the faulty files; the added segments are fresh, open, hold what their files held, follow the old ones, and the last becomes active; persisted records do not change |
| CommitLog.ReadDir | internal/log/log.go:38-41 | the listing while the directory exists; a directory error once it is gone |
| CommitLog.Planned | internal/log/log.go:65-69 | the sorted store offsets when there are any; a log without segments always plans at least one, the initial offset when the listing has no store file |
| CommitLog.SetupPlan | internal/log/log.go:37-72 | every base setup opens has files that open; a listing or parse error opens nothing and is returned; the exact plan is stated by the `SetupPlan…` lemmas below |
| CommitLog.ListedBases | internal/log/log.go:38-57 | a listing error or the first parse error is returned; otherwise the store offsets of the listing, sorted ascending |
| CommitLog.SetupPlanSorted | internal/log/log.go:55-63 | setup opens segments in ascending base order |
| CommitLog.SetupPlanCoversStoreFiles | internal/log/log.go:43-63 | when setup succeeds on a listing with store files, the opened bases are a permutation of the store offsets, and the last one opened (the active one) has the largest base |
| CommitLog.SetupPlanNonEmpty | internal/log/log.go:65-69 | setup that succeeds on a log without segments leaves it with at least one |
| CommitLog.SetupPlanEmpty | internal/log/log.go:65-69 | with no store file in the listing, setup on a new log opens exactly one segment, at the initial offset, or fails with that segment's error |
| CommitLog.SetupPlanParseError | internal/log/log.go:47-50 | a store file whose name does not parse aborts setup with a parse error before any segment is opened; when it is the first such file in the listing, the error is its own |
| CommitLog.SetupPlanReopen | internal/log/log.go:37-72 | a listing holding the files of segments at ascending bases reopens exactly those segments, in that order, without error |
| CommitLog.OpenablePrefix | internal/log/log.go:59-63 | the number of leading bases whose files open: all before it open, the one at it fails |
| CommitLog.Log.OpenAll | internal/log/log.go:59-63 | opens a segment per base in order and stops at the first that cannot be opened, returning its error; the bases opened are exactly the openable prefix |
| CommitLog.Log.NewSegment | internal/log/log.go:74-83 | on success the new segment is appended and made active and holds its file's records; on failure list, active segment and directory are unchanged |
| CommitLog.Log.AppendActive | internal/log/log.go:89-92 | the active segment's append: its offset is the old `nextOffset`, the payload is added to the records and persisted; an I/O or full-index error changes nothing (assumed of the segment, see Left out) |
| CommitLog.Log.Rotate | internal/log/log.go:94-96 | opens a segment at `off + 1` and makes it the active, open, last segment when its files open, otherwise changes nothing; an ordered list stays ordered and an offset that resolved before still resolves to the same segment |
| CommitLog.Log.Append | internal/log/log.go:85-98 | `Ok` exactly when the active segment neither fails nor has a full index; returns the old `nextOffset` and appends the payload; rotates when the segment is maxed and the next one opens, making the new, open segment active and last, and reports `Ok` even when it does not open; the persisted records change only by this append and the new segment; an ordered log stays ordered and the new offset reads back from the old active segment |
| CommitLog.Locate | internal/log/log.go:104-110 | the index of the first segment in list order whose range holds the offset, or none |
| CommitLog.OrderedLocate | internal/log/log.go:104-110 | in an ordered list the segment holding an offset is the one the scan finds |
| CommitLog.LocateSnoc | internal/log/log.go:80 | appending a segment to the list does not change where an already-held offset resolves |
| CommitLog.Log.Read | internal/log/log.go:100-116 | `ErrOffsetOutOfRange` when no segment holds the offset; otherwise the record at that offset of the first segment that holds it, or that segment's I/O error |
| CommitLog.Log.Close | internal/log/log.go:118-128 | closes segments in list order; fails exactly when some segment's close fails, with the first such error; the segments before it are closed and the rest untouched |
| CommitLog.Log.CloseLoop | internal/log/log.go:122-127 | the loop: stops at the first segment that fails to close, all earlier ones now closed |
| CommitLog.Log.Remove | internal/log/log.go:130-135 | a close error is swallowed: success, nothing deleted, the segments before the failing one closed and the rest untouched; otherwise every segment is closed and the directory deleted, or `RemoveAll`'s error is returned with the directory kept |
| CommitLog.Log.Reset | internal/log/log.go:137-142 | when closing fails, the segments before the failing one are closed and the rest untouched, and setup runs again on the undeleted directory: it appends fresh, open segments holding the persisted records after the old ones, with the outcome `SetupPlan` gives, and the last one added becomes active; when `RemoveAll` fails, success with everything closed; when the directory is deleted, setup's listing error is returned and the closed segments stay |
| CommitLog.Log.LowestOffset | internal/log/log.go:144-148 | the first segment's base; an ordered log holds no offset below it |
| CommitLog.BelowLowestNotFound | internal/log/log.go:144-148 | below the first base no segment of an ordered list holds an offset |
| CommitLog.Log.HighestOffset | internal/log/log.go:150-158 | `nextOffset - 1` of the last segment, or 0; an ordered log holds nothing above it, and holds it when the last segment has records |
| CommitLog.AboveHighestNotFound | internal/log/log.go:150-158 | at or above the last segment's `nextOffset` no segment of an ordered list holds an offset |
| CommitLog.Log.Truncate | internal/log/log.go:160-177 | fails exactly when removing some segment below `lowest` fails, with the first such error and the list unchanged; otherwise the list becomes exactly the segments with base at least `lowest`, in order; every segment removed is closed and the persisted records lose exactly the removed bases (on failure, those removed before it); every kept segment keeps its `closed` flag, and on failure so does every segment from the failing one on; `activeSegment` is never touched |
| CommitLog.Log.RemoveBelow | internal/log/log.go:164-173 | Truncate's loop: removes segments below `lowest` in order and stops at the first failure, reported iff some removal fails; collects the others; the persisted records lose exactly the bases removed; segments it keeps, and on failure those from the failing one on, keep their `closed` flag |
| CommitLog.StoresWithoutIsDifference | internal/log/log.go:164-173 | deleting the files of the segments below `lowest` one by one leaves the persisted records minus exactly those bases |
| CommitLog.Log.KeepOnly | internal/log/log.go:175 | the list becomes the kept segments, still well formed, and still ordered when it was |
| CommitLog.Kept | internal/log/log.go:164-175 | the segments Truncate keeps, in list order, never more than the list; `KeptMembers`, `KeptOrdered` and `KeptDistinct` state which ones and what they keep |
| CommitLog.KeptMembers | internal/log/log.go:164-173 | the kept segments are exactly those of the list whose base is at least `lowest` |
| CommitLog.KeptOrdered | internal/log/log.go:164-175 | keeping a subsequence of an ordered list keeps it ordered |
| CommitLog.KeptDistinct | internal/log/log.go:164-175 | the kept segments are distinct |
| CommitLog.TruncateKeepsActiveOrEmpties | internal/log/log.go:160-177 | truncating an ordered list whose last segment is active keeps that segment last unless nothing is kept |
| CommitLog.TruncateDropsStraddledOffsets | internal/log/log.go:166-169 | an offset at or above `lowest` held by a segment with a smaller base is held by no kept segment |
| CommitLog.FirstTrue | internal/log/log.go:122-127 | the index of the first failing step: all before it succeed |
| FileNames.HasSuffix | internal/log/log.go:45 | holds exactly when the name is some string followed by the suffix |
| FileNames.TrimSuffix | internal/log/log.go:46 | with the suffix, the result plus the suffix is the name; without it, the name is unchanged |
| FileNames.ParseUint | internal/log/log.go:47 | `Ok` exactly for a non-empty string of decimal digits at most 2^64-1, with its decimal value; otherwise a `NumError` naming the string |
| FileNames.StoreOffsets | internal/log/log.go:43-53 | the offsets of the store files in listing order, at most one per entry; `StoreOffsetsSpec` and the lemmas after it characterise the result |
| FileNames.ScanStoreOffsets | internal/log/log.go:43-53 | the loop returns exactly `StoreOffsets` of the listing |
| FileNames.StoreOffsetsSpec | internal/log/log.go:43-53 | collecting succeeds exactly when every store file's prefix parses, and then yields one offset per store file, and exactly the values those prefixes denote |
| FileNames.StoreOffsetsErrorSticks | internal/log/log.go:47-50 | the first parse error ends the collection with that error |
| FileNames.StoreOffsetsErrorIsParse | internal/log/log.go:47-50 | collecting fails only with a parse error |
| FileNames.StoreOffsetsNone | internal/log/log.go:43-53 | a listing without store files collects no offsets |
| FileNames.StoreFileNameRoundTrip | internal/log/log.go:45-47 | a store file name written for a base is recognised as a store file and parses back to that base |
| FileNames.IndexFileNameIsNotStore | internal/log/log.go:45 | an index file name is never taken for a store file |
| FileNames.SegmentFileNamesRoundTrip | internal/log/log.go:43-53 | the files of segments at given bases collect back to those bases, in order |
| FileNames.SortAscending | internal/log/log.go:55-57 | the result is ascending and a permutation of the input |
| FileNames.SortAscendingSorted | internal/log/log.go:55-57 | sorting an ascending list leaves it unchanged |
| FileNames.SortAscendingLastIsMax | internal/log/log.go:55-57 | the last element of the sorted list bounds every element of the input |
| Segments.OpenSegment | internal/log/segment_test.go:21-23 | fails exactly when the directory is gone or the files are faulty; otherwise a fresh, open segment at the base that resumes from its persisted records (none for new files) |
| Segments.Segment.Append | internal/log/segment_test.go:26-38 | returns the old `nextOffset`, appends and persists the payload; `io.EOF` exactly when the index has no room; an I/O error on a closed or faulty segment; no change on error (assumed, see Left out) |
| Segments.Segment.IsMaxed | internal/log/log.go:94 | `storeBytes >= maxStoreBytes` or `indexBytes >= maxIndexBytes`; in a valid segment, the records' frames reach the store limit or their index entries reach the index limit (segment_test.go:24, 38, 45, 51) |
| Segments.Segment.Read | internal/log/segment_test.go:31-33 | the record at `off - baseOffset` for an offset the segment holds; `io.EOF` otherwise and an I/O error on a closed or faulty segment (both assumed, see above) |
| Segments.Segment.Close | internal/log/log.go:123 | closes the segment; fails, changing nothing, exactly when it is already closed or faulty |
| Segments.Segment.Remove | internal/log/segment_test.go:47-51 | closes the segment and deletes its persisted records; fails, changing nothing, exactly when it is closed or faulty |
| Segments.IndexStallScenario | internal/log/log.go:89-97 | under the assumed sizes, a segment of 85 records with 1024-byte limits has an index too full for another entry, is not maxed, and its next append fails with `io.EOF` and leaves it not maxed |
| Segments.FullIndexIsMaxed | internal/log/segment_test.go:36-38 | with an index limit that is a whole number of entries, a segment whose index is too full for another entry is maxed |
| Segments.StoreSizeCopies | internal/log/segment_test.go:40-45 | a store of n copies of one record holds n frames of it |
| Segments.AppendCopies | internal/log/segment_test.go:26-34 | n appends of one payload to an empty segment with room return consecutive offsets from the base and each read returns the payload |
| Segments.FillScenario | internal/log/segment_test.go:11-38 | a fresh segment at 16 is not maxed; three appends return 16, 17, 18 and read back; the fourth gets `io.EOF` and the segment is maxed |
| Segments.ReopenScenario | internal/log/segment_test.go:40-51 | reopened with a store limit of three values the segment is maxed; after `Remove` a new segment at 16 is not maxed |
| Segments.SegmentTestScenario | internal/log/segment_test.go:11-52 | every assertion of `TestSegment` holds |

## Left out

- Offsets, base offsets and limits are unbounded `nat`s. The `uint64` wrap-around of `off + 1` at log.go:95 is not modelled.
- CommitLog.Log.LowestOffset: requires a non-empty segment list. The Go code panics on an empty one, which `Truncate` can produce.
- CommitLog.Log.HighestOffset: requires a non-empty segment list. The Go code panics on an empty one.
- CommitLog.Log.Append: requires an active segment. When setup failed before opening any segment, `activeSegment` is nil and log.go:89 dereferences a nil pointer. When setup failed on a later base, `activeSegment` is the last segment it opened; `NewLog` then still returns a log that `Append` accepts.
- FileNames.ParseUint: assumes a 64-bit `int`, so bit size 0 means 64 bits.
- Store sizes count 8 + |payload| bytes per record. The encoded size of the protobuf `Record` is not modelled.
- The on-disk byte layouts are not modelled. That covers the store frames, the index entries, and index pre-allocation and truncation on close.
- A segment's files are abstracted to the records they persist.
- The directory listing passed to `setup` is a parameter. It is not derived from the persisted records. Listing order is the caller's.
- File-system failures are modelled as a fixed set of faulty base offsets. Also fixed are whether `RemoveAll` fails and whether the directory exists. Transient failures and partial writes are not modelled.
- `Reader` and `originReader` (log.go:179-198) are not modelled. They stream the raw store bytes, whose layout is not modelled.
- The `sync.RWMutex` is not modelled. Every operation runs alone.
- Segments.Segment.Append: a failed append, including one that fails with `io.EOF`, is assumed to change nothing. `segment.go` is not part of this model. If the store frame is written before the index entry, an `io.EOF` append still grows the store by one unindexed frame, and the model does not capture that.
- Segments.Fails: a closed segment, or one whose base is in the faulty set, is assumed to fail every append, read, close and remove. Neither `log.go` nor `segment_test.go` shows this; it stands in for the file errors of the unseen segment code.
- `segment.go`, `store.go` and `index.go` are not part of this model. The segment contract comes from how `log.go` uses segments and from `segment_test.go`.
