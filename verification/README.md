# Verified model of the repository server's core

This project models the parts of the server where several records of the same fact have to agree,
and proves that they do. `dafny verify dfyconfig.toml` checks the whole project.

**Artifact store and output capture.** Command output is cut into redacted records. Each record is
appended as a frame to one log and copied into a companion file; everything is charged against a
quota and later read back page by page through opaque cursors. `Frames` is the log format with its
scan after a restart; `Pager`, `PageContents`, `PagerRuns` and `PagerEnds` are the two-phase page
walk, what a page holds, whole runs of a writer and a reader, and when paging ends or fails;
`Cursors` are the tokens. `Collections`, `ByteStrings` and `Sorting` hold general facts; `Disks` is an
in-memory disk (path to bytes and modification time), `Tallies` and `StoreBooks` the accounting,
`Eviction` the cleanup, `Completions` the marker, and `ArtifactStores` the class with its writer:
`Charged` says that every charge is bytes on disk plus bytes reserved by a write in flight and that
`usage` is the sum, `Recorded` that every log is readable up to its committed end, `Tended` that open
writers are held and seals tell the truth, `Settled` that nothing is in flight for an artifact nobody
holds, and `Valid` adds `usage <= totalLimit`. Every call keeps them, starting from `Open` on an
arbitrary disk; the one exception is a writer that lets go last while bytes are in flight (`Finish`).
`StoreRuns` ties the two levels together: a writer and a reader of a real store, among other users,
make a run of `PagerRuns`. `OutputStreams` is the pure account of how a stream is cut into records,
`Redactions` says what becomes of a text by where its newlines and key blocks are, whatever the
chunks, `LongLines` is the limit of the chunking theorem, `OutputStore` the two captures of a command
on top of the store, `CommandRuns` a whole command, from its chunks to the pages a client fetches, and
`Interleavings` the two streams of a command at the same time.

**Operations.** `Operations` is the registry as a state machine with one step per locked section,
`OperationRegistry` the class whose methods are sequences of those steps; each returns the run it
took. A context carries an owner and stands under another context; the tree of owners and the tree
of contexts are kept apart, because a detached job keeps its owner and not its context.

**Globs.** `Regexes` is the syntax the compiler emits, with its parse and its meaning, `Globs` the
compiler, `GlobMeaning` what a pattern means segment by segment, `GlobTexts` what is left of that
meaning when the text is compiled byte by byte.

**Edits.** `LineEdits` are edits by line number over Python's line boundaries, `TextEdits` all edits of
a text and what each of them leaves, `BatchEdits` batches of operations with snapshot and rollback
over a tree of files and directories.

**Further parts.** `RecentChanges` (bounded heap and dictionary), `SchemaWalk` and `SchemaMeaning`
(cyclic references, Go and Python, and what the walk says about the empty object), `HeavySlots`
(leases and cancel functions), `Previews` and `Utf8` (cuts between characters).

Faults of the environment (a write that stops half-way, a failing sync, the free space of the disk,
the clock) are arbitrary choices inside the methods. A store can be declared `calm`: then no call of
the operating system fails and a probe finds room for all the store may take, and the methods say
when they succeed, up to a whole command: on a calm store nobody else uses it comes back if and only
if both quotas leave room for its records and their marker (`RunCommand`, `FirstCommand`). SHA-256,
HMAC, hexadecimal, base64url, the JSON of the marker, redaction, the private-key tests, path
resolution and `filepath.Match` are functions given from outside with the laws they need (`Lawful`);
`PlainCodecs` has functions that meet these laws.

Where a property does not hold of the code, the exact condition is proved and an input is given:

- a text page fails if and only if one of its walks gets, with some budget left, to a record from
  which no text can be formed (`TextPageFails`, `TextPageCanFail`);
- records depend on the chunks if and only if a line is longer than 65,536 bytes
  (`ChunkingMattersOnlyForLongLines`);
- a preview exceeds its limit if and only if the stream fits in the head window and its text is
  longer (`Preview`, `PreviewCanExceed`);
- a rollback fails if and only if a named file became a directory (`BatchEditFiles`,
  `RollbackCanFail`);
- a pattern text whose double stars are whole segments keeps its meaning on every path if and only if
  it is ASCII and has no double star, and on paths without newlines if and only if it is ASCII or asks
  for a newline (`MeaningOnEveryPath`, `MeaningOnPlainPaths`, `WideIsLost`, `NewlineIsLost`);
- in a schema whose references resolve without a cycle, not being rejected means accepting the empty
  object, at every subschema, if and only if nothing is overlooked at any of them
  (`ExactIfNothingOverlooked`, `OverlookedThings`, `CyclesStayOpen`);
- the Go and the Python schema walks differ exactly where dropping every oneOf beside an anyOf
  changes the Go answer (`WalksAgree`, `WalksCanDiffer`);
- line edits undo if and only if the touched lines ended in a newline and no carriage return in front
  meets a newline behind (`ReplaceUndo`, `DeleteUndo`, `ReplacementMerges`, `DeletionMerges`), and an
  insertion leaves the other lines alone if and only if the front keeps apart from what is inserted
  (`InsertKeepsOthers`, `LastLineGrows`).

## Model

| member | source | states |
|---|---|---|
| `ByteStrings.BigEndianRoundTrip` | go/internal/tools/artifact_store.go:484-486 | a length written with eight big-endian bytes is read back unchanged |
| `ByteStrings.FromBigEndianRoundTrip` | go/internal/tools/artifact_store.go:484-486 | eight header bytes are the bytes that would be written for the length they hold |
| `ByteStrings.BigEndianAt` | go/internal/tools/artifact_store.go:484-486 | the byte at place i is the digit of weight 256 to the number of bytes behind it: the most significant byte comes first |
| `Frames.HeaderLayout` | go/internal/tools/artifact_store.go:484-486 | a header has nine bytes: the stream, then the length with its most significant byte first |
| `Frames.FrameAt` | go/internal/tools/artifact_store.go:711-728 | every whole frame of a log, complete or cut short, is read back from its offset: stream, length and payload |
| `Frames.ScanArtifactFrames` | go/internal/tools/artifact_store.go:438-471 | the scanning loop over a moving file offset computes the recursive scan of any bytes |
| `Frames.CrashRecovery` | go/internal/tools/artifact_store.go:438-471 | on a log cut after any number of bytes the scan succeeds with the end and the payload size of the longest prefix of whole frames |
| `Frames.AcceptedPrefix` | go/internal/tools/artifact_store.go:438-471 | the frames such a scan accepts are exactly the leading whole ones |
| `Frames.ScanAccepts` | go/internal/tools/artifact_store.go:438-471 | on arbitrary bytes a successful scan reports the end and size of a log of frames within the limit that stands at the front of the file |
| `Frames.ScanRefuses` | go/internal/tools/artifact_store.go:438-471 | a scan of any bytes fails if and only if behind some whole frames within the limit stands a header that declares 2^63 bytes or more, or more than the limit |
| `Frames.RestartFindsCommitted` | go/internal/tools/artifact_store.go:438-512 | after a crash in the middle of a record a restart finds exactly the committed frames and their counters |
| `Utf8.ValidCut` | go/internal/tools/artifact_store.go:758-768 | valid text may be cut before a byte that starts a character and nowhere else |
| `Utf8.LongestValidIsLongest` | go/internal/tools/artifact_store.go:758-768 | the trimmed piece is the longest valid prefix |
| `Utf8.CutKeepsNothing` | go/internal/tools/artifact_store.go:758-768 | a cut through valid text keeps nothing exactly when it runs through the first character |
| `Utf8.ValidMeansText` | go/internal/tools/artifact_store.go:758-768 | a byte sequence counts as valid if and only if it is the encoding of some text: no surrogate, nothing overlong, nothing above 10FFFF (section 3 of RFC 3629) |
| `Pager.TrimToValid` | go/internal/tools/artifact_store.go:758-768 | the byte-by-byte retreat computes the longest valid prefix |
| `Pager.ReadPayload` | go/internal/tools/artifact_store.go:735-783 | seek, read, trim and the two page boundaries of one frame |
| `Pager.ReadFrame` | go/internal/tools/artifact_store.go:710-783 | one turn of the inner loop at any file position |
| `Pager.TurnRefuses` | go/internal/tools/artifact_store.go:701-746 | on any file, by the bytes of its headers: exactly when a turn ends, skips a frame, or refuses a header cut short, a length out of range or past the committed end, a cursor past its frame, a payload cut short |
| `Pager.WalkFrames` | go/internal/tools/artifact_store.go:701-790 | the inner loop over one stream, and the cursor it leaves |
| `Pager.WalkPhases` | go/internal/tools/artifact_store.go:701-806 | the two-phase loop computes the page for any file, view and decoded cursor |
| `Pager.WalkShape` | go/internal/tools/artifact_store.go:747-783 | a walk stays within its byte budget and its pieces are whole characters when text is asked for |
| `PageContents.WalkDelivers` | go/internal/tools/artifact_store.go:706-790 | from a good place a walk over committed frames delivers the stream from there on, labelled with that stream, and names the next good place |
| `PageContents.PageDelivers` | go/internal/tools/artifact_store.go:701-806 | every page from a good cursor is exactly the stretch of stdout ++ stderr that starts there, split into its streams; only a text page can fail, and the next cursor is good again |
| `PageContents.SpotSurvivesAppend` | go/internal/tools/artifact_store.go:473-512 | a place in a log stays a good place when the writer appends |
| `PagerRuns.StepKeeps` | go/internal/tools/artifact_store.go:647-849 | each append, completion, locked sample and later read keeps the invariant between delivered bytes and cursor |
| `PagerRuns.PagesAreAPrefix` | go/internal/tools/artifact_store.go:473-849 | over every run of a writer and a reader the pages add up to a prefix of stdout ++ stderr, of stdout alone while the source is active, and to the whole at eof |
| `PagerRuns.DeliveredWasCommitted` | go/internal/tools/artifact_store.go:658-806 | after a page the reader has no more than the log held when that page was begun |
| `StoreRuns.Session.constructor` | go/internal/tools/artifact_store.go:209-249 | a session begins where create ends, with the empty run |
| `StoreRuns.Session.WriteRecord` | go/internal/tools/artifact_store.go:473-512 | in the real store a written record is the event Append of the run, a failed one no event |
| `StoreRuns.Session.Finish` | go/internal/tools/artifact_store.go:514-541 | a close with its marker is the event Complete, any other close no event |
| `StoreRuns.Session.BeginPage` | go/internal/tools/artifact_store.go:658-665 | the locked sample is the event Look, which the run allows because a readable marker is a seal |
| `StoreRuns.Session.FinishPage` | go/internal/tools/artifact_store.go:674-848 | marker, walk and reply are the event Deliver on what the file holds by then, and the reader holds the next token; only a text page can fail; the size a page reports is never less than all the reader has received, and there is a digest exactly when the source is complete |
| `StoreRuns.Session.Elsewhere` | go/internal/tools/artifact_store.go:209-541 | other logs, other readers and companions leave the session as it is, unless its closed artifact was evicted whole |
| `StoreRuns.Session.ReaderIsSafe` | go/internal/tools/artifact_store.go:473-849 | what the reader of a real store received is a prefix of the content of the log, of stdout alone until it is sealed, and all of it at eof |
| `PagerEnds.AllContents` | go/internal/tools/artifact_store.go:701-806 | the base64 pages from any good cursor on hold exactly the remaining bytes |
| `PagerEnds.PageCount` | go/internal/tools/artifact_store.go:747-806 | n remaining bytes take exactly floor(n/m)+1 base64 pages of m bytes |
| `PagerEnds.WholeArtifact` | go/internal/tools/artifact_store.go:647-849 | a completed artifact of n bytes is read in floor(n/m)+1 pages whose contents are the artifact |
| `PagerEnds.TextWalk` | go/internal/tools/artifact_store.go:747-768 | a walk over any records fails if and only if it gets, over records that are text to their end and with some budget left, to a record from which no text can be formed; it ends if and only if all that is left is text and shorter than the budget |
| `PagerEnds.TextPageFails` | go/internal/tools/artifact_store.go:701-790 | from any cursor the log issued and for any records, a text page fails if and only if the first walk meets such a record, or stdout ends within the budget of an inactive source and the walk over stderr meets one with the bytes left |
| `PagerEnds.UnformableText` | go/internal/tools/artifact_store.go:758-768 | for a record that is text this is the budget ending inside its first character |
| `PagerEnds.TextPageCanFail` | go/internal/tools/artifact_store.go:758-768 | a log of valid text and a page size for which no text page can be formed |
| `Cursors.CursorRoundTrip` | go/internal/tools/artifact_store.go:604-645 | every token decodes back to the cursor it was made from |
| `Cursors.TokenReads` | go/internal/tools/artifact_store.go:611-616 | a token written out: four decimal numbers and the MAC of identifier, payload kind and numbers |
| `Cursors.DecodedIsDecoded` | go/internal/tools/artifact_store.go:618-645 | whatever the token, a decoded cursor has phase 1 or 2 and natural offsets |
| `Cursors.CursorBelongsToOneArtifact` | go/internal/tools/artifact_store.go:611-645 | a token is accepted for another artifact or payload kind only if the MACs of the two different messages collide |
| `Cursors.GoodCursorFits` | go/internal/tools/artifact_store.go:637-641 | a cursor of a log smaller than 2^63 bytes fits the token |
| `Completions.HashStream` | go/internal/tools/artifact_store.go:858-879 | one pass over the log collects the payload of one stream behind what was hashed before |
| `Completions.LogicalMetadata` | go/internal/tools/artifact_store.go:851-882 | the two passes hash both streams in order, and the size is the length of what was hashed |
| `Completions.CollectsLogical` | go/internal/tools/artifact_store.go:851-882 | on a whole log the hashed bytes are exactly what the pager shows |
| `Completions.BrokenIsRefused` | go/internal/tools/artifact_store.go:851-882 | no size and no digest come of a log behind whose whole frames stands anything broken: a header cut short, a length of 2^63 or more or past the limit, a payload of either stream cut short |
| `Eviction.EvictionFromLoop` | go/internal/tools/artifact_store.go:391-423 | sorted order and stopping point imply, in terms of the times of single files: nobody busy is removed; an artifact without files, or whose files are all older than the time to live, is; the others go oldest first, as their newest file tells, and only while over the limit; failure leaves nothing idle |
| `Eviction.OlderGoFirst` | go/internal/tools/artifact_store.go:374-423 | an artifact one of whose files is younger than the time to live goes only if every idle artifact goes whose files are all older than that file |
| `Eviction.SortedListing` | go/internal/tools/artifact_store.go:391-396 | sorting the collected candidates lists every idle artifact with files once, expired first, then oldest first |
| `Sorting.SortIsSorted` | go/internal/tools/artifact_store.go:391-396 | the sorted list is an ordered rearrangement |
| `ArtifactStores.ArtifactStore.ListCandidates` | go/internal/tools/artifact_store.go:368-390 | the first loop of cleanup drops entries without files and lists every other idle artifact with the time of a file no other file is newer than, its size, and whether that time is past the time to live |
| `Disks.NewestIsLast` | go/internal/tools/artifact_store.go:373-377 | the time the loop computes is m if and only if some file of the artifact was modified at m and none later, and there is none if and only if there is no file |
| `ArtifactStores.ArtifactStore.RemoveArtifact` | go/internal/tools/artifact_store.go:401-418 | one removal deletes all files and counters of the artifact and gives its bytes back |
| `ArtifactStores.ArtifactStore.EvictInOrder` | go/internal/tools/artifact_store.go:397-423 | the second loop removes a front of the sorted list: it stops at a candidate that is not expired once the bytes fit, and not before |
| `ArtifactStores.ArtifactStore.CleanupLocked` | go/internal/tools/artifact_store.go:360-424 | cleanup has the outcome above, stated on file times, keeps the books balanced, leaves held artifacts untouched and idle ones whole or gone, and succeeds if and only if the incoming bytes fit |
| `StoreBooks.ChargeKeepsBalance` | go/internal/tools/artifact_store.go:284-297 | charging and giving back keep charge = bytes on disk + bytes in flight, and the sum |
| `StoreBooks.AppendKeepsLogs` | go/internal/tools/artifact_store.go:493-510 | appending a frame with the counters WriteRecord sets keeps every log readable up to its committed end |
| `StoreBooks.AppendKeepsBalance` | go/internal/tools/artifact_store.go:493-510 | an appended frame turns its reservation into disk use |
| `StoreBooks.FreshKeepsBalance` | go/internal/tools/artifact_store.go:219-237 | recounting an artifact after its log is truncated and its marker removed keeps the balance |
| `ArtifactStores.ArtifactStore.constructor` | go/internal/tools/artifact_store.go:65-82 | limits and a time to live that are not positive, and a negative reserve, fall back to the defaults; nothing is counted or held yet |
| `ArtifactStores.ArtifactStore.ScanArtifact` | go/internal/tools/artifact_store.go:173-205 | one artifact is counted and its log scanned; only a damaged log fails |
| `ArtifactStores.ArtifactStore.Scan` | go/internal/tools/artifact_store.go:136-207 | the scan fails if and only if some record log has a frame length out of range, and otherwise counts everything on disk |
| `ArtifactStores.ArtifactStore.Open` | go/internal/tools/artifact_store.go:65-95 | a store opened on any disk has the limits asked for or the defaults, satisfies every invariant, and fails if and only if a record log is damaged; its logs are the accepted frames, and every truthful marker is a seal |
| `ArtifactStores.ArtifactStore.ReserveWrite` | go/internal/tools/artifact_store.go:261-288 | a reservation keeps usage within the store limit and the free-space reserve; the item quota fails exactly when exceeded, the store quota only when nothing idle is left, the reserve only when it would be crossed; for the only holder in a calm environment it succeeds if and only if both quotas leave room |
| `ArtifactStores.ArtifactStore.MakeRoom` | go/internal/tools/artifact_store.go:268-272 | a sweep when the bytes would not fit: they fit afterwards if and only if it succeeds, held artifacts are kept and idle ones whole or gone |
| `ArtifactStores.ArtifactStore.CheckDisk` | go/internal/tools/artifact_store.go:273-284 | success means the free-space reserve survives the write, and a refusal that it would not; in a calm environment what fits into the store is not refused |
| `ArtifactStores.ArtifactStore.TakeSpace` | go/internal/tools/artifact_store.go:273-288 | free-space check and charge: the bytes are charged and reserved, or nothing is |
| `ArtifactStores.ArtifactStore.Charge` | go/internal/tools/artifact_store.go:284-297 | usage, the artifact charge and the free space move together |
| `ArtifactStores.ArtifactStore.RollbackWrite` | go/internal/tools/artifact_store.go:290-297 | a reservation given back leaves usage, charge and bytes in flight as before it |
| `ArtifactStores.ArtifactStore.Hold` | go/internal/tools/artifact_store.go:300-302 | one more holder, which alone can make an artifact active |
| `ArtifactStores.ArtifactStore.Release` | go/internal/tools/artifact_store.go:303-310 | one holder fewer, and no entry at zero |
| `ArtifactStores.ArtifactStore.ReplaceCompanion` | go/internal/tools/artifact_store.go:311-351 | a companion is replaced with its old bytes given back, or nothing changes; the log is untouched |
| `ArtifactStores.ArtifactStore.WriteCompanion` | go/internal/tools/artifact_store.go:299-352 | replacing a companion keeps every invariant, holds the artifact meanwhile, and leaves nothing in flight |
| `ArtifactStores.ArtifactStore.StartLog` | go/internal/tools/artifact_store.go:218-242 | the log restarts empty, the old marker is gone, other files stay, and usage does not grow |
| `ArtifactStores.ArtifactStore.CreateLog` | go/internal/tools/artifact_store.go:209-248 | sweep and restart, or no change to who is active |
| `ArtifactStores.ArtifactStore.Create` | go/internal/tools/artifact_store.go:209-249 | in a store within its limit it fails if and only if the artifact is active, and then nothing changed; otherwise an open writer on an empty log |
| `ArtifactStores.ArtifactStore.CommitFrame` | go/internal/tools/artifact_store.go:493-510 | one frame more in the file, in the log and in both counters, and its reservation used up |
| `ArtifactStores.ArtifactStore.Summary` | go/internal/tools/artifact_store.go:551-570 | the content for the marker of a whole log fits it and reads back as the size and digest of exactly the logical content |
| `ArtifactStores.ArtifactStore.WriteCompletionMarker` | go/internal/tools/artifact_store.go:551-577 | on success the marker holds the size and digest of exactly the logical content; on failure there is no marker and nothing stays charged; for the only holder in a calm environment it succeeds if and only if the quotas leave room for it |
| `ArtifactStores.ArtifactStore.BeginRead` | go/internal/tools/artifact_store.go:658-665 | the locked sample of activity and counters, and the hold |
| `ArtifactStores.ArtifactStore.FinishRead` | go/internal/tools/artifact_store.go:674-848 | marker, page and reply for any cursor and sample: without a marker that counts the size is the sampled one, and the source is complete exactly when it looked inactive and has one; no file content changes, the log is as recent as the clock after a page, and the hold is released |
| `ArtifactStores.ArtifactStore.MarkerCounts` | go/internal/tools/artifact_store.go:671-677 | a marker counts exactly when its file has at most 1,024 bytes and decodes into a natural size and a digest |
| `ArtifactStores.ArtifactStore.ReaderSees` | go/internal/tools/artifact_store.go:658-735 | a reader sees exactly the frames committed at its sample, however many follow while it reads |
| `ArtifactStores.ArtifactStore.ReadPage` | go/internal/tools/artifact_store.go:647-849 | bad token, missing file or the right page; issued tokens decode to the next cursor; the size of a log without a marker that counts is the payload of all its committed frames; a digest is reported exactly when the source is complete; a sealed artifact reports its size and digest |
| `ArtifactStores.ArtifactStore.ReadThenCleanup` | go/internal/tools/artifact_store.go:371-424 | an artifact whose page was read at `now` goes in a cleanup within the time to live only if every idle artifact goes whose files are all older |
| `ArtifactStores.ArtifactStore.LogFits` | go/internal/tools/artifact_store.go:604-645 | no log within the store limit outgrows the numbers in a cursor token |
| `ArtifactStores.ArtifactWriter.constructor` | go/internal/tools/artifact_store.go:248 | a new writer stands at the start of its file and has no companions |
| `ArtifactStores.ArtifactWriter.WriteFrame` | go/internal/tools/artifact_store.go:484-506 | the file keeps its old content in front; it ends with the whole frame if both writes succeed |
| `ArtifactStores.ArtifactWriter.PutFrame` | go/internal/tools/artifact_store.go:479-510 | a committed frame, or file, log, offset and charge as before; a closed file refuses |
| `ArtifactStores.ArtifactWriter.WriteRecord` | go/internal/tools/artifact_store.go:473-512 | the log grows by exactly this record and the companion copies stay reserved, or nothing changes; the item quota fails exactly when exceeded; for the only holder in a calm environment it succeeds if and only if both quotas leave room |
| `ArtifactStores.ArtifactWriter.Finish` | go/internal/tools/artifact_store.go:514-541 | once: the hold is released and, when complete and successful, the artifact is sealed; a second call changes nothing; the store stays settled unless the last hold goes while bytes are in flight; for the only holder in a calm environment the seal succeeds if and only if there is room for it |
| `Redactions.AnyOutput` | go/internal/tools/output_store.go:55-129 | for any chunks, by the positions of newlines: the text is cut into lines, stretches of long lines which with the 4,096 bytes behind them show no secret, and rests of long lines held back up to their newline; every byte belongs to one of them, and the records are exactly: the key mark for a line that begins a key block, nothing for the lines inside it, the redaction of any other line or stretch, the mark and the newline of what is held back |
| `Redactions.OnlyLines` | go/internal/tools/output_store.go:55-129 | a text without a line of more than 65,536 bytes is cut behind every newline and nowhere else |
| `Redactions.LineRecordsAreUnique` | go/internal/tools/output_store.go:55-129 | a text read line by line has one list of records |
| `Redactions.PlainText` | go/internal/tools/output_store.go:115-129 | when no line begins a key block the records are the lines, each of them redacted |
| `Redactions.BlockGivesOneMark` | go/internal/tools/output_store.go:115-129 | a key block gives one mark, for its first line; the lines up to the one that ends it give nothing, and behind it the stream is open again |
| `Redactions.NothingElseIsEmitted` | go/internal/tools/output_store.go:55-129 | whatever holds for the marks, for a newline and for everything redacted holds for every record of every output |
| `Redactions.ShortLinesFit` | go/internal/tools/output_store.go:61-63 | the lines found one after the other are short if and only if no stretch without a newline is longer than 65,536 bytes |
| `OutputStreams.ChunkingDoesNotMatter` | go/internal/tools/output_store.go:55-101 | for lines of at most 65,536 bytes any split into writes, then a close, emits exactly what a fold over the lines emits |
| `LongLines.ChunkingMattersOnlyForLongLines` | go/internal/tools/output_store.go:55-101 | a text comes out the same for every redactor and every split into writes if and only if it has no line of more than 65,536 bytes |
| `LongLines.AbsorbCounts` | go/internal/tools/output_store.go:58-99 | one write gives at least one record for each line, and one more when it overflows |
| `OutputStreams.AbsorbFolds` | go/internal/tools/output_store.go:58-99 | the loop of one write takes the lines the fold takes and leaves the front of what it reads next |
| `OutputStore.StreamCapture.constructor` | go/internal/tools/output_store.go:40-49 | a new capture has nothing pending and limits that are not negative |
| `OutputStore.StreamCapture.Remember` | go/internal/tools/output_store.go:150-160 | counter and both windows take in one record |
| `OutputStore.StreamCapture.Preview` | go/internal/tools/output_store.go:192-203 | within the limit if and only if the stream outgrew the head window or its text is short enough; a stream of text that fits in the head window is returned as it is, a longer one as the head window, the marker and the tail window, shortened to the limit |
| `OutputStore.PreviewCanExceed` | go/internal/tools/output_store.go:192-203 | a capture of two bytes whose preview with limit 1 has both |
| `Previews.Utf8Window` | go/internal/tools/output_store.go:210-226 | the window from the first byte that starts a character, cut back to whole characters |
| `ArtifactStores.ArtifactStore.AppendOutput` | go/internal/tools/output_store.go:137-149 | an output file grows by the bytes that arrived, and the reservation for all of them is used up or given back |
| `OutputStore.StreamCapture.WriteFile` | go/internal/tools/output_store.go:137-149 | bytes that reached the companion use up their reservation, the rest is given back; what others have reserved stays |
| `OutputStore.StreamCapture.Mirror` | go/internal/tools/output_store.go:131-136 | the first half of an emit, whatever the other stream has outstanding: the record is in the log and its copy promised, or nothing happened; it succeeds when it fits and nothing goes wrong |
| `OutputStore.StreamCapture.Copy` | go/internal/tools/output_store.go:137-162 | the second half: the promised copy is made or given back, and after a success log, companion, counter and windows agree again |
| `OutputStore.StreamCapture.Emit` | go/internal/tools/output_store.go:131-162 | a successful emit keeps log, companion, counter and windows in agreement, whatever the other stream has outstanding, and disturbs nobody else; it succeeds when it fits and nothing goes wrong |
| `OutputStore.StreamCapture.SkipLine` | go/internal/tools/output_store.go:118-123 | inside a key block a line emits nothing and may end the block |
| `OutputStore.StreamCapture.EmitRedactedLine` | go/internal/tools/output_store.go:115-129 | outside a key block exactly one record is added, the key mark for a line that begins one and the redaction of any other line; inside none is, and only the line that ends the block opens the stream again |
| `OutputStore.StreamCapture.TakeOne` | go/internal/tools/output_store.go:87-98 | one line off the front, or the newline of an oversized record |
| `OutputStore.StreamCapture.Spill` | go/internal/tools/output_store.go:61-86 | what remains without a newline waits up to 65,536 bytes; beyond that the mark is emitted when a secret is possible, and otherwise the redaction of all but the last 4,096 bytes |
| `OutputStore.StreamCapture.Write` | go/internal/tools/output_store.go:55-101 | a successful write moves the capture as the specification of one chunk says; any write keeps the store in order and other streams undisturbed; it succeeds when the records it leads to fit and nothing goes wrong |
| `OutputStore.StreamCapture.Close` | go/internal/tools/output_store.go:164-184 | the last line is emitted without its newline |
| `OutputStore.CommandCapture.OpenFiles` | go/internal/tools/output_store.go:234-251 | two empty companions and an open writer that is charged nothing, or no companion left behind; usage does not grow, and nothing fails in a calm environment |
| `OutputStore.CommandCapture.Attach` | go/internal/tools/output_store.go:252-257 | two captures on one writer, each promising one companion copy, agree with its empty log |
| `OutputStore.CommandCapture.Mirror` | go/internal/tools/output_store.go:131-136 | half an emit of one stream keeps both streams in order, wherever the other one stands |
| `OutputStore.CommandCapture.Copy` | go/internal/tools/output_store.go:137-162 | so does the other half |
| `OutputStore.CommandCapture.Start` | go/internal/tools/output_store.go:234-258 | a new command has two healthy empty streams that agree with its empty log; it starts whenever nothing goes wrong |
| `OutputStore.CommandCapture.Write` | go/internal/tools/output_store.go:252-257 | chunks of the two streams in any order, wherever the other stream stands in its emit, keep both in agreement with log, companions and windows; a chunk whose records fit is kept when nothing goes wrong |
| `OutputStore.CommandCapture.CloseStreams` | go/internal/tools/output_store.go:260-262 | both streams are closed, the second whatever happens to the first |
| `OutputStore.CommandCapture.CloseArtifact` | go/internal/tools/output_store.go:260-271 | once both streams have ended, the artifact is sealed with stdout, then stderr, which are also the contents of the two companion files; for the only holder in a calm environment if and only if there is room for the records and their marker |
| `OutputStore.CommandCapture.Close` | go/internal/tools/output_store.go:260-271 | after a successful close the artifact is sealed, the stdout file holds the records of stdout, the stderr file those of stderr, and what the pager returns is the one followed by the other; for the only holder in a calm environment it succeeds if and only if there is room for the final records and their marker |
| `CommandRuns.FetchPage` | go/internal/tools/artifact_store.go:647-849 | one base64 page of a sealed artifact: the next full page or the last stretch, size and digest of the whole, and a token that leads on |
| `CommandRuns.FetchAll` | go/internal/tools/artifact_store.go:647-849 | a client that follows next_cursor gets exactly the content, in floor(n/m)+1 pages |
| `CommandRuns.WriteAllChunks` | go/internal/tools/output_store.go:252-257 | any chunks of both streams in any order are captured; all of them when their records fit and nothing goes wrong |
| `CommandRuns.CloseCapture` | go/internal/tools/output_store.go:260-271 | a healthy capture seals the records of stdout followed by those of stderr; for the only holder in a calm environment if and only if there is room for them |
| `CommandRuns.RecordsAreLines` | go/internal/tools/output_store.go:55-101 | the bytes of the records of stdout and stderr are what the newlines and key blocks of their texts say (`AnyOutput`), and without long lines what their lines say |
| `CommandRuns.ChunksOfOne` | go/internal/tools/output_store.go:253-254 | a chunk belongs to the stream whose number it carries |
| `CommandRuns.ChunksOfBoth` | go/internal/tools/output_store.go:253-254 | the chunks of a stream are those with its number, in their order |
| `CommandRuns.RunCommand` | go/internal/tools/output_store.go:234-271 | from start to last page: the client has the records of stdout, then those of stderr, as newlines and key blocks of the texts determine them, in floor(n/m)+1 pages, and without long lines one record for each line outside of key blocks and one mark for each block; while nobody else holds an artifact and nothing goes wrong it gets them if and only if both quotas leave room for the records and the marker |
| `CommandRuns.FirstCommand` | go/internal/tools/artifact_store.go:65-95 | the same from an empty disk with a plain codec and key, where the condition is a number of bytes; no requirement rules it out |
| `Interleavings.PlayTurns` | go/internal/tools/output_store.go:131-162 | the two streams emit at the same time, half by half, in any interleaving: both are in order after every turn, and at the end each has exactly its own records |
| `Interleavings.CaptureTurns` | go/internal/tools/output_store.go:131-271 | however the turns were interleaved, the sealed artifact holds the records of stdout, then those of stderr; for the only holder in a calm environment it is sealed if and only if there is room for them |
| `Interleavings.CaptureCommand` | go/internal/tools/output_store.go:234-271 | the same from the start of the command; when each stream emits what its chunks give, the content is redacted as that of the streams written one after the other |
| `Operations.StepKeeps` | go/internal/tools/operations.go:74-284 | each locked section and each call between two of them keeps the registry invariants |
| `Operations.History` | go/internal/tools/operations.go:146-163 | over any run a requested cancel stays requested, and status and flag of a finished operation never change again |
| `Operations.AuditedOnce` | go/internal/tools/operations.go:146-163 | the end of an operation is audited at most once, and before it is recorded |
| `Operations.RequestIsRoot` | go/internal/tools/operations.go:88-124 | every operation carries the request and identity of its outermost ancestor |
| `Operations.JobsAreDetached` | go/internal/tools/commands.go:582-605 | an operation started as a job under a context of its own is not marked, its context not ended and it is not finished by anything done to others, in any interleaving |
| `Operations.StartedUnderIsEnded` | go/internal/tools/operations.go:94-131 | whatever was started under the context of an operation, a job included, is dead once that operation was cancelled or finished |
| `Operations.ReachedThroughChild` | go/internal/tools/operations.go:252-265 | what a cascade reaches besides its target it reaches through a child of the target |
| `Operations.BranchesApart` | go/internal/tools/operations.go:252-265 | no operation is reached through two children |
| `OperationRegistry.PruneOutcome` | go/internal/tools/operations.go:81-86 | the sorted walk drops only finished operations, leaves at most the 1000 newest and none older than a day, and drops a younger one only when 1000 as new remain |
| `OperationRegistry.Registry.constructor` | go/internal/tools/operations.go:57-59 | the registry starts empty |
| `OperationRegistry.Registry.ListCompleted` | go/internal/tools/operations.go:75-80 | the finished operations of the history, each once |
| `OperationRegistry.Registry.PruneLocked` | go/internal/tools/operations.go:74-87 | pruning has the outcome above and touches nothing else |
| `OperationRegistry.Registry.Enter` | go/internal/tools/operations.go:95-129 | the new operation takes request and identity from the operation its context carries, and its end from the one its context is under |
| `OperationRegistry.Registry.Start` | go/internal/tools/operations.go:88-132 | after a start the operation is in the history, runs under its root request, and at most 1000 finished ones remain; the context it returns carries it and ends with it |
| `OperationRegistry.Registry.StartJob` | go/internal/tools/commands.go:582-605 | a job keeps owner, request and identity of its launcher, stands under no context, and is left alone by everything that does not name it |
| `OperationRegistry.Registry.BeginFinish` | go/internal/tools/operations.go:147-154 | the first finish wins |
| `OperationRegistry.Registry.EndFinish` | go/internal/tools/operations.go:157-162 | time and status are recorded together |
| `OperationRegistry.Registry.Finish` | go/internal/tools/operations.go:146-163 | the first call records the status and ends the context; a later one changes nothing |
| `OperationRegistry.Registry.MarkCancel` | go/internal/tools/operations.go:247-258 | the locked section marks one operation and collects its cancellable tool children |
| `OperationRegistry.Registry.CancelOperation` | go/internal/tools/operations.go:225-267 | an undisturbed cancel answers by the state it finds, marks exactly the target and what is reachable through cancellable tools that are neither finished nor finishing, and audits each new mark once |
| `OperationRegistry.Registry.CancelChildren` | go/internal/tools/operations.go:252-265 | the loop over the collected children marks exactly what is reached through them |
| `OperationRegistry.Registry.NoteResourceCancel` | go/internal/tools/operations.go:268-284 | exactly the unfinished operations of the resource are marked and audited, and no context is cancelled |
| `OperationRegistry.Registry.Conclude` | go/internal/tools/operations.go:320-344 | the operation ends timed_out if and only if the tool timed out, else cancelled if it was cancelled, else failed if it returned nothing or ok: false, else completed; cancelled overrides them, and the cancel is requested, when the context of a cancellable tool ended and it did not return ok: true or had acknowledged a cancel; the end is audited once |
| `Globs.WriteToken` | go/internal/security/perimeter.go:255-274 | one turn of the loop writes the text of the next token and advances past it |
| `Globs.GlobRegexp` | go/internal/security/perimeter.go:252-278 | the loop emits the anchored text of the pattern, token by token |
| `Globs.Emitted` | go/internal/security/perimeter.go:244-278 | the emitted text parses, and to the intended expression |
| `Globs.MatchesIsAccepts` | go/internal/security/perimeter.go:252-278 | the expression matches exactly what the tokens accept character by character |
| `GlobMeaning.AcceptsIsMeaning` | go/internal/security/perimeter.go:252-278 | tokens whose double star goes past newlines accept exactly the paths whose segments match, and on other paths so do those that stop there |
| `GlobTexts.TokensOfWide` | go/internal/security/perimeter.go:252-278 | the bytes of a pattern are read as its tokens with every character outside ASCII split up |
| `GlobTexts.CompilerKeepsMeaning` | go/internal/security/perimeter.go:252-278 | for an ASCII text whose double stars are whole segments, and a path without newlines or a text without double stars, the emitted expression is valid and matches exactly when the segments match |
| `GlobTexts.MeaningOnEveryPath` | go/internal/security/perimeter.go:252-278 | a text whose double stars are whole segments keeps its meaning on every path if and only if it is ASCII and has no double star |
| `GlobTexts.MeaningOnPlainPaths` | go/internal/security/perimeter.go:252-278 | it keeps its meaning on every path without newlines if and only if it is ASCII or asks for a newline |
| `GlobTexts.GlobMatchMeans` | go/internal/security/perimeter.go:230-245 | for every path and pattern: once the blanks at both ends and one leading "./" are gone, a pattern matches what its tokens, their characters split into bytes, accept, or, without a slash, any single part of the path; by its segments where the compiler keeps their meaning |
| `GlobTexts.TrimSpaceIs` | go/internal/security/perimeter.go:231-232 | what is left of a pattern lies between blanks only, and neither begins nor ends with one |
| `GlobTexts.WideIsLost` | go/internal/security/perimeter.go:230-278 | a path with a character outside ASCII that is not matched by itself |
| `GlobTexts.NewlineIsLost` | go/internal/security/perimeter.go:230-278 | a directory named by a newline that a double star does not go past |
| `Utf8.EncodedIsValid` | go/internal/security/perimeter.go:252-256 | the encoding of a text is valid UTF-8 (section 3 of RFC 3629) |
| `LineEdits.JoinLines` | python/src/chatrepo_mcp/edit_tools.py:427-434 | splitting into lines and joining them is the identity |
| `LineEdits.BreaksAre` | python/src/chatrepo_mcp/edit_tools.py:427-434 | a line ends at exactly the ten characters of `str.splitlines` |
| `LineEdits.LinesAre` | python/src/chatrepo_mcp/edit_tools.py:427-434 | each line of a text has no boundary but at its end; all but the last end with one, and none is cut between a carriage return and its newline |
| `TextEdits.EditedIs` | python/src/chatrepo_mcp/edit_tools.py:353-555 | what each edit leaves, by quantifiers over the text: insertion before or behind the first occurrence of its anchor; the first occurrence, or each next one behind the one before, replaced and everything else kept; lines replaced, deleted or inserted by number or behind the first line that is the heading; text appended on a new line; and the exact conditions of its errors |
| `TextEdits.OneCutting` | python/src/chatrepo_mcp/edit_tools.py:371 | a text is cut at the occurrences of a fragment in one way only |
| `LineEdits.ReplaceKeepsOthers` | python/src/chatrepo_mcp/edit_tools.py:427-434 | after a replacement all other lines are there byte for byte around the new ones, if and only if no carriage return in front meets a newline behind |
| `LineEdits.InsertKeepsOthers` | python/src/chatrepo_mcp/edit_tools.py:454-462 | an insertion leaves all lines where they were around the new ones, if and only if the lines in front end in a boundary and do not merge with what comes behind |
| `LineEdits.ReplaceUndo` | python/src/chatrepo_mcp/edit_tools.py:427-434 | replacing the new lines back restores the text if and only if there are new lines, the touched ones ended in a newline, and no carriage return in front meets a newline of the replacement |
| `LineEdits.DeleteUndo` | python/src/chatrepo_mcp/edit_tools.py:416-424 | inserting deleted lines back restores the text if and only if they ended in a newline and no carriage return in front meets a newline behind; deleting everything cannot be undone by an insertion |
| `LineEdits.NewlinesDoNotMerge` | python/src/chatrepo_mcp/edit_tools.py:416-462 | in a text without carriage returns no lines merge, so that only the newline of the touched lines matters |
| `LineEdits.ReplacementMerges` | python/src/chatrepo_mcp/edit_tools.py:427-434 | a touched line that ends in a newline, and a replacement that cannot be replaced back |
| `LineEdits.DeletionMerges` | python/src/chatrepo_mcp/edit_tools.py:416-462 | a deleted line that ends in a newline, and that cannot be inserted back |
| `LineEdits.LastLineGrows` | python/src/chatrepo_mcp/edit_tools.py:454-462 | a last line without a boundary takes in what is inserted behind it |
| `BatchEdits.Workspace.MakeDirs` | python/src/chatrepo_mcp/edit_tools.py:309-310 | directories are made unless a file is in the way, and then nothing changes |
| `BatchEdits.Workspace.Put` | python/src/chatrepo_mcp/edit_tools.py:308-310 | a file is written exactly when no file stands where a parent should be |
| `BatchEdits.Workspace.ApplyTextChange` | python/src/chatrepo_mcp/edit_tools.py:293-311 | it succeeds exactly when target, readability, hash, new text and parents allow it; the new text is in place if it differs and this is no dry run; an error changes nothing |
| `BatchEdits.Workspace.RunEdit` | python/src/chatrepo_mcp/edit_tools.py:353-494 | an edit of an existing file succeeds exactly when it can; it then leaves in the file the text that `EditedIs` describes and reports whether it differs, and an edit that cannot be made changes nothing |
| `BatchEdits.Workspace.RunCreate` | python/src/chatrepo_mcp/edit_tools.py:333-350 | exactly when allowed a file is created, or overwritten on request only |
| `BatchEdits.Workspace.RunMove` | python/src/chatrepo_mcp/edit_tools.py:627-660 | exactly when allowed the destination gets the source text and the source is gone |
| `BatchEdits.Workspace.RunDelete` | python/src/chatrepo_mcp/edit_tools.py:610-624 | exactly when allowed the named file is gone and nothing else changed |
| `BatchEdits.Workspace.RunEnsure` | python/src/chatrepo_mcp/edit_tools.py:602-607 | exactly when allowed the directory and those above it exist and no file changed |
| `BatchEdits.Workspace.RunOperation` | python/src/chatrepo_mcp/edit_tools.py:663-784 | any operation succeeds exactly when it can, reports its change, has exactly its own effect on files and directories, touches only what it names, and changes nothing when it fails or is dry |
| `BatchEdits.ReportsTell` | python/src/chatrepo_mcp/edit_tools.py:255-290 | a turn that succeeds reports a change exactly when the tree is another one, but for the deletion of an empty file |
| `BatchEdits.Workspace.SnapshotPaths` | python/src/chatrepo_mcp/edit_tools.py:787-805 | the snapshot holds the text or the absence of every named path, in the order in which the operations name them; it fails if and only if a named file cannot be read |
| `BatchEdits.OrderGrows` | python/src/chatrepo_mcp/edit_tools.py:787-805 | every path stands in the snapshot once, where it was named first |
| `BatchEdits.Workspace.RestoreSnapshot` | python/src/chatrepo_mcp/edit_tools.py:808-816 | every file is as in the snapshot up to the first one whose place has become a directory, and as it was behind it; it succeeds if and only if there is none |
| `BatchEdits.Workspace.Play` | python/src/chatrepo_mcp/edit_tools.py:840-856 | the turns of the loop one after the other: an atomic batch ends at its first failure, any other one tries all operations |
| `BatchEdits.Workspace.BatchEditFiles` | python/src/chatrepo_mcp/edit_tools.py:826-868 | the exact answer and the exact tree for every batch: refused, played to its end, rolled back to the files it started with, or failed to roll back, restored then in the order of the operations up to the first named file that became a directory; this happens if and only if there is one, and never when the named files are safe beforehand |
| `BatchEdits.RollbackCanFail` | python/src/chatrepo_mcp/edit_tools.py:808-856 | a batch under permissive rules that answers with the failed rollback |
| `RecentChanges.PushKeeps` | python/src/chatrepo_mcp/fs_tools.py:683-686 | adding a candidate to heap and dictionary keeps them in bijection |
| `RecentChanges.PopKeeps` | python/src/chatrepo_mcp/fs_tools.py:687-690 | dropping the least entry and its candidate keeps the bijection; no candidate was older, and among the oldest none has a smaller name |
| `RecentChanges.Heapify` | python/src/chatrepo_mcp/fs_tools.py:678-682 | rebuilding the heap from the dictionary restores the bijection |
| `RecentChanges.Visit` | python/src/chatrepo_mcp/fs_tools.py:673-690 | each visit keeps the bijection, the last rows, and, for fixed times, the newest that fit |
| `RecentChanges.Walk` | python/src/chatrepo_mcp/fs_tools.py:661-690 | the whole walk keeps them |
| `RecentChanges.SortedRows` | python/src/chatrepo_mcp/fs_tools.py:692 | the rows of the dictionary, newest first, each path once |
| `RecentChanges.RecentChanges` | python/src/chatrepo_mcp/fs_tools.py:656-693 | distinct paths with their last rows, newest first; for fixed times as many as fit, and no omitted file newer than a returned one |
| `SchemaWalk.RejectsEmptyObject` | go/internal/contracts/contracts.go:192-237 | the walk with its loops terminates on cyclic references and computes the rejection predicate |
| `SchemaWalk.AllReject` | go/internal/contracts/contracts.go:219-235 | the loop over alternatives decides whether all of them reject |
| `SchemaMeaning.RejectedIsInvalid` | go/internal/contracts/contracts.go:192-237 | a rejected schema does not accept the empty object under required (JSON Schema Validation 2020-12, section 6.5.3), allOf, anyOf, oneOf (Core, section 10.2.1) and $ref (Core, section 8.2.3.1), in any reading of its cycles |
| `SchemaMeaning.MeaningIsAccepts` | go/internal/contracts/contracts.go:192-237 | for references that resolve without a cycle every reading of the definitions gives the same answer |
| `SchemaMeaning.ExactIfNothingOverlooked` | go/internal/contracts/contracts.go:192-237 | when references resolve, to objects or booleans, without a cycle, the walk is exact for a schema and for all below and behind it if and only if nowhere a false schema, a second passing alternative of oneOf, or failing lists beside a reference are overlooked |
| `SchemaMeaning.NotRejectedIsValid` | go/internal/contracts/contracts.go:192-237 | then a schema that is not rejected accepts the empty object |
| `SchemaMeaning.OverlookedThings` | go/internal/contracts/contracts.go:192-237 | one schema for each of them, and a reference to a false schema, that resolves, is not rejected and not valid |
| `SchemaMeaning.CyclesStayOpen` | go/internal/contracts/contracts.go:196-211 | on a cycle both answers are readings of the schema, and the walk does not reject it |
| `SchemaWalk.PythonImpliesGo` | scripts/check_contracts.py:63-88 | what the Python walk rejects the Go walk rejects |
| `SchemaWalk.WalksAgree` | scripts/check_contracts.py:63-88 | Python rejects exactly what Go rejects once every oneOf beside an anyOf is dropped, in the schema and in the definitions |
| `SchemaWalk.WalksCanDiffer` | scripts/check_contracts.py:82-85 | an anyOf that accepts hides a oneOf that rejects from the Python walk only |
| `SchemaWalk.AdditiveObjectBranch` | go/internal/contracts/contracts.go:174-190 | the branch is additive exactly when its chain of references ends in an additive object |
| `SchemaWalk.TargetEndsChain` | go/internal/contracts/contracts.go:174-190 | the target is the end of a chain of distinct references |
| `SchemaWalk.RequiredBranches` | go/internal/contracts/contracts.go:248-295 | the loops over alternatives collect the branches of the specification, one keyword after the other |
| `SchemaWalk.BranchesAreWays` | go/internal/contracts/contracts.go:248-294 | the branches found are exactly what is required, and not nothing, along the ways down: from an object to the definition it refers to, or to an object of its anyOf, oneOf, allOf or then, as long as there is one, no reference twice |
| `SchemaWalk.BranchesCover` | go/internal/contracts/contracts.go:248-295 | when nothing escapes the walk, every object valid under the schema has all fields of at least one branch found |
| `SchemaWalk.BranchesCarry` | go/internal/contracts/contracts.go:249-259 | each branch holds everything inherited and everything the schema itself requires |
| `SchemaWalk.ChainEndsInTarget` | go/internal/contracts/contracts.go:174-190 | the end of any such chain is the target |
| `HeavySlots.StepKeeps` | go/internal/tools/engine.go:70-126 | each channel operation, locked section and call keeps tokens, leases and table in step |
| `HeavySlots.SlotsAreConserved` | go/internal/tools/engine.go:70-103 | under every interleaving listed operations <= tokens <= capacity, and each token taken is in use or was given back once |
| `HeavySlots.OneTokenEach` | go/internal/tools/engine.go:93-103 | a lease gives back one token at most, however often it is released |
| `HeavySlots.CancelIsNotLost` | go/internal/tools/engine.go:112-202 | whichever of SetCancel and the request comes first, the function in the table is called |
| `HeavySlots.Slots.constructor` | go/internal/tools/engine.go:128-133 | all slots are free at first |
| `HeavySlots.Slots.TryTake` | go/internal/tools/engine.go:74-90 | a token is refused exactly when all are taken |
| `HeavySlots.Slots.Acquire` | go/internal/tools/engine.go:70-91 | a lease is granted exactly when a token is free, and is listed |
| `HeavySlots.Slots.Release` | go/internal/tools/engine.go:93-103 | the first release frees exactly one slot, a later one nothing |
| `HeavySlots.Slots.SetCancelFunction` | go/internal/tools/engine.go:112-126 | the function is stored, and called at once when a cancel was already requested |
| `HeavySlots.Slots.CancelHeavyOperation` | go/internal/tools/engine.go:176-202 | not found, not cancellable here, or requested with the stored function called or being called |
| `Previews.Utf8Prefix` | go/internal/tools/engine.go:569-581 | the longest beginning of valid text within the limit |
| `Previews.Utf8Suffix` | go/internal/tools/engine.go:583-595 | the longest end of valid text within the limit |
| `Previews.MarkerReads` | go/internal/tools/engine.go:552-552 | the bytes of the marker are the text of the code |
| `Previews.HeadTailText` | go/internal/tools/engine.go:552-567 | valid text of at most the limit: a beginning, the marker and a disjoint end, each as long as its share allows, or a beginning alone |
| `Previews.SharesAreUsed` | go/internal/tools/engine.go:560-567 | the beginning takes half the room but for at most three bytes, and both ends together all of it but for at most three: no character is longer |

## Left out

- ArtifactStores.ArtifactStore.Create: opening the record file always succeeds; the early return on an open error leaves a removed marker behind.
- ArtifactStores.ArtifactStore.CleanupLocked: deleting files always succeeds, and nothing removes files behind the store's back; where files vanish from outside, the code drops the entry without reducing `usage`.
- ArtifactStores.ArtifactWriter.WriteRecord: a header is written whole or not at all, because after a short header the code truncates without seeking back; the call is one step for the other methods of the store, while readers see its bytes in flight in `PagerRuns`.
- ArtifactStores.ArtifactWriter.Finish: creation time, kind and ordering are not part of the marker.
- StoreRuns.Session.Finish: the writer of a session closes it with no companion copy outstanding, as a command capture does; what a close with bytes in flight does to the store is said by `ArtifactWriter.Finish` only.
- ArtifactStores.ArtifactStore.ReadPage: errors of the operating system while reading an existing file, and the reply's expiry, warnings and reason texts.
- ArtifactStores.ArtifactStore.Open: directories, hidden names and names outside the identifier pattern are not on the modelled disk; the cursor key file is a given key.
- OutputStore.CommandCapture.Start: the identifier of a command is new to the store, as random identifiers are; captures without a file or an artifact are not modelled.
- StoreRuns.Session.Elsewhere: an artifact with the same identifier is not created again once it was evicted; the readers and writers of others keep to their own holds.
- OutputStore.CommandCapture.Write: between two emits of one chunk the other stream takes no turn; in `Interleavings` it may, with the records of each stream given.
- Operations.JobsAreDetached: two operations never get the same random identifier; progress counters, targets and process handles are not modelled.
- Operations.StepKeeps: the audit of a resource cancel may come at any later time, and nothing is said about how often it is written.
- OperationRegistry.Registry.PruneLocked: `sort.Slice` may order equal times either way; the list is sorted by insertion here.
- Uniqueness of a running job per concurrency key: nothing in the code promises it, because the check and the insert are separate steps.
- Globs.GlobRegexp: `regexp.MustCompile` is the parser of exactly the emitted syntax; Windows separators are not modelled, nor patterns and paths that are not valid UTF-8.
- BatchEdits.Workspace.BatchEditFiles: links, file modes, diffs, error texts and failures of the operating system other than a file in the way of a directory; the Go batch, which also restores directories.
- RecentChanges.RecentChanges: the heap is a list with its least entry first; the binary layout of `heapq` is not modelled.
- SchemaWalk.RejectsEmptyObject: a schema is an object or a boolean; lists of the wrong JSON type count as absent; `required` holds strings only.
- SchemaWalk.BranchesCover: only for schemas where every list it relies on holds objects and every leaf requires something (`Tight`); the Python version of this walk and `variantBranchesAreAdditive` are not modelled.
- SchemaMeaning.ExactIfNothingOverlooked: what the empty object means under other keywords, such as `type`, `not` or `if`.
- HeavySlots.Slots.Acquire: an engine without a slot channel, where every lease is granted.
- HeavySlots.Slots.CancelHeavyOperation: the cancel of the tracked operation behind a lease is the registry's `CancelOperation`.
- `TailLines` of a capture, and the other windows of a result.
- HTTP, MCP plumbing, processes, terminals, git, policy tables, resource profiles, environment loading and audit formatting: input and output, or thin wrappers.
