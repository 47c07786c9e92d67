# Proofs about the WARC archive tools

A Dafny model of the hard parts of the archive: how a WARC is framed into gzip
members and found again, how objects on S3 are replaced without losing anything,
how PDFs queue for OCR, and a few exact facts of arithmetic and order. Each module
follows one part of the program. Code that changes state is modelled with classes
and loops, each method proved against a function or relation on values; the results
about those functions are lemmas.

**Record framing.** `Rewriter` copies a decompressed WARC into a file with one gzip
member per record and rolls back what a dropped encoder flushed; `RewritePlan` says as a
function what it finds, and is proved sound and complete for the record grammar in
`Warc`. `GzSplitter` reads members through a buffer refilled in reads of any size;
`Gzip` and `GzipGrammar` hold the member format of RFC 1952 section 2.3. `WarcReader` is
the line-based parser, `WarcReading` and `WarcBuilder` prove that it inverts printing,
`WarcRefusals` what it refuses and how. `Framing`, `Ingest` and `EndToEnd` put the two
ends together, `RecordFetch` adds the ranged fetch of one member. DEFLATE is a parameter
(`Codec.Streaming`: more input never changes a verdict already reached, a stream ends
where it ends, and encoding round-trips); `StoredBlocks` is a concrete coder that meets
it.

**Replacement on S3.** `Recompress` is the gate in front of the upload, `GateExactly`
which objects get through it, whole or cut off, `BrokenOff` what a source that breaks
off plans to, `GateFacts` what passing means, `Replace` the backup-and-overwrite
protocol of one run, every step of which has a fate: it goes through, fails, or happens
unheard; `Targets` is which objects a run works on, and `ReplaceHistory` any number of
runs, for every gate that obeys a few laws. Reads and server-side copies are faithful or
fail, uploads are atomic, a failed write may have happened all the same, and the process
may stop after any step.

**OCR queue.** `OcrProtocol` is a transition system with one action per file-system
operation, for any number of index processes and one worker with concurrent tasks;
`ManyWorkers` is the same with any number of workers; `OcrCache` and `OcrWorker` are the
methods, each shown to take only such actions. `CachedText` is the format of an entry.

**The rest.** `Chunked` undoes chunked transfer coding (section 7.1 of RFC 9112),
`Calendar` relates the two calendars, `CdxStore` is the capture table, `CaptureTime` its
lookup by time, `Utf8` and `PrefixText` its prefix query on text, `Scalars` UTF-8 as an
encoding. `SurtHost` and `HostFilter` are the two ways of asking whether a domain covers
a URL, `SkipList` the skip list over a whole index run, `SkipEffect` its effect on the
table.

Where code and documentation disagree, the model follows the code:

- `record.offset` is the position after the version line; the comment at
  `crates/warc/src/reader.rs:78-79` says it is the start of the record.
- `crates/tywb/src/recompress.rs:34-36` says a rewritten object is never touched
  twice. A one-record rewrite is (`ReplaceHistory.SecondRunOverwritesBackup`);
  exactly when that loses data is `Replace.RunsAreSafeExactly`. It takes runs that work
  on the object twice: it is named, its member is longer than 1 MiB, or it could not be
  classified (`Targets.ScanTakesExactly`).
- `crates/tywb/src/recompress.rs:446-451` reports dropped bytes as a record that
  breaks off; blank lines behind the last record are dropped too, without salvaging
  (`GateFacts.BlankLinesAreDropped`).
- `crates/tywb/src/recompress.rs:519-522` explains why the stale sidecar must go. A
  run stopped before that step leaves it, and later runs remove it only when the
  rewrite has a single record (`ReplaceHistory.StaleSidecarStaysExactly`).
- `crates/tywb/src/recompress.rs:740-742` tolerates stray separators, but the gate
  behind it refuses every object that has one in front of a record
  (`Recompress.ComparisonFindsGaps`).
- `crates/tywb/src/record_fetch.rs:47-49` says a member never exceeds the
  uncompressed length; the exact condition is `RecordFetch.FetchExactly`.
- `crates/cdx/src/store.rs:463-464` says an earlier capture is preferred; the code
  takes the nearer one, in numerals; when that is the nearer one in time is
  `CaptureTime.ClosestInTime`.
- `crates/cdx/src/store.rs:1036` says the empty bound of an empty prefix is no bound;
  no text is below it, so the query finds nothing (`PrefixText.RangeExactly`).
- `crates/cdx/src/surt.rs:28` mentions stripping `www.`; the code does not.
- `crates/tywb/src/http_payload.rs:174-175` says a body cut off mid-chunk keeps what
  it has; a chunk whose declared end does not fit 64 bits makes it refuse the whole
  body (`Chunked.CutInsideChunk`).
- `crates/cdx/src/store.rs:375-383` deletes a domain by LIKE without escaping, so an
  underscore in it stands for any character (`HostFilter.UnderscoreStrays`).
- `crates/config/src/lib.rs:701-704` calls the filter the single question asked at
  ingest and at purge time; the purge asks about the SURT key instead, and exactly
  when the two agree is `HostFilter.AgreeExactly`.

## Model

| member | source | states |
|---|---|---|
| `Replace.RunsAreSafeExactly` | crates/tywb/src/recompress.rs:331-544 | The payload of an object survives every history of runs that work on it, each stopped or failing anywhere, if and only if its rewrite does not consist of a single record while dropping bytes. |
| `Targets.ScanTakesExactly` | crates/tywb/src/recompress.rs:213-219 | Which objects a scan works on of its own accord: one that starts with a whole gzip member is left alone if and only if it can be read and that member is no longer than the window of 1 MiB; objects named by the caller are worked on always. |
| `Targets.ScanTakesCut` | crates/tywb/src/recompress.rs:574-587 | An object that is cut off inside its first member is worked on, wherever the cut is behind the magic number. |
| `Targets.ScanLeavesOther` | crates/tywb/src/recompress.rs:574-587 | What does not start with the magic number, or is damaged within the window, is left alone when it can be read. |
| `Targets.Classify` | crates/tywb/src/recompress.rs:311-329 | Three attempts to read the window; the verdict is that of the first member in it, and unknown when none succeeds. |
| `Replace.LoseOriginal` | crates/tywb/src/recompress.rs:382-517 | For every object that breaks that condition two runs in which nothing goes wrong lose the dropped bytes: key and backup both hold the rewrite. |
| `Replace.BlankLineIsLost` | crates/tywb/src/recompress.rs:331-544 | Such an object, salvaged or not: one record with any blank lines behind it. |
| `Replace.Reach` | crates/tywb/src/recompress.rs:331-544 | Whatever end state `Run` allows, some fate of the steps brings one run of the command to it: with `ProcessOne`, `Run` is exactly what a run can leave behind. |
| `Replace.Replay` | crates/tywb/src/recompress.rs:331-544 | So every history of stores is one the command goes through, run after run. |
| `Replace.GateIsLawful` | crates/tywb/src/recompress.rs:380-434 | The gate meets the laws the protocol results rest on: a rewrite does not depend on needless salvaging, rewriting it again gives itself or nothing, and it keeps the payload exactly when it drops nothing. |
| `ReplaceHistory.SafeExactly` | crates/tywb/src/recompress.rs:471-543 | For every lawful gate: no history loses the payload, if and only if the rewrite does not consist of a single record while dropping bytes. |
| `ReplaceHistory.OriginalKept` | crates/tywb/src/recompress.rs:471-517 | When the rewrite has two records or more (or there is none), in every state of every history the exact original is under the key or in the backup. |
| `ReplaceHistory.OriginalKeptExactly` | crates/tywb/src/recompress.rs:471-517 | The exact original can be lost if and only if the rewrite is another file with a single record. |
| `ReplaceHistory.NothingWrittenAfterwards` | crates/tywb/src/recompress.rs:381-387 | Once a rewrite of two records or more is in place, no later run changes the object, the backup (which is the exact original) or the sidecar. |
| `ReplaceHistory.KeyAlwaysReadable` | crates/tywb/src/recompress.rs:471-517 | When the rewrite drops nothing, the key decompresses to the original payload in every state of every history. |
| `ReplaceHistory.KeyReadableExactly` | crates/tywb/src/recompress.rs:471-517 | The key alone does so in every history if and only if no rewrite gets through that drops bytes. |
| `ReplaceHistory.SecondRunOverwritesBackup` | crates/tywb/src/recompress.rs:382-387 | A one-record rewrite is one member again: two runs lead to a state whose backup is the rewrite, not the original. |
| `ReplaceHistory.RunAfterRewrite` | crates/tywb/src/recompress.rs:381-387 | A run that finds a rewrite of two records or more leaves all three objects as they are. |
| `Replace.StopBeforeCleanUp` | crates/tywb/src/recompress.rs:519-535 | When the process is stopped between upload and clean-up, the run has left the new object, the backup of the original and the sidecar of the old object. |
| `ReplaceHistory.StaleSidecarStaysExactly` | crates/tywb/src/recompress.rs:519-535 | From there on no later run removes the stale sidecar, if and only if the rewrite has two records or more; the run that rewrites a single record again does. |
| `ReplaceHistory.NoSidecarAppears` | crates/tywb/src/recompress.rs:519-535 | A history that starts without a sidecar never has one. |
| `Replace.ProcessOne` | crates/tywb/src/recompress.rs:331-544 | Whatever fails and wherever the process stops, the objects end up in one of the states `Run` allows; stopped after the download, the backup or the upload, in exactly that one; when nothing fails, the outcome is that of the gate, the backup is the original and the sidecar is gone. |
| `Replace.ReplaceObject` | crates/tywb/src/recompress.rs:471-535 | Backup before overwrite: the key changes only after the backup holds the original; on success key, backup and sidecar are final. |
| `Replace.Upload` | crates/tywb/src/recompress.rs:491-517 | Whatever fails, the key holds the new file or what it held before; it is the new file on success, and without failures it succeeds. |
| `Replace.Download` | crates/tywb/src/recompress.rs:357-373 | What is worked on is the object itself, of the listed size when one is listed; without failures there is such a download. |
| `Replace.DropSidecar` | crates/tywb/src/recompress.rs:523-535 | The sidecar is gone unless something failed, and is never created. |
| `ReplaceHistory.HistoryIsKnown` | crates/tywb/src/recompress.rs:331-544 | Every state of every history is one of four: untouched, backed up, replaced with the original in the backup, or (one record) replaced twice; the sidecar goes no sooner than the object is replaced and never comes back. |
| `GateFacts.PassedIsFaithful` | crates/tywb/src/recompress.rs:403-433 | Whatever reaches the upload step decompresses to a prefix of the original payload, in exactly one member per record, and leaves out only blank lines or, when salvaging, blank lines and one incomplete record. |
| `GateFacts.RewriteOfRewrite` | crates/tywb/src/recompress.rs:381-387 | A rewrite of one record is rewritten to itself, a rewrite of more is skipped, with or without salvaging. |
| `GateFacts.GateIgnoresNeedlessSalvage` | crates/tywb/src/recompress.rs:388-393 | An object that passes without salvaging passes identically with it. |
| `GateFacts.SalvagedTail` | crates/tywb/src/recompress.rs:822-826 | What salvaging drops behind the blank lines holds no complete record, and is no whole line at all or a record that breaks off. |
| `GateFacts.PlanOfPrints` | crates/tywb/src/recompress.rs:729-820 | Records without separators in front of them plan to themselves, to the last byte. |
| `GateFacts.BlankLinesAreDropped` | crates/tywb/src/recompress.rs:729-742 | A member with one record and blank lines behind it gets through, salvaging or not, and exactly the blank lines are dropped. |
| `GateExactly.RecordsGetThrough` | crates/tywb/src/recompress.rs:399-433 | Any number of records in one member, with blank lines behind the last: they get through, one member each, if and only if there are some and no separator stands in front of any of them. |
| `GateExactly.CutMemberGetsThrough` | crates/tywb/src/recompress.rs:388-433 | An object whose only member is cut off anywhere: refused without salvaging; with it exactly the records get through that are whole in what has arrived of the payload, if there are any. |
| `GateExactly.CutRecordGetsThrough` | crates/tywb/src/recompress.rs:792-826 | A whole member whose last record is cut off: only salvaging keeps the records in front of it, and only when the cut leaves the start of a version line. |
| `GateExactly.OtherNumbers` | crates/tywb/src/recompress.rs:381-387 | Several members or none are passed over, also when the file breaks off inside one more; a file with anything else in it is refused. |
| `GateExactly.CutMember` | crates/tywb/src/recompress.rs:606-667 | Counting and decompressing a member that is cut off: one truncated member, and all of its content that the bytes there stand for. |
| `GateExactly.ArrivedGrows` | crates/tywb/src/recompress.rs:655-664 | The more of a member is there, the more of its content arrives, always a prefix of it. |
| `GateExactly.AnswerForRecords` | crates/tywb/src/recompress.rs:816-835 | For records and blank lines the rewriter reports their number and their bytes, nothing salvaged; no records is an error. |
| `GateExactly.AnswerForCut` | crates/tywb/src/recompress.rs:734-737 | For a source that breaks off inside a record: refused, or with salvaging the same for the whole records in front of it, marked as salvaged. |
| `GateExactly.HashOfMember` | crates/tywb/src/recompress.rs:640-667 | Hashing goes over all of a whole member and over what has arrived of a cut one, up to the limit; the cut is an error unless it is tolerated or the limit comes first. |
| `GateExactly.HashOfDamaged` | crates/tywb/src/recompress.rs:655-664 | A damaged file is an error, tolerated or not. |
| `EndToEnd.PrintedComesBack` | crates/tywb/src/recompress.rs:399-433 | Records printed into one member get through the gate with nothing dropped, and the indexer finds in the rewrite exactly them, one per member, fields in normal form and blocks unchanged, nothing skipped and no error. |
| `Recompress.Verify` | crates/tywb/src/recompress.rs:380-434 | The verdict is that of `Gate`: one member, truncated only when salvaging, not empty, and the rewrite passes exactly when the payload is a WARC with no stray separator in front of any record. |
| `Recompress.RewriteAndCompare` | crates/tywb/src/recompress.rs:399-433 | Rewriting and comparing lets a payload through exactly when its plan yields records without gaps, with the right file, record count and number of dropped bytes. |
| `Recompress.Compare` | crates/tywb/src/recompress.rs:403-427 | The comparison succeeds exactly when content, byte count and member count of the rewrite agree with the original and the accounting. |
| `Recompress.ComparisonFindsGaps` | crates/tywb/src/recompress.rs:406-427 | Of all the checks only the hash can fail on a rewrite, and it fails exactly when a stray separator stood in front of some record. |
| `Recompress.GapsShow` | crates/tywb/src/recompress.rs:740-742 | The copied records are a prefix of the source exactly when no separator was skipped between them. |
| `Recompress.GzShape` | crates/tywb/src/recompress.rs:606-630 | The member loop finds the number of complete members and whether the file ends inside one more, as a member-by-member reading with trailer checks gives them. |
| `Recompress.Sha256GunzipLimited` | crates/tywb/src/recompress.rs:640-667 | Chunk-wise hashing covers exactly the content, cut at the limit; a truncated source is an error unless tolerated or not reached. |
| `Recompress.UnpackIsWalk` | crates/tywb/src/recompress.rs:606-667 | Counting members and decompressing the file go over the same members and end in the same way. |
| `Recompress.UnpackMembers` | crates/tywb/src/recompress.rs:403-427 | What the encoder wrote, one member per content, decompresses to the contents one after the other and has that many members. |
| `Rewriter.RewriteRecords` | crates/tywb/src/recompress.rs:707-835 | The outcome is that of the plan of the source; on success the file is exactly one whole member per planned record, in order, whatever a dropped encoder had flushed. |
| `Rewriter.CopyRecords` | crates/tywb/src/recompress.rs:729-820 | The loop stops where the plan stops; the committed part of the file is one member per planned record, with their number and size. |
| `Rewriter.NextRecord` | crates/tywb/src/recompress.rs:729-748 | Stray separators are passed over; the record behind them is copied as one member, or the reason why not is reported. |
| `Rewriter.CopyRecord` | crates/tywb/src/recompress.rs:743-819 | A version line, its header and its block become one member holding exactly those bytes, and exactly they are consumed. |
| `Rewriter.CopyBody` | crates/tywb/src/recompress.rs:782-815 | The member is finished only when block and CRLFCRLF are all there; otherwise the reason is reported and nothing committed is lost. |
| `Rewriter.CopyBlock` | crates/tywb/src/recompress.rs:787-800 | The block is copied in chunks, all of it or an error. |
| `Rewriter.ReadHeader` | crates/tywb/src/recompress.rs:750-779 | Reads exactly the header block, keeps its bytes and the last Content-Length. |
| `Rewriter.GzEncoder.Drop` | crates/tywb/src/recompress.rs:782-786 | An unfinished encoder may append anything when dropped, but changes nothing already written. |
| `Rewriter.Counting.Write` | crates/tywb/src/recompress.rs:672-682 | The count is the length of what has been written. |
| `RewritePlan.PlanSound` | crates/tywb/src/recompress.rs:707-835 | The planned records are well formed and stand in the source in this order with only separators between them; a finished plan leaves separators only, a salvaged one no complete record. |
| `RewritePlan.PlanComplete` | crates/tywb/src/recompress.rs:729-820 | Every well-formed record that stands in the source, with separators between them, is planned, in order, whatever follows. |
| `RewritePlan.ScanSound` | crates/tywb/src/recompress.rs:743-819 | A record is found only where one stands: version line, header lines, blank line, Content-Length bytes, CRLFCRLF. |
| `RewritePlan.ScanComplete` | crates/tywb/src/recompress.rs:743-819 | Every well-formed record at the front of the source is found, whatever follows it. |
| `RewritePlan.CutRecordIsNone` | crates/tywb/src/recompress.rs:755-809 | When no record is found, none stands there. |
| `BrokenOff.BrokenOffPlans` | crates/tywb/src/recompress.rs:761-809 | Whole records, blank lines and any part of one more: the whole ones are planned, and when salvaging the rest is left behind. |
| `BrokenOff.CutRecordScans` | crates/tywb/src/recompress.rs:755-809 | A record cut off at any byte has run out, unless the source ends properly before its version line can be told. |
| `BrokenOff.UnfinishedLinePlans` | crates/tywb/src/recompress.rs:734-748 | The same when no whole line is left, or nothing: run out when the stream was cut off or the part starts with `WARC/`, no version line when the stream ended properly. |
| `BrokenOff.GarbagePlans` | crates/tywb/src/recompress.rs:743-748 | A line that is neither blank nor a version line where a record should start: refused, salvaging or not. |
| `BrokenOff.BadRecordPlans` | crates/tywb/src/recompress.rs:785-814 | A header that declares no length, or a block of the declared length without CRLFCRLF behind it: refused, salvaging or not, with the error for which of the two. |
| `Warc.SkippedIsBlank` | crates/tywb/src/recompress.rs:740-742 | What is skipped between records is blank lines and nothing else. |
| `Warc.SkipBlankExactly` | crates/tywb/src/recompress.rs:740-742 | Blank lines in front of something else are skipped exactly. |
| `Warc.BlankLinesExactly` | crates/tywb/src/recompress.rs:740-742 | Blank lines are LFs and CRLFs one after the other, and nothing else is. |
| `Ingest.RewrittenFileIngests` | crates/tywb/src/index.rs:845-896 | A rewritten file has one member per record, holding that record and nothing else; splitter and parser find every block unchanged, at its member, nothing skipped and no error, if and only if all records are plain in the sense of `Framing.PlainIsTaken`. |
| `Ingest.MemberReads` | crates/tywb/src/index.rs:870-879 | From a member that holds one well-formed record the parser takes the record and the whole member if and only if the record is plain; then it reports the end. |
| `Ingest.IngestGz` | crates/tywb/src/index.rs:851-896 | The gzip ingest loop yields, in order, the first record of each member with the member's compressed offset, and counts empty and broken ones. |
| `Ingest.TakeMember` | crates/tywb/src/index.rs:870-879 | One member contributes its first record, or one to the skipped or the error count. |
| `Ingest.SiftConcat` | crates/tywb/src/index.rs:858-890 | Members are accounted for one by one and in order: records found, members skipped, errors. |
| `Ingest.BlankMember` | crates/tywb/src/index.rs:870-879 | A member with nothing but lines of white space counts as skipped. |
| `Ingest.RefusedMember` | crates/tywb/src/index.rs:870-879 | A member whose first other line is no version line counts as an error. |
| `Ingest.FoundMember` | crates/tywb/src/index.rs:870-879 | A member with a readable record yields it at the start of the member, whatever stands behind the record. |
| `Ingest.IngestPlain` | crates/tywb/src/index.rs:897-929 | The plain ingest loop yields every record up to the end or the first error. |
| `Framing.SameLength` | crates/warc/src/record.rs:162-169 | For all header lines the parser takes, repeated Content-Length lines and continuation lines included: rewriter and parser settle on the same block length if and only if, of the lines that decide, a continuation of Content-Length gives the parser what the rewriter goes by, or else the last Content-Length line has no white space around its name or says what the rewriter goes by anyway (or there is none). |
| `Framing.PlainIsTaken` | crates/warc/src/reader.rs:77-163 | A well-formed record, whatever follows it, is taken by the parser with the same block and up to the same end, if and only if its version line is text with a version, each header line is text, not only a line end, and folded or with a colon, the header has at most 64 KiB and both sides agree on Content-Length. |
| `Framing.PaddedNameDisagrees` | crates/tywb/src/recompress.rs:771-776 | Header lines on which they differ: the rewriter reads length 0 and the parser length 1. |
| `Framing.FoldedLengthDisagrees` | crates/warc/src/reader.rs:109-118 | And others: behind `content-length: 0` a continuation line with a digit leaves the rewriter at 0 and the parser without a length. |
| `GzSplitter.SplitAll` | crates/tywb/src/index.rs:851-866 | However the source cuts its reads, repeated next_member gives the walk of the whole file by a pure member parser: same members, same starts, same end. |
| `GzSplitter.GzSplitter.NextMember` | crates/tywb/src/gz_warc.rs:117-212 | The answer is that of parsing the bytes not consumed yet; exactly the member is consumed and its start is the position before. |
| `GzSplitter.GzSplitter.SkipHeader` | crates/tywb/src/gz_warc.rs:124-168 | Fixed bytes and optional fields are read as the grammar says, with the same error, and left exactly behind them. |
| `GzSplitter.GzSplitter.InflateBody` | crates/tywb/src/gz_warc.rs:171-205 | Feeding buffered input piece by piece ends where inflating the whole rest at once ends, with the same output. |
| `GzSplitter.GzSplitter.SkipOptional` | crates/tywb/src/gz_warc.rs:146-168 | The optional fields are skipped to exactly where the grammar says they end. |
| `GzSplitter.GzSplitter.SkipExtra` | crates/tywb/src/gz_warc.rs:148-155 | The extra field is skipped exactly, or the end of input is reported. |
| `GzSplitter.GzSplitter.SkipNulString` | crates/tywb/src/gz_warc.rs:102-111 | A NUL-terminated string is skipped through its NUL, or the end of input is reported. |
| `GzSplitter.GzSplitter.SkipHeaderCrc` | crates/tywb/src/gz_warc.rs:164-168 | The header checksum is skipped exactly, or the end of input is reported. |
| `GzSplitter.GzSplitter.Ensure` | crates/tywb/src/gz_warc.rs:61-75 | True exactly when that many bytes are left; position and remaining bytes do not change. |
| `GzSplitter.GzSplitter.Refill` | crates/tywb/src/gz_warc.rs:176-189 | One read is appended behind the buffered bytes; zero only at the end of the source. |
| `GzSplitter.GzSplitter.Compact` | crates/tywb/src/gz_warc.rs:51-57 | The unconsumed bytes move to the front and stay the same. |
| `GzSplitter.GzSplitter.TakeVec` | crates/tywb/src/gz_warc.rs:90-94 | Returns the next bytes and moves past exactly them. |
| `GzSplitter.GzSplitter.Skip` | crates/tywb/src/gz_warc.rs:97-99 | Moves past exactly that many bytes. |
| `GzSplitter.GzSplitter.constructor` | crates/tywb/src/gz_warc.rs:32-39 | A new splitter stands at position 0 with an empty buffer. |
| `GzSplitter.SplitInvertsEncode` | crates/tywb/src/gz_warc.rs:113-117 | Splitting what an encoder wrote, with or without trailer checks, gives back its contents in order and ends at the end of the file. |
| `MemberWalk.StartsTile` | crates/tywb/src/gz_warc.rs:123-123 | Reported starts tile the file: each is the end of the member before, and reading again from one gives that very member. |
| `GzipGrammar.PrintedMemberParses` | crates/tywb/src/gz_warc.rs:117-212 | Every member laid out as in RFC 1952 section 2.3, with any optional fields, is read as exactly that member, whatever follows. |
| `GzipGrammar.ParsedMemberIsWellFormed` | crates/tywb/src/gz_warc.rs:117-212 | Whatever is read as a member is one laid out as in RFC 1952 section 2.3. |
| `GzipGrammar.TrailerDecides` | crates/tywb/src/recompress.rs:619-628 | The reader that insists on the trailer takes a member laid out as in the standard if and only if its trailer is the one of its content. |
| `GzipGrammar.DamagedTrailer` | crates/tywb/src/record_fetch.rs:51-54 | An encoded member with any other eight bytes in place of its trailer is a trailer error, whatever follows it; the splitter takes it all the same. |
| `GzipGrammar.TrailerIs` | crates/tywb/src/recompress.rs:619-628 | That trailer is the checksum of the content, then its length modulo 2^32, least significant byte first. |
| `GzipGrammar.FlagBits` | crates/tywb/src/gz_warc.rs:143-184 | Which bit of the flag byte announces which optional field. |
| `GzipGrammar.RefusedMembers` | crates/tywb/src/gz_warc.rs:117-142 | Fewer than ten bytes, no magic number, another compression method: each is its own error. |
| `GzipGrammar.RefusedBody` | crates/tywb/src/gz_warc.rs:186-212 | A header the standard allows and then bytes that are not DEFLATE: a data error. |
| `GzipGrammar.EncodedMemberParses` | crates/tywb/src/recompress.rs:784-815 | What the encoder writes reads back as its content, with and without trailer check, whatever follows. |
| `Gzip.MemberNeedsExactlyItsBytes` | crates/tywb/src/gz_warc.rs:117-212 | A shorter prefix of a member is an unexpected end of file, a longer input gives the same member. |
| `Gzip.CheckedNeedsExactlyItsBytes` | crates/tywb/src/record_fetch.rs:51-55 | The same for a decoder that insists on the trailer. |
| `StoredBlocks.StoredIsStreaming` | crates/tywb/src/gz_warc.rs:171-205 | Stored-block DEFLATE (RFC 1951 section 3.2.4) with its CRC meets the contract asked of the decompressor. |
| `StoredBlocks.DeflateSize` | crates/tywb/src/record_fetch.rs:47-49 | Stored blocks cost exactly five bytes each on top of the data. |
| `Codec.InflateCut` | crates/tywb/src/gz_warc.rs:174-205 | Cutting a deflate stream before its end leaves it unfinished with a prefix of the output; after its end nothing changes. |
| `WarcBuilder.ParserInvertsPrinter` | crates/warc/src/reader.rs:187-224 | Iterating over printed records with any blank lines between them yields the same blocks and normalised fields in order, with exact offsets, and then stops without an error. |
| `WarcBuilder.PrintedReadsBack` | crates/warc/src/reader.rs:208-224 | Each printed record reads back with its fields in normal form, the length field last and the same block. |
| `WarcBuilder.NormalIs` | crates/warc/src/reader.rs:119-127 | In that form names are in lower case, and white space around names and values is gone. |
| `WarcBuilder.PrintedIsWellFormed` | crates/tywb/src/recompress.rs:743-815 | What is printed with a version line that starts with `WARC/` is a record the rewriter finds. |
| `WarcBuilder.BuildWarcRecord` | crates/warc/src/reader.rs:208-224 | The appended buffer is the record of the grammar with these fields, the length field and this block. |
| `WarcReading.IterationInvertsPrinting` | crates/warc/src/reader.rs:57-163 | The same for every list of records the parser takes, continuation lines included, however their lines end. |
| `WarcReading.IterationExactly` | crates/warc/src/reader.rs:57-163 | For every list of records made of lines, with white lines between them: iteration takes each with its block and up to its end and ends without an error, if and only if each of them is readable. |
| `WarcReading.ReadsRecordExactly` | crates/warc/src/reader.rs:57-163 | A record made of lines is taken with its block and up to its end if and only if it is readable: version and lines are text, none of them is taken for the blank one or malformed, the header is not too long, and the folded fields declare the length of the block. |
| `WarcReading.ReadsRecord` | crates/warc/src/reader.rs:57-163 | A readable record is read back exactly, whatever follows it; its reported offset is just past the version line. |
| `WarcReading.VersionIsRead` | crates/warc/src/reader.rs:57-75 | A record that starts with a printed version and is in order behind it is read with that version. |
| `WarcReading.AddFoldedLine` | crates/warc/src/reader.rs:109-118 | A continuation line goes to the value of the field before it, behind one space; in front of the first field it is dropped. |
| `WarcRefusals.RefusesVersion` | crates/warc/src/reader.rs:57-75 | The first line that is not skipped is not text or no version line: one error each, wherever the lines in front of it are white space. |
| `WarcRefusals.RefusesHeader` | crates/warc/src/reader.rs:82-128 | Header lines in order, and then the end of the input, a line that is not text, a line too many for 64 KiB, or a line without a colon: one error each. |
| `WarcRefusals.RefusesBody` | crates/warc/src/reader.rs:130-156 | Behind a header in order: refused for a missing or bad Content-Length, for a block that is not all there, and for a terminator other than CRLFCRLF; accepted with exactly the block otherwise. |
| `WarcReading.SkipsLines` | crates/warc/src/reader.rs:61-74 | Lines of white space in front of a record make no difference but to its position. |
| `WarcReader.WarcReader.NextRecord` | crates/warc/src/reader.rs:57-75 | The answer is that of the pure parser at this offset; afterwards the offset is the number of bytes consumed. |
| `WarcReader.WarcReader.TakeBody` | crates/warc/src/reader.rs:77-163 | Fields, block and terminator as the pure parser reads them; the record offset is taken after the version line has been counted. |
| `WarcReader.WarcReader.TakeFields` | crates/warc/src/reader.rs:83-128 | The header loop reads the fields the pure parser reads, folded lines and the 64 KiB limit included. |
| `WarcReader.WarcReader.TakeBlock` | crates/warc/src/reader.rs:132-156 | Block and terminator, or the error for which of them is missing. |
| `WarcReader.WarcIter.Next` | crates/warc/src/reader.rs:187-202 | Yields the next record or the first error, and nothing after the end or an error. |
| `WarcHeader.FromFields` | crates/warc/src/record.rs:116-127 | Every name is indexed at its last occurrence, nothing else is indexed, order is kept. |
| `WarcHeader.VersionInvertsDisplay` | crates/warc/src/record.rs:72-97 | A printed version reads back, white space behind it or not, if and only if both numbers fit eight bits. |
| `WarcHeader.GetIsLastValue` | crates/warc/src/record.rs:129-133 | Looking up a name gives the value of the last field of that name in document order. |
| `WarcHeader.ContentLength` | crates/warc/src/record.rs:162-169 | The length is the last Content-Length field as a 64-bit number, with the two error cases told apart. |
| `Text.ParseInvertsDecimal` | crates/warc/src/reader.rs:219-219 | A printed number parses back, and fails exactly when it exceeds the type. |
| `TextFacts.ParseUnsignedExactly` | crates/warc/src/record.rs:162-169 | What reads as a number: its digits behind any zeros, with or without one plus sign, as far as it fits the type. |
| `Scalars.TextExactly` | crates/warc/src/reader.rs:64-68 | Bytes are text exactly when they are the UTF-8 of some characters. |
| `Scalars.TrimAgrees` | crates/warc/src/reader.rs:66-66 | Trimming the bytes of a text is trimming its characters, all Unicode white space off both ends. |
| `Scalars.LowerAgrees` | crates/config/src/lib.rs:690-693 | Lowering the bytes of a text is lowering its ASCII letters, character by character. |
| `Scalars.LossyIsText` | crates/cdx/src/store.rs:1039-1040 | Whatever the bytes, what is made of them is text, and of text nothing is changed. |
| `Scalars.BadLengthExactly` | crates/cdx/src/store.rs:1039-1040 | One replacement character stands for as many ill-formed bytes as are the start of a character, or for one byte. |
| `RecordFetch.FetchExactly` | crates/tywb/src/record_fetch.rs:42-55 | The ranged fetch of a member gives exactly its content when it is at most length + 65536 bytes long, and an unexpected end of file otherwise, whatever follows and wherever the object ends. |
| `RecordFetch.FetchRefuses` | crates/tywb/src/record_fetch.rs:41-55 | No compressed offset, a range behind the end of the object, and a member with another trailer are one error each. |
| `RecordFetch.FetchAtReportedStart` | crates/tywb/src/record_fetch.rs:42-55 | The same, at the start the splitter reported for the k-th member an encoder wrote. |
| `RecordFetch.StoredFetchFits` | crates/tywb/src/record_fetch.rs:47-49 | For stored blocks the fetch succeeds exactly when H + 22 + 5 * blocks(H + L + 4) is at most 65536. |
| `RecordFetch.HttpBlockExactly` | crates/tywb/src/record_fetch.rs:64-71 | Cutting a record at the first CRLFCRLF gives its block and terminator exactly when its header block ends in CRLFCRLF. |
| `RecordFetch.HttpBlockOfAny` | crates/tywb/src/record_fetch.rs:62-72 | For any bytes: what is behind the first CRLFCRLF, or all of them when there is none. |
| `RecordFetch.FetchedBlock` | crates/tywb/src/record_fetch.rs:37-71 | A rewritten record that fits the window comes back as its block and the terminator. |
| `RecordFetch.StoredMemberSize` | crates/tywb/src/record_fetch.rs:47-49 | The exact size of a stored member. |
| `OcrProtocol.NothingLost` | crates/tywb/src/ocr_worker.rs:169-308 | With one worker and any number of index processes, in any interleaving, any operation failing and any process stopped anywhere, a digest once queued is in the queue, in failed/, or answered by the cache. |
| `OcrProtocol.RunKeeps` | crates/tywb/src/ocr_worker.rs:169-308 | Every run from a consistent cache keeps the invariant: job files name digests in use, a task has its job file until it takes it away, every digest ever queued is safe. |
| `OcrProtocol.ActionKeeps` | crates/tywb/src/ocr_cache.rs:202-305 | Every single action keeps the invariant behind it: a job file goes for good only when its digest is answered. |
| `OcrProtocol.AttemptBound` | crates/tywb/src/ocr_cache.rs:263-289 | Across any number of worker runs a job that keeps failing, its failures recorded or not, stays queued with one more attempt each time and is parked by exactly the max(1, max_attempts - attempts)-th recorded failure. |
| `OcrProtocol.SharedNameLoses` | crates/tywb/src/ocr_cache.rs:353-364 | Without distinct file names it is false: queueing a second digest of the same slug loses the first. |
| `OcrProtocol.LosslessExactly` | crates/tywb/src/ocr_cache.rs:353-364 | For digests that name files: no run from an empty cache loses one of them if and only if no two share a file name. |
| `ManyWorkers.LostExactly` | crates/tywb/src/ocr_cache.rs:293-306 | With any number of workers at once, in any interleaving, any operation failing and any process stopped anywhere: in every state of the run every queued digest is safe, if and only if no worker clears the way in failed/ for a job that is gone from the queue, owed and unanswered. |
| `ManyWorkers.StepLoses` | crates/tywb/src/ocr_cache.rs:293-306 | Step by step: an action loses something exactly when it is such a clearing. |
| `ManyWorkers.OneWorkerRuns` | crates/tywb/src/ocr_worker.rs:169-308 | A run in which one worker acts is a run of the one-worker protocol. |
| `ManyWorkers.OneWorkerLosesNothing` | crates/tywb/src/ocr_worker.rs:169-308 | So with one worker nothing is ever lost. |
| `ManyWorkers.SecondParkLoses` | crates/tywb/src/ocr_cache.rs:293-306 | With two it happens, from an empty cache: both list a job and fail at it, the first parks it, the second fails to rename it, removes the parked file and fails again; for every job and limit its next failure reaches. |
| `OcrFiles.SlugsCollide` | crates/tywb/src/ocr_cache.rs:353-364 | Two digests share a file name exactly when they differ only in `:` against `_`; digests without an underscore never do. |
| `OcrFiles.SlugExactly` | crates/tywb/src/ocr_cache.rs:353-364 | Exactly the digests over letters, digits and five marks that are not empty and hold no two dots in a row name a file. |
| `OcrFiles.SlugIsSafe` | crates/tywb/src/ocr_cache.rs:353-364 | Such a name has no slash, no colon and no two dots in a row: it stays inside the directory. |
| `OcrFiles.ShardIs` | crates/tywb/src/ocr_cache.rs:368-376 | The shard of a digest is what the first two characters behind its last colon are in lower case, or `0` when there are none. |
| `OcrWorker.Drain` | crates/tywb/src/ocr_worker.rs:167-249 | A worker run is a run of the protocol, so it keeps its invariant; when no file operation fails every queued job is answered and removed, parked, or back in the queue with one more attempt, and each counter is the number of jobs that came to its outcome. |
| `OcrWorker.TalliesAdd` | crates/tywb/src/ocr_worker.rs:70-80 | Every job is in exactly one counter besides the total. |
| `OcrWorker.RunJob` | crates/tywb/src/ocr_worker.rs:191-308 | A job comes to the outcome its cache state and extraction call for; a stored or negative answer is in the cache before the job is removed. |
| `OcrWorker.StoreAndRemove` | crates/tywb/src/ocr_worker.rs:264-297 | The entry is stored first; when that fails nothing has changed. |
| `OcrWorker.LookUpOrQueue` | crates/tywb/src/index.rs:1107-1176 | A cached text that passes the quality gate, a rejected one or a negative entry is answered from the cache; a miss is queued, and reported as queued only when it is. |
| `OcrCache.OcrCache.Park` | crates/tywb/src/ocr_cache.rs:293-306 | On success the job file has moved to failed/; on failure it is where it was, and at most what it would have replaced is gone. |
| `OcrCache.OcrCache.Retry` | crates/tywb/src/ocr_cache.rs:263-289 | Parks exactly when the attempts are used up, else writes the job back with one more; no other job file changes. |
| `OcrCache.OcrCache.QueuedJobs` | crates/tywb/src/ocr_cache.rs:214-246 | Lists each readable job once with the content of its file, every one of them when nothing fails; unreadable files are parked, not dropped. |
| `OcrCache.OcrCache.Get` | crates/tywb/src/ocr_cache.rs:123-141 | What is returned is what the file says for this digest; a failure is a miss. |
| `OcrCache.OcrCache.Put` | crates/tywb/src/ocr_cache.rs:151-157 | The entry is replaced as a whole or not at all. |
| `OcrCache.OcrCache.Enqueue` | crates/tywb/src/ocr_cache.rs:202-209 | The job file is replaced as a whole or not at all, and no other file changes. |
| `OcrCache.OcrCache.RemoveJob` | crates/tywb/src/ocr_cache.rs:251-258 | The job file is gone, or nothing has changed. |
| `OcrCache.FileSystem.AtomicWrite` | crates/tywb/src/ocr_cache.rs:387-411 | A reader sees the old file or the new one: nothing but the target changes among the files anyone reads. |
| `OcrCache.LeadsKeepsInv` | crates/tywb/src/ocr_worker.rs:169-308 | Whatever the worker does by itself keeps the no-loss invariant. |
| `CachedText.ParseInvertsRender` | crates/tywb/src/ocr_cache.rs:416-446 | A rendered entry parses for its digest and for no other, to the same text and the title in normal form, even when the title contains ` source-digest=`. |
| `CachedText.NegativeEntry` | crates/tywb/src/ocr_cache.rs:117-122 | An entry without title and text reads back as the negative entry. |
| `CachedText.NormalTitleTwice` | crates/tywb/src/ocr_cache.rs:440-444 | A title read back and stored again does not change any more. |
| `CachedText.AcceptedNamesDigest` | crates/tywb/src/ocr_cache.rs:428-446 | Whatever a file holds, an entry is only read when its first line starts with the magic word and names exactly this digest; its text is all behind that line. |
| `CachedText.TitleIsKept` | crates/tywb/src/ocr_cache.rs:416-421 | A title of one line without the title key in it and without white space around it is kept as it is. |
| `CachedText.UntitledEntry` | crates/tywb/src/ocr_cache.rs:440-445 | An entry whose first line has no title is read with an empty one. |
| `Chunked.DechunkInvertsEncode` | crates/tywb/src/http_payload.rs:176-217 | Dechunking any encoding with sizes of at most 16 digits and size lines within the scan gives the data of its chunks, with any trailer behind it. |
| `Chunked.DechunkPlain` | crates/tywb/src/http_payload.rs:176-217 | Any pieces sent as chunks with their sizes in hexadecimal, in either case, dechunk to the pieces one after the other. |
| `Chunked.DigitsAre` | crates/tywb/src/http_payload.rs:176-192 | The digits of a size are 0 to 9, A to F and a to f with their values, and no other byte. |
| `Chunked.DechunkOfCut` | crates/tywb/src/http_payload.rs:187-216 | For every cut of a valid encoding: nothing when the cut is inside or right before a size line, or inside a chunk whose end does not fit 64 bits; the data received so far otherwise, all of it once the last size line is there. |
| `Chunked.CutInsideChunk` | crates/tywb/src/http_payload.rs:199-206 | A body that ends inside a chunk, whatever size that chunk declares, keeps all it has if and only if the declared end fits 64 bits; else it is refused as a whole. |
| `Chunked.HugeChunkIsRefused` | crates/tywb/src/http_payload.rs:199-199 | Such a size: sixteen times `f`, with any chunks before it and any data behind it. |
| `Chunked.DechunkSound` | crates/tywb/src/http_payload.rs:187-216 | Accepted bytes are a chunk sequence, possibly cut off or followed by a trailer, whose data is the result. |
| `Chunked.DechunkedIsExplained` | crates/tywb/src/http_payload.rs:176-217 | What a whole body gives, exactly: these bytes if and only if it is a chunk sequence with that data, possibly cut off or followed by a trailer, in which the end of the chunk it breaks off in fits 64 bits. |
| `Chunked.Dechunk` | crates/tywb/src/http_payload.rs:176-217 | The loop computes the content of the body, and its position only moves forward. |
| `Chunked.ReceivedIsPrefix` | crates/tywb/src/http_payload.rs:202-215 | What a cut body gives is a prefix of the content, and all of it once the last size line has arrived. |
| `Chunked.SizeLineRead` | crates/tywb/src/http_payload.rs:187-196 | A size line is read when it is all there, with its value, and not when it is cut. |
| `Chunked.FindLineEnd` | crates/tywb/src/http_payload.rs:225-233 | The bounded search finds the CRLF that ends a size line, and none in a cut one. |
| `Calendar.EpochToYmdHms` | crates/tywb/src/index.rs:1644-1672 | A valid date and time of day whose day number is the day count modulo 2^32; recombining gives the seconds exactly when the day count is below 2^32. |
| `Calendar.MonthOf` | crates/tywb/src/index.rs:1662-1671 | The month loop never passes 12 and leaves a day of that month. |
| `Calendar.YearOf` | crates/tywb/src/index.rs:1652-1661 | The year loop leaves a day of that year. |
| `Calendar.FormulaCounts` | crates/tywb/src/server.rs:1504-1511 | The formula counts the days of the years and months before a date. |
| `Calendar.DaysAreOrdered` | crates/tywb/src/server.rs:1504-1511 | The day number is strictly monotone in (year, month, day). |
| `Calendar.DateOfDay` | crates/tywb/src/server.rs:1504-1511 | A day number stands for one valid date only. |
| `Calendar.TimestampInvertsStamp` | crates/tywb/src/server.rs:1487-1502 | A 14-digit timestamp of a valid date reads as its day number and time in seconds. |
| `Calendar.ShortAndLong` | crates/tywb/src/server.rs:1487-1502 | Fewer than 14 bytes give 0, more make no difference. |
| `Calendar.NoTimestamp` | crates/tywb/src/server.rs:1490-1496 | Fourteen bytes that are no digits count as the first second of 1970. |
| `Calendar.SignedParts` | crates/tywb/src/server.rs:1490-1496 | A part with a sign reads as that number, a sign alone as none. |
| `CdxStore.CdxStore.Closest` | crates/cdx/src/store.rs:467-512 | The capture found is nearest to the target in numeral distance among all captures of the key, the earlier of two equally near; none only when the key has no capture. |
| `CdxStore.NearerOfTwo` | crates/cdx/src/store.rs:496-511 | Of a capture up to the target and one after it the one at the smaller difference of numerals is taken, the earlier one when they are equally far. |
| `CaptureTime.ValidExactly` | crates/cdx/src/record.rs:54-61 | The lookup takes a text for a timestamp if and only if it is the print of a valid date and time of day, the sixtieth second included. |
| `CaptureTime.MomentInvertsStamp` | crates/cdx/src/record.rs:63-66 | Printing a moment and reading its numbers are inverse. |
| `CdxStore.CdxStore.LatestUpTo` | crates/cdx/src/store.rs:471-482 | The last capture up to the target, in text order. |
| `CdxStore.CdxStore.EarliestAfter` | crates/cdx/src/store.rs:484-495 | The first capture after the target, in text order. |
| `CdxStore.OrderIsNumeric` | crates/cdx/src/store.rs:1015-1016 | At a fixed width, text order of digit strings is numeric order. |
| `CdxStore.DistanceIsNumeric` | crates/cdx/src/store.rs:1017-1021 | The distance of two 14-digit timestamps is the difference of their numerals. |
| `CaptureTime.OrderIsTime` | crates/cdx/src/store.rs:1015-1016 | For all valid timestamps text order is order of Unix seconds; only a leap second can coincide with the second after it. |
| `CaptureTime.ClosestInTime` | crates/cdx/src/store.rs:496-511 | The capture found is nearest to the target in seconds among all captures of the key, if and only if one of the two neighbours is missing or comparing those two by numerals and by seconds picks the same one. |
| `CaptureTime.NumeralsAreNotSeconds` | crates/cdx/src/store.rs:1017-1021 | They need not agree: a capture one day later counts as nearer than one a second earlier. |
| `CdxStore.PrefixRange` | crates/cdx/src/store.rs:516-529 | For all byte strings: s lies between p and its bound in bytes exactly when s starts with p and p is not empty or all 0xFF. |
| `PrefixText.RangeExactly` | crates/cdx/src/store.rs:516-529 | For all text prefixes, with the bound turned into a string as the code does: the range holds exactly the texts that start with the prefix, if and only if the prefix is not empty and its last byte is neither 0x7F nor 0xBF. |
| `CdxStore.ComputeNextPrefix` | crates/cdx/src/store.rs:1025-1040 | The pop-and-retry loop computes that bound, as text, ill-formed bytes replaced. |
| `PrefixText.BoundIsText` | crates/cdx/src/store.rs:1039-1040 | The bound of a text that is not empty is text if and only if the last byte is neither 0x7F nor 0xBF. |
| `PrefixText.BoundTextIs` | crates/cdx/src/store.rs:1039-1040 | As a string the bound is the prefix with its last byte incremented, or, in those two cases, one or two replacement characters in place of the last character. |
| `CdxStore.CdxStore.UpsertBatchCounted` | crates/cdx/src/store.rs:286-340 | The table after the batch, and counts: new rows are the growth of the table, new and existing together the batch. |
| `CdxStore.LastWins` | crates/cdx/src/store.rs:310-335 | After a batch a key has the row of its last record in it. |
| `CdxStore.OthersStay` | crates/cdx/src/store.rs:310-335 | A key the batch does not mention is left alone. |
| `CdxStore.CdxStore.DeleteByDomainSurt` | crates/cdx/src/store.rs:375-383 | Exactly the rows whose key matches one of the two LIKE patterns go, and their number is returned. |
| `CdxStore.CdxStore.DeleteBySurtUrls` | crates/cdx/src/store.rs:419-430 | Exactly the rows with one of the given keys go, and their number is returned. |
| `CdxStore.LikePrefix` | crates/cdx/src/store.rs:376-381 | Without a percent sign of its own a LIKE prefix pattern matches what starts with it, ASCII case ignored and with anything in place of an underscore. |
| `SurtHost.HostSuffixIsSurtPrefix` | crates/cdx/src/surt.rs:39-61 | A host is covered by a domain exactly when its SURT key starts with the reversed domain and `)` or `,`. |
| `SurtHost.SuffixOfLabels` | crates/config/src/lib.rs:690-699 | A host ends in `.` and a domain exactly when its last labels are the labels of the domain. |
| `SurtHost.PrefixOfLabels` | crates/cdx/src/store.rs:375-383 | A SURT key starts with reversed labels and a separator exactly when they are its first labels. |
| `SurtHost.SplitInvertsJoin` | crates/tywb/src/index.rs:168-176 | Splitting labels joined by dots gives back the labels. |
| `SurtHost.JoinInvertsSplit` | crates/tywb/src/index.rs:168-176 | Joining what splitting gave gives back the text, and no piece holds the separator. |
| `SurtHost.DomainPrefix` | crates/tywb/src/index.rs:168-176 | What the purge computes from a configured domain, any text, is its reversed labels. |
| `HostFilter.AgreeExactly` | crates/config/src/lib.rs:701-722 | For domains of any text without percent and at sign, purge and filter agree on a URL if and only if: with a colon in the user information, what stands in front of it is covered just as the key is matched; with dots at the end of the host, neither goes by the domain; and else the row is no stray and, with user information, the host is not the domain itself. |
| `HostFilter.PurgeMatchesFilter` | crates/tywb/src/index.rs:180-205 | For URLs without user information and dots at the end of the host, and domains of letters, digits, hyphens and dots, the rows the purge deletes are exactly those the ingest filter refuses. |
| `HostFilter.OrdinaryHasNoStrays` | crates/cdx/src/store.rs:375-383 | For such domains no key matches whose host the domain does not cover. |
| `HostFilter.UnderscoreStrays` | crates/cdx/src/store.rs:375-383 | With an underscore there are such rows: the purge for `x_y` deletes every capture of host `y.x`. |
| `HostFilter.ListedIs` | crates/config/src/lib.rs:708-722 | Which URLs the filter refuses for a domain: those where it covers the part in front of the first colon of the user information, or else user information, host and dots together. |
| `HostFilter.PurgedIs` | crates/tywb/src/index.rs:180-205 | Which rows the purge deletes for a domain: those whose host it covers and the strays, rows of other hosts whose key matches with an underscore standing for any character. |
| `SkipList.SkipListHoldsExactly` | crates/tywb/src/index.rs:257-278 | For every table, skip list and objects: from the end of the purge to the end of the run no state of the table holds a row whose URL is on the skip list, if and only if the purge forgets no row the filter refuses. |
| `SkipList.ForgottenIs` | crates/tywb/src/index.rs:180-205 | For a row as the indexer writes it: forgotten if and only if some domain covers what the filter takes for the host, the key matches no domain, and no pattern deletes it. |
| `SkipEffect.NoPatternRow` | crates/config/src/lib.rs:708-722 | From the end of the purge to the end of the run no row matches a pattern, whatever the table held and whatever the objects bring. |
| `SkipEffect.NoDomainRow` | crates/tywb/src/index.rs:758-766 | And no row has a configured domain, or a name below one, in place of its host, unless the purge left that very row there. |
| `SkipEffect.RunAtKey` | crates/tywb/src/index.rs:757-766 | What stands under a key after a run: the last record offered for it that the skip list lets in, or else what the purge left there. |
| `SkipEffect.RunIsOneBatch` | crates/tywb/src/index.rs:757-766 | How the records are spread over objects makes no difference to the table. |
| `SkipEffect.PurgedExactly` | crates/tywb/src/index.rs:257-278 | The purge takes a row if and only if its key matches a configured domain or some row of its key matches a pattern; the others stay as they are. |
| `SkipEffect.UrlListedIs` | crates/config/src/lib.rs:708-722 | A URL is kept out if and only if a configured domain covers what stands for its host or a pattern matches it. |
| `SkipEffect.NoSchemeNoHost` | crates/config/src/lib.rs:701-722 | A text without `://` is only asked about by pattern. |
| `SkipEffect.FilteredConcat` | crates/tywb/src/index.rs:758-766 | The filter goes record by record and keeps their order. |
| `SkipList.PasswordIsForgotten` | crates/config/src/lib.rs:708-722 | Such rows: a listed name as user with a password, in front of a host no listed domain matches. |
| `SkipList.PasswordExample` | crates/config/src/lib.rs:708-722 | One of them, with `a` on the skip list: `http://a:b@c/`. |
| `SkipList.SkipListHolds` | crates/tywb/src/index.rs:257-278 | It forgets none among rows whose URLs filter and purge agree on. |
| `SkipList.PurgedIsClean` | crates/tywb/src/index.rs:257-278 | What the purge leaves is free of listed URLs exactly then. |
| `SkipList.Run` | crates/tywb/src/index.rs:757-766 | The table after a run is the purged table with the filtered records of each object applied in order. |
| `SkipList.Purge` | crates/tywb/src/index.rs:262-278 | Exactly the rows with a key of a configured domain go, and of the others those of a key with a capture that matches a pattern. |
| `SkipList.PurgeDomain` | crates/tywb/src/index.rs:180-205 | Exactly the rows with a key of this domain go, in addition to those of the domains before. |
| `SkipList.SurtsMatching` | crates/cdx/src/store.rs:393-411 | Exactly the keys with a matching capture, each once. |
| `SkipList.FilterRecords` | crates/tywb/src/index.rs:758-766 | The records not on the skip list, in order, and the number of the others. |
| `SkipList.IsUrlBlacklisted` | crates/config/src/lib.rs:708-722 | True exactly when a configured domain covers the host in front of the first `/`, `:`, `?` or `#`, or a pattern matches. |
| `SkipList.IsHostBlacklisted` | crates/config/src/lib.rs:690-699 | True exactly when the host is a configured domain or ends in a dot and one. |
| `HostFilter.FastHostIsHost` | crates/config/src/lib.rs:710-716 | Without user information and dots the fast path finds the host; that a URL parser finds the same one in the text is an assumption of the model. |
| `HostFilter.UserNameHidesApex` | crates/config/src/lib.rs:708-722 | With any user information without a colon the filter refuses exactly the names below the domain, while the purge deletes the domain itself too, and strays. |
| `HostFilter.UserPartDecides` | crates/config/src/lib.rs:708-722 | With a colon in it the filter asks about what stands in front of the colon, whatever the host is. |

## Left out

- Huffman-coded DEFLATE: the coder is a parameter; the concrete instance has stored blocks only.
- Header checksums and reserved flag bits that the gzip library checks: a decoder is modelled as looking at magic, method, optional fields, data and trailer.
- A file of zero bytes, which the multi-member decoder reports as truncated: the recompressor skips it before decoding.
- Read errors of the byte sources of the splitter, the parser and the rewriter other than the three ways a decompressed stream can end; after such an error the splitter's buffer keeps padding, and the indexer gives up on the object.
- Output an encoder writes before it is finished: it is accounted for where the encoder is finished or dropped.
- SHA-256: taken to be injective, a digest stands for what was hashed.
- The listing of the bucket, its filters and the limit, and concurrent processing: one key and its own scratch files are modelled. Two keys whose names differ only in replaced characters share scratch file names.
- Downloads: a successful one is the whole object; a server that cuts a body short without an error is not modelled.
- UTF-8 text: header values are trimmed and parsed on bytes; a Content-Length value with invalid UTF-8 is treated as not a number, and allocation failure for huge lengths is not modelled.
- Typed header accessors, record types and dates: easy members.
- Rewriter.RewriteRecords: does not model the 64-bit wrap-around of the byte counters, which needs sources of more than 2^64 bytes.
- OcrCache.OcrCache.QueuedJobs: does not model the sort of the job list, because the protocol holds for every order; job files whose content names another digest are outside the model, as are directory listings that return a name twice.
- OcrCache.OcrCache.Get: treats entries as text; lossy decoding of bytes that are not UTF-8 is outside the model.
- OcrWorker.Drain: takes the jobs of a list one after the other; that several tasks of one worker may interleave is part of the protocol, not of this method.
- OcrWorker.LookUpOrQueue: does not model link extraction from retained XHTML or the cut of a text to the maximal size, which touch no file of the queue.
- OcrWorker.RunJob: does not model the retained XHTML beside the text, which is written best effort after it.
- Prefill of the OCR queue: it only queues jobs, which any process may do in the protocol.
- Tika, S3 and HTTP clients, tasks and logging: abstract steps that succeed or fail.
- CdxStore.CdxStore.Closest: assumes that every timestamp of the key has 14 digits, as the indexer writes them.
- SQL beyond the two LIKE patterns, the range query and the two nearest-capture queries; LIKE is modelled on bytes.
- HostFilter.AgreeExactly: covers hosts over a-z, 0-9, the hyphen and the underscore, in any case, and domains without percent and at sign; that the labels of a URL are those of its text is an assumption, so what a URL parser rewrites (backslashes, percent-encoded or non-ASCII hosts, tabs, hosts of dots alone) is not modelled. Regular expressions are a parameter.
- The fulltext index beside the CDX table, whose deletion by pattern keeps one URL per key only.
- Chunked.Dechunk: the content coding behind the chunking (gzip, deflate) and the HTTP header lines are not modelled.
- Calendar.TimestampInvertsStamp: timestamps with years of more than four digits.
- Offset-based fetches from plain WARC files, which read past the record.
- The web interface, replay rewriting, statistics and configuration loading.
